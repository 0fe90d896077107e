/**
 * The entry table shared by both layouts: Entry1::read (src/version1.cpp) and
 * Entry2::read (src/version2.cpp) are the same decoder with 32-bit or 64-bit
 * size and offset fields, and both extract functions run the same table loop.
 */
module Entries {
  import opened Bytes
  import opened Reader

  /** Width in bytes of Entry1's size and offset fields. */
  const WIDTH1: nat := 4
  /** Width in bytes of Entry2's size and offset fields. */
  const WIDTH2: nat := 8

  /** One embedded file: its name, its byte count, and its offset from the content base. */
  datatype Entry = Entry(filename: seq<byte>, size: nat, offset: nat)

  /** Entry1::read (width 4) and Entry2::read (width 8), starting with the cursor at pos. */
  function EntryAt(data: seq<byte>, pos: nat, width: nat): (r: Read<Entry>)
    requires width > 0
    ensures r.next >= pos
    ensures r.Parsed? ==> r.next == pos + 4 + |r.value.filename| + 2 * width && Encodable(r.value, width)
  {
    match ReadFixed(data, pos, 4)
    case Failed(f, p) => Failed(f, p)
    case Parsed(length, p1) =>
      if length >= BUFFER_SIZE then Failed(NameTooLong, p1)
      else
        match ReadSpan(data, p1, length)
        case Failed(f, p) => Failed(f, p)
        case Parsed(name, p2) =>
          match ReadFixed(data, p2, width)
          case Failed(f, p) => Failed(f, p)
          case Parsed(size, p3) =>
            match ReadFixed(data, p3, width)
            case Failed(f, p) => Failed(f, p)
            case Parsed(offset, p4) => Parsed(Entry(name, size, offset), p4)
  }

  /**
   * What a decoded entry is: a u32 name length below BUFFER_SIZE, that many
   * name bytes, then the size and offset fields, read back to back.
   */
  lemma {:induction false} EntryAtParsed(data: seq<byte>, pos: nat, width: nat)
    requires width > 0 && EntryAt(data, pos, width).Parsed?
    ensures var e := EntryAt(data, pos, width).value;
      && ReadFixed(data, pos, 4) == Parsed(|e.filename|, pos + 4)
      && |e.filename| < BUFFER_SIZE
      && At(data, pos + 4, e.filename)
      && ReadFixed(data, pos + 4 + |e.filename|, width) == Parsed(e.size, pos + 4 + |e.filename| + width)
      && ReadFixed(data, pos + 4 + |e.filename| + width, width) == Parsed(e.offset, pos + 4 + |e.filename| + 2 * width)
  {
  }

  /**
   * Why an entry fails: a declared name length of BUFFER_SIZE or more is
   * refused right after the length field; any other failure is a short read,
   * which leaves the cursor at the end of data.
   */
  lemma {:induction false} EntryAtFailed(data: seq<byte>, pos: nat, width: nat)
    requires width > 0
    ensures var r, length := EntryAt(data, pos, width), ReadFixed(data, pos, 4);
      && (length.Parsed? && length.value >= BUFFER_SIZE ==> r == Failed(NameTooLong, pos + 4))
      && (r.Failed? && r.fault != NameTooLong ==> r.fault == Truncated && Remaining(data, r.next) == 0)
  {
  }

  /** Entry::read on a fresh record: the fields are filled one after another as the stream advances. */
  method ReadEntry(f: Stream, width: nat) returns (ok: bool, e: Entry)
    requires width > 0
    modifies f
    ensures var r := EntryAt(f.data, old(f.pos), width);
      ok == r.Parsed? && f.pos == r.next && (ok ==> e == r.value)
  {
    e := Entry([], 0, 0);
    var length;
    ok, length := f.ReadType(4);
    if !ok { return; }
    if length >= BUFFER_SIZE {
      ok := false;
      return;
    }
    var name;
    ok, name := f.ReadBytes(length);
    if !ok { return; }
    e := e.(filename := name);
    var size;
    ok, size := f.ReadType(width);
    if !ok { return; }
    e := e.(size := size);
    var offset;
    ok, offset := f.ReadType(width);
    if !ok { return; }
    e := e.(offset := offset);
  }

  /** The kept entries and the cursor after the table loop. */
  datatype Table = Table(entries: seq<Entry>, end: nat)

  /**
   * The table loop: count attempts from pos; an entry that fails to decode is
   * dropped and the loop goes on from wherever its read left the cursor.
   */
  function TableAt(data: seq<byte>, pos: nat, width: nat, count: nat): (t: Table)
    requires width > 0
    ensures |t.entries| <= count && t.end >= pos
    ensures forall e <- t.entries :: |e.filename| < BUFFER_SIZE && e.size < Pow256(width) && e.offset < Pow256(width)
    decreases count
  {
    if count == 0 then Table([], pos)
    else
      match EntryAt(data, pos, width)
      case Parsed(e, p) =>
        var rest := TableAt(data, p, width, count - 1);
        Table([e] + rest.entries, rest.end)
      case Failed(_, p) => TableAt(data, p, width, count - 1)
  }

  /** The table loop of extractVersion1 and extractVersion2, pushing each entry that decodes. */
  method ReadTable(f: Stream, width: nat, count: nat) returns (entries: seq<Entry>)
    requires width > 0
    modifies f
    ensures TableAt(f.data, old(f.pos), width, count) == Table(entries, f.pos)
  {
    ghost var whole := TableAt(f.data, f.pos, width, count);
    entries := [];
    var i := 0;
    while i < count
      invariant i <= count
      invariant var rest := TableAt(f.data, f.pos, width, count - i);
        whole == Table(entries + rest.entries, rest.end)
    {
      var ok, entry := ReadListed(f, width, count - i);
      if ok {
        ghost var rest := TableAt(f.data, f.pos, width, count - i - 1);
        assert entries + ([entry] + rest.entries) == (entries + [entry]) + rest.entries;
        entries := entries + [entry];
      }
      i := i + 1;
    }
  }

  /** One turn of the table loop with n attempts left: the entry read, if any, heads what the table keeps. */
  method ReadListed(f: Stream, width: nat, n: nat) returns (ok: bool, entry: Entry)
    requires width > 0 && n > 0
    modifies f
    ensures var rest := TableAt(f.data, f.pos, width, n - 1);
      TableAt(f.data, old(f.pos), width, n) == if ok then Table([entry] + rest.entries, rest.end) else rest
  {
    ghost var before := f.pos;
    ok, entry := ReadEntry(f, width);
    TableStep(f.data, before, width, n);
  }

  /** One turn of the table loop. */
  lemma {:induction false} TableStep(data: seq<byte>, pos: nat, width: nat, count: nat)
    requires width > 0 && count > 0
    ensures var r := EntryAt(data, pos, width);
      var rest := TableAt(data, r.next, width, count - 1);
      TableAt(data, pos, width, count) == if r.Parsed? then Table([r.value] + rest.entries, rest.end) else rest
  {
  }

  /** Once the cursor has reached the end of data, the rest of the table decodes nothing and stays put. */
  lemma {:induction false} TableStuck(data: seq<byte>, pos: nat, width: nat, count: nat)
    requires width > 0 && Remaining(data, pos) == 0
    ensures TableAt(data, pos, width, count) == Table([], pos)
    decreases count
  {
    if count > 0 {
      TableStuck(data, pos, width, count - 1);
    }
  }

  /** Entries that the layout can express: a name under the buffer bound, size and offset within the field width. */
  predicate Encodable(e: Entry, width: nat)
  {
    |e.filename| < BUFFER_SIZE && e.size < Pow256(width) && e.offset < Pow256(width)
  }

  /** The on-disk form of an entry: length, name, size, offset. */
  function EncodeEntry(e: Entry, width: nat): (s: seq<byte>)
    ensures |s| == 4 + |e.filename| + 2 * width
  {
    ToLittleEndian(|e.filename|, 4) + e.filename + ToLittleEndian(e.size, width) + ToLittleEndian(e.offset, width)
  }

  /** The on-disk form of a whole table. */
  function EncodeTable(es: seq<Entry>, width: nat): seq<byte>
  {
    if es == [] then [] else EncodeEntry(es[0], width) + EncodeTable(es[1..], width)
  }

  /** Every entry takes at least its four length bytes, so a table is at least four bytes per entry. */
  lemma {:induction false} EncodeTableLength(es: seq<Entry>, width: nat)
    ensures |EncodeTable(es, width)| >= 4 * |es|
    decreases es
  {
    if es != [] {
      EncodeTableLength(es[1..], width);
    }
  }

  /** An encoded entry decodes to itself, consuming exactly its encoding. */
  lemma {:induction false} EntryRoundTrip(data: seq<byte>, pos: nat, e: Entry, width: nat)
    requires width > 0 && Encodable(e, width) && At(data, pos, EncodeEntry(e, width))
    ensures EntryAt(data, pos, width) == Parsed(e, pos + |EncodeEntry(e, width)|)
  {
    var p1, p2 := pos + 4, pos + 4 + |e.filename|;
    var p3, p4 := p2 + width, p2 + 2 * width;
    EntryFields(data, pos, e, width);
    assert |e.filename| < Pow256(4);
    ReadFixedRoundTrip(data, pos, |e.filename|, 4);
    assert ReadFixed(data, pos, 4) == Parsed(|e.filename|, p1);
    ReadSpanRoundTrip(data, p1, e.filename);
    assert ReadSpan(data, p1, |e.filename|) == Parsed(e.filename, p2);
    ReadFixedRoundTrip(data, p2, e.size, width);
    assert ReadFixed(data, p2, width) == Parsed(e.size, p3);
    ReadFixedRoundTrip(data, p3, e.offset, width);
    assert ReadFixed(data, p3, width) == Parsed(e.offset, p4);
  }

  /** The four fields of an encoded entry, each found where the decoder looks for it. */
  lemma {:induction false} EntryFields(data: seq<byte>, pos: nat, e: Entry, width: nat)
    requires At(data, pos, EncodeEntry(e, width))
    ensures var p2 := pos + 4 + |e.filename|;
      && At(data, pos, ToLittleEndian(|e.filename|, 4)) && At(data, pos + 4, e.filename)
      && At(data, p2, ToLittleEndian(e.size, width)) && At(data, p2 + width, ToLittleEndian(e.offset, width))
  {
    var len := ToLittleEndian(|e.filename|, 4);
    var size := ToLittleEndian(e.size, width);
    var offset := ToLittleEndian(e.offset, width);
    AtSplit(data, pos, len + e.filename + size, offset);
    AtSplit(data, pos, len + e.filename, size);
    AtSplit(data, pos, len, e.filename);
  }

  /** A table of encodable entries decodes to exactly those entries, ending right after its encoding. */
  lemma {:induction false} TableRoundTrip(data: seq<byte>, pos: nat, es: seq<Entry>, width: nat)
    requires width > 0 && At(data, pos, EncodeTable(es, width))
    requires forall e <- es :: Encodable(e, width)
    ensures TableAt(data, pos, width, |es|) == Table(es, pos + |EncodeTable(es, width)|)
    decreases es
  {
    if es != [] {
      var head, tail := EncodeEntry(es[0], width), EncodeTable(es[1..], width);
      var next := pos + |head|;
      assert EncodeTable(es, width) == head + tail;
      AtSplit(data, pos, head, tail);
      EntryRoundTrip(data, pos, es[0], width);
      TableRoundTrip(data, next, es[1..], width);
      var rest := TableAt(data, next, width, |es| - 1);
      assert rest == Table(es[1..], next + |tail|);
      TableStep(data, pos, width, |es|);
      assert TableAt(data, pos, width, |es|) == Table([es[0]] + rest.entries, rest.end);
      assert [es[0]] + es[1..] == es;
    }
  }

  /**
   * An encodable entry cut short by the end of data: whichever field the end
   * falls in, the read fails as a truncation with the cursor at the end.
   */
  lemma {:induction false} EntryCut(data: seq<byte>, pos: nat, e: Entry, width: nat)
    requires width > 0 && Encodable(e, width) && Cut(data, pos, EncodeEntry(e, width))
    ensures EntryAt(data, pos, width) == Failed(Truncated, |data|)
  {
    var len := ToLittleEndian(|e.filename|, 4);
    var size := ToLittleEndian(e.size, width);
    FieldCapacities();
    CutSplit(data, pos, len + e.filename + size, ToLittleEndian(e.offset, width));
    if |data| < pos + 4 + |e.filename| + width {
      CutSplit(data, pos, len + e.filename, size);
      if |data| < pos + 4 + |e.filename| {
        CutSplit(data, pos, len, e.filename);
        if pos + 4 <= |data| {
          ReadFixedRoundTrip(data, pos, |e.filename|, 4);
        }
      } else {
        AtSplit(data, pos, len, e.filename);
        ReadFixedRoundTrip(data, pos, |e.filename|, 4);
        ReadSpanRoundTrip(data, pos + 4, e.filename);
      }
    } else {
      AtSplit(data, pos, len + e.filename, size);
      AtSplit(data, pos, len, e.filename);
      ReadFixedRoundTrip(data, pos, |e.filename|, 4);
      ReadSpanRoundTrip(data, pos + 4, e.filename);
      ReadFixedRoundTrip(data, pos + 4 + |e.filename|, e.size, width);
    }
  }

  /**
   * A table of encodable entries cut short by the end of data: the entries
   * before the cut decode, the one it falls in fails, and the loop ends with
   * the cursor at the end of data.
   */
  lemma {:induction false} TableCut(data: seq<byte>, pos: nat, es: seq<Entry>, width: nat)
    requires width > 0 && Cut(data, pos, EncodeTable(es, width))
    requires forall e <- es :: Encodable(e, width)
    ensures TableAt(data, pos, width, |es|).end == |data|
    decreases es
  {
    assert es != [];
    if |data| < pos + |EncodeEntry(es[0], width)| {
      TableCutHere(data, pos, es, width);
    } else {
      var next := TableCutHead(data, pos, es, width);
      TableCut(data, next, es[1..], width);
      TableGoesOn(data, pos, width, |es|, es[0], next);
    }
  }

  /** The cut falls in the first entry of the table: the loop ends at the end of data. */
  lemma {:induction false} TableCutHere(data: seq<byte>, pos: nat, es: seq<Entry>, width: nat)
    requires width > 0 && es != [] && Cut(data, pos, EncodeTable(es, width))
    requires forall e <- es :: Encodable(e, width)
    requires |data| < pos + |EncodeEntry(es[0], width)|
    ensures TableAt(data, pos, width, |es|).end == |data|
  {
    var head, tail := EncodeEntry(es[0], width), EncodeTable(es[1..], width);
    assert EncodeTable(es, width) == head + tail;
    assert es[0] in es;
    CutSplit(data, pos, head, tail);
    EntryCut(data, pos, es[0], width);
    TableEndsWith(data, pos, width, |es|);
  }

  /** The cut falls after the first entry of the table: it decodes, and the rest of the table is cut. */
  lemma {:induction false} TableCutHead(data: seq<byte>, pos: nat, es: seq<Entry>, width: nat) returns (next: nat)
    requires width > 0 && es != [] && Cut(data, pos, EncodeTable(es, width))
    requires forall e <- es :: Encodable(e, width)
    requires pos + |EncodeEntry(es[0], width)| <= |data|
    ensures next == pos + |EncodeEntry(es[0], width)| && EntryAt(data, pos, width) == Parsed(es[0], next)
    ensures Cut(data, next, EncodeTable(es[1..], width)) && forall e <- es[1..] :: Encodable(e, width)
  {
    var head, tail := EncodeEntry(es[0], width), EncodeTable(es[1..], width);
    next := pos + |head|;
    assert EncodeTable(es, width) == head + tail;
    assert es[0] in es;
    CutSplit(data, pos, head, tail);
    EntryRoundTrip(data, pos, es[0], width);
    assert forall e <- es[1..] :: e in es;
  }

  /** A table loop whose next entry is a truncation ends at the end of data. */
  lemma {:induction false} TableEndsWith(data: seq<byte>, pos: nat, width: nat, count: nat)
    requires width > 0 && count > 0 && EntryAt(data, pos, width) == Failed(Truncated, |data|)
    ensures TableAt(data, pos, width, count).end == |data|
  {
    TableStep(data, pos, width, count);
    TableStuck(data, |data|, width, count - 1);
  }

  /** A table loop whose next entry decodes ends where the rest of the loop ends. */
  lemma {:induction false} TableGoesOn(data: seq<byte>, pos: nat, width: nat, count: nat, e: Entry, next: nat)
    requires width > 0 && count > 0 && EntryAt(data, pos, width) == Parsed(e, next)
    ensures TableAt(data, pos, width, count).end == TableAt(data, next, width, count - 1).end
  {
    TableStep(data, pos, width, count);
  }
}
