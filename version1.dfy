/**
 * extractVersion1 (src/version1.cpp): the Hotline Miami 1 layout. The header
 * gives the absolute offset of the contents region and the entry count; the
 * table must end exactly at that offset.
 */
module Version1 {
  import opened Bytes
  import opened Reader
  import opened Entries
  import opened Extraction

  /** The two u32 header fields. */
  datatype Header = Header(contentOffset: nat, entriesCount: nat)

  /** The header read and checked: contentOffset of at least 8, at least one entry. */
  function HeaderAt(data: seq<byte>, pos: nat): (r: Read<Header>)
    ensures r.Parsed? ==> r.next == pos + 8 <= |data| && 8 <= r.value.contentOffset < U32 && 1 <= r.value.entriesCount < U32
    ensures r.Parsed? ==>
      && r.value.contentOffset == LittleEndian(data[pos..pos + 4])
      && r.value.entriesCount == LittleEndian(data[pos + 4..pos + 8])
    ensures pos + 8 <= |data| ==>
      var offset, count := LittleEndian(data[pos..pos + 4]), LittleEndian(data[pos + 4..pos + 8]);
      (r.Failed? <==> offset < 8 || count < 1) && (r.Failed? ==> r == Failed(BadHeader, pos + 8))
    ensures pos + 8 > |data| ==> r.Failed? && r.fault == Truncated
  {
    FieldCapacities();
    match ReadFixed(data, pos, 4)
    case Failed(f, p) => Failed(f, p)
    case Parsed(contentOffset, p1) =>
      match ReadFixed(data, p1, 4)
      case Failed(f, p) => Failed(f, p)
      case Parsed(entriesCount, p2) =>
        if contentOffset < 8 || entriesCount < 1 then Failed(BadHeader, p2)
        else Parsed(Header(contentOffset, entriesCount), p2)
  }

  /** A whole version 1 run from the cursor at start, with the filesystem answering io. */
  function Run1(data: seq<byte>, start: nat, io: nat -> Io): (r: Run)
    ensures r.effects != [] ==>
      var h := HeaderAt(data, start);
      h.Parsed? && TableAt(data, start + 8, WIDTH1, h.value.entriesCount).end == h.value.contentOffset
    ensures r.status == Failure(BadHeader) ==> HeaderAt(data, start) == Failed(BadHeader, start + 8)
    ensures HeaderAt(data, start).Failed? ==>
      r == Run([], Failure(HeaderAt(data, start).fault), HeaderAt(data, start).next)
    ensures r.status == Failure(PositionMismatch) <==>
      var h := HeaderAt(data, start);
      h.Parsed? && TableAt(data, start + 8, WIDTH1, h.value.entriesCount).end != h.value.contentOffset
  {
    match HeaderAt(data, start)
    case Failed(f, p) => Run([], Failure(f), p)
    case Parsed(h, p) =>
      var table := TableAt(data, p, WIDTH1, h.entriesCount);
      if table.end != h.contentOffset then Run([], Failure(PositionMismatch), table.end)
      else ExtractFrom(data, Version1, h.contentOffset, table.entries, io, 0, h.entriesCount, table.end)
  }

  /** extractVersion1: false where the source returns false, with the effects it had on the filesystem. */
  method ExtractVersion1(f: Stream, io: nat -> Io) returns (ok: bool, effects: seq<Effect>)
    modifies f
    ensures var r := Run1(f.data, old(f.pos), io);
      ok == r.status.Success? && effects == r.effects && f.pos == r.end
  {
    effects := [];
    var read, contentOffset := f.ReadType(4);
    if !read {
      return false, effects;
    }
    var entriesCount;
    read, entriesCount := f.ReadType(4);
    if !read {
      return false, effects;
    }
    if contentOffset < 8 || entriesCount < 1 {
      return false, effects;
    }
    var entries := ReadTable(f, WIDTH1, entriesCount);
    var pos := f.pos;
    if pos != contentOffset {
      return false, effects;
    }
    ok, effects := ExtractEntries(f, Version1, contentOffset, entries, entriesCount, io);
  }

  /** A version 1 archive: header, table, then the contents region right where the header says. */
  function Archive1(es: seq<Entry>, content: seq<byte>): seq<byte>
  {
    var table := EncodeTable(es, WIDTH1);
    ToLittleEndian(8 + |table|, 4) + ToLittleEndian(|es|, 4) + table + content
  }

  /** data holds a version 1 header for es, then their table, then the contents region at base, up to its end. */
  predicate LaidOut(data: seq<byte>, es: seq<Entry>, content: seq<byte>, base: nat)
  {
    && HeaderAt(data, 0) == Parsed(Header(base, |es|), 8)
    && At(data, 8, EncodeTable(es, WIDTH1)) && base == 8 + |EncodeTable(es, WIDTH1)|
    && At(data, base, content) && base + |content| < U32
  }

  /** An encoded header is read back as itself. */
  lemma {:induction false} HeaderRoundTrip(data: seq<byte>, pos: nat, h: Header)
    requires 8 <= h.contentOffset < U32 && 1 <= h.entriesCount < U32
    requires At(data, pos, ToLittleEndian(h.contentOffset, 4) + ToLittleEndian(h.entriesCount, 4))
    ensures HeaderAt(data, pos) == Parsed(h, pos + 8)
  {
    FieldCapacities();
    AtSplit(data, pos, ToLittleEndian(h.contentOffset, 4), ToLittleEndian(h.entriesCount, 4));
    ReadFixedRoundTrip(data, pos, h.contentOffset, 4);
    ReadFixedRoundTrip(data, pos + 4, h.entriesCount, 4);
  }

  /** A header for es at 0, their table at 8 and the contents region right after it make data laid out. */
  lemma {:induction false} LaidOutFromParts(data: seq<byte>, es: seq<Entry>, content: seq<byte>, base: nat)
    requires 1 <= |es| && base == 8 + |EncodeTable(es, WIDTH1)| && base + |content| < U32
    requires At(data, 0, ToLittleEndian(base, 4) + ToLittleEndian(|es|, 4))
    requires At(data, 8, EncodeTable(es, WIDTH1)) && At(data, base, content)
    ensures LaidOut(data, es, content, base)
  {
    EncodeTableLength(es, WIDTH1);
    HeaderRoundTrip(data, 0, Header(base, |es|));
  }

  /** An Archive1 is laid out as its header, its table and its contents region. */
  lemma {:induction false} Archive1LaidOut(data: seq<byte>, es: seq<Entry>, content: seq<byte>)
    requires data == Archive1(es, content)
    requires 1 <= |es| && 8 + |EncodeTable(es, WIDTH1)| + |content| < U32
    ensures LaidOut(data, es, content, 8 + |EncodeTable(es, WIDTH1)|)
  {
    var table := EncodeTable(es, WIDTH1);
    var head := ToLittleEndian(8 + |table|, 4) + ToLittleEndian(|es|, 4);
    AtParts(head, table, content);
    LaidOutFromParts(data, es, content, 8 + |table|);
  }

  /** Once the header is read and the table ends at its contentOffset, a run is the extraction loop. */
  lemma {:induction false} Run1Extracts(data: seq<byte>, start: nat, h: Header, io: nat -> Io)
    requires HeaderAt(data, start) == Parsed(h, start + 8)
    requires TableAt(data, start + 8, WIDTH1, h.entriesCount).end == h.contentOffset
    ensures var table := TableAt(data, start + 8, WIDTH1, h.entriesCount);
      Run1(data, start, io) == ExtractFrom(data, Version1, h.contentOffset, table.entries, io, 0, h.entriesCount, h.contentOffset)
  {
  }

  /** On data laid out for es, a version 1 run is the extraction loop over exactly es. */
  lemma {:induction false} Run1OfLaidOut(data: seq<byte>, es: seq<Entry>, content: seq<byte>, base: nat, io: nat -> Io)
    requires WellPlaced(es, content, WIDTH1) && LaidOut(data, es, content, base)
    ensures Run1(data, 0, io) == ExtractFrom(data, Version1, base, es, io, 0, |es|, base)
  {
    assert forall e <- es :: Encodable(e, WIDTH1);
    TableRoundTrip(data, 8, es, WIDTH1);
    Run1Extracts(data, 0, Header(base, |es|), io);
  }

  /**
   * Any data laid out as a version 1 archive of es extracts to the expected
   * effects when the filesystem accepts every directory and file.
   */
  lemma {:induction false} Version1Runs(data: seq<byte>, es: seq<Entry>, content: seq<byte>, base: nat, io: nat -> Io)
    requires WellPlaced(es, content, WIDTH1) && LaidOut(data, es, content, base) && Accepts(es, io)
    ensures var r := Run1(data, 0, io);
      r.status == Success && r.effects == Expected(es, content)
  {
    Run1OfLaidOut(data, es, content, base, io);
    PlacedExtractsExpected(data, Version1, base, es, content, WIDTH1, io);
  }

  /** A one-entry example archive: a/b.txt, 5 bytes at offset 0 of the contents region. */
  lemma {:induction false} Version1Example()
    ensures var name := [97, 47, 98, 46, 116, 120, 116];
      var r := Run1(Archive1([Entry(name, 5, 0)], [1, 2, 3, 4, 5]), 0, _ => Io(true, true, 5));
      r.status == Success && r.effects == [MakeParents(name), WriteFile(name, [1, 2, 3, 4, 5])]
  {
    var name: seq<byte> := [97, 47, 98, 46, 116, 120, 116];
    var content: seq<byte> := [1, 2, 3, 4, 5];
    var es := [Entry(name, 5, 0)];
    FieldCapacities();
    assert |EncodeTable(es, WIDTH1)| == 19 by {
      assert EncodeTable(es[1..], WIDTH1) == [];
    }
    var io := _ => Io(true, true, 5);
    var data := Archive1(es, content);
    Archive1LaidOut(data, es, content);
    Version1Runs(data, es, content, 27, io);
    assert Expected(es, content) == [MakeParents(name), WriteFile(name, content)] by {
      assert Content(content, 0, 5) == content;
      assert Expected(es[1..], content) == [];
    }
  }

  /**
   * A version 1 archive cut short before its contents region. A cut in the
   * header is a truncation. A cut in the table is not fatal by itself: the
   * loop drops the entry it falls in and the rest, the cursor is at the end
   * of data, and the run fails the position check there, with no effect.
   */
  lemma {:induction false} Run1Cut(es: seq<Entry>, content: seq<byte>, k: nat, io: nat -> Io)
    requires forall e <- es :: Encodable(e, WIDTH1)
    requires 1 <= |es| && 8 + |EncodeTable(es, WIDTH1)| + |content| < U32
    requires k < 8 + |EncodeTable(es, WIDTH1)|
    ensures Run1(Archive1(es, content)[..k], 0, io)
      == Run([], Failure(if k < 8 then Truncated else PositionMismatch), k)
  {
    var full, table := Archive1(es, content), EncodeTable(es, WIDTH1);
    var head := ToLittleEndian(8 + |table|, 4) + ToLittleEndian(|es|, 4);
    var data := full[..k];
    if k >= 8 {
      AtParts(head, table, content);
      EncodeTableLength(es, WIDTH1);
      PrefixAt(full, k, 0, head);
      HeaderRoundTrip(data, 0, Header(8 + |table|, |es|));
      PrefixCut(full, k, 8, table);
      TableCut(data, 8, es, WIDTH1);
    }
  }
}
