/**
 * The extraction loop that ends both extractVersion1 (src/version1.cpp) and
 * extractVersion2 (src/version2.cpp): for each of the header's entriesCount
 * entries, create the parent directories of its name, seek to the content
 * base plus its offset, read its bytes and write them to a new file.
 *
 * The output side is abstract. What the filesystem does is a parameter
 * io: nat -> Io, giving for entry i whether create_directories succeeds,
 * whether fopen succeeds, and how many bytes fwrite reports; what the loop
 * does to the filesystem is the list of effects it returns.
 */
module Extraction {
  import opened Bytes
  import opened Reader
  import opened Entries

  const U32: nat := 0x1_0000_0000
  const U64: nat := 0x1_0000_0000_0000_0000
  /** The first value a 64-bit signed long cannot hold. */
  const LONG_LIMIT: nat := 0x8000_0000_0000_0000

  /** Which extract function runs the loop; they differ only in the seek arithmetic. */
  datatype Layout = Version1 | Version2

  /** What the filesystem answers for one entry: create_directories, fopen, and fwrite's count. */
  datatype Io = Io(parentsMade: bool, created: bool, written: nat)

  /** What the loop does to the filesystem. */
  datatype Effect =
    | MakeParents(path: seq<byte>)                       // create_directories(path(name).parent_path())
    | WriteFile(path: seq<byte>, contents: seq<byte>)    // fopen "wb", fwrite, fclose

  datatype Status = Success | Failure(fault: Fault)

  /** Effects in order, how the run ended, and where the archive cursor was left. */
  datatype Run = Run(effects: seq<Effect>, status: Status, end: nat)

  /**
   * The argument of fseek. Version 1 adds two uint32_t values, which wraps
   * modulo 2^32. Version 2 adds a size_t and a uint64_t, which wraps modulo
   * 2^64, and casts the sum to long, which is negative from 2^63 on.
   */
  function SeekTarget(layout: Layout, base: nat, offset: nat): (t: int)
    ensures layout == Version1 ==> 0 <= t < U32
    ensures layout == Version2 ==> -(LONG_LIMIT as int) <= t < LONG_LIMIT
    ensures layout == Version1 && base + offset < U32 ==> t == base + offset
    ensures layout == Version2 && base + offset < LONG_LIMIT ==> t == base + offset
  {
    match layout
    case Version1 => (base + offset) % U32
    case Version2 =>
      var sum := (base + offset) % U64;
      if sum < LONG_LIMIT then sum else sum - U64
  }

  /** Below this bound a seek target is exactly the sum of the base and the offset. */
  function Reach(layout: Layout): (n: nat)
    ensures forall base: nat, offset: nat | base + offset < n :: SeekTarget(layout, base, offset) == base + offset
  {
    if layout == Version1 then U32 else LONG_LIMIT
  }

  /** The seek for e, if the loop makes one, lands on a real position. */
  predicate SeekLands(layout: Layout, base: nat, e: Entry)
  {
    e.filename == [] || e.size == 0 || SeekTarget(layout, base, e.offset) >= 0
  }

  /** The e.size bytes at the seek target are all inside the archive. */
  predicate Readable(data: seq<byte>, layout: Layout, base: nat, e: Entry)
  {
    var t := SeekTarget(layout, base, e.offset);
    t >= 0 && t + e.size <= |data|
  }

  /** Everything entry e needs for its turn of the loop to succeed. */
  predicate Works(data: seq<byte>, layout: Layout, base: nat, e: Entry, io: Io)
  {
    || e.filename == []
    || (io.parentsMade && (e.size == 0 || (Readable(data, layout, base, e) && io.created && io.written >= e.size)))
  }

  /** One turn of the extraction loop for entry e, with the archive cursor at pos. */
  function ExtractOne(data: seq<byte>, layout: Layout, base: nat, e: Entry, io: Io, pos: nat): (r: Run)
    ensures e.filename == [] ==> r == Run([], Success, pos)
    ensures r.status.Failure? ==> r.status.fault in {CannotMakeParents, Truncated, CannotCreate, ShortWrite}
  {
    if e.filename == [] then Run([], Success, pos)
    else if !io.parentsMade then Run([], Failure(CannotMakeParents), pos)
    else if e.size == 0 then Run([MakeParents(e.filename)], Success, pos)
    else
      var at := Seek(pos, SeekTarget(layout, base, e.offset));
      match ReadSpan(data, at, e.size)
      case Failed(f, p) => Run([MakeParents(e.filename)], Failure(f), p)
      case Parsed(bytes, p) =>
        if !io.created then Run([MakeParents(e.filename)], Failure(CannotCreate), p)
        else
          var w := if io.written < e.size then io.written else e.size;
          Run([MakeParents(e.filename), WriteFile(e.filename, bytes[..w])],
              if w == e.size then Success else Failure(ShortWrite), p)
  }

  /**
   * What one turn does to the filesystem: nothing for an unnamed entry;
   * otherwise first the parent directories of its name, then at most one file
   * of that name, whose contents are a prefix of the entry's bytes at the seek
   * target, and complete exactly when the turn succeeds. A zero-size entry
   * leaves the cursor where it was.
   */
  lemma {:induction false} ExtractOneEffects(data: seq<byte>, layout: Layout, base: nat, e: Entry, io: Io, pos: nat)
    ensures var r := ExtractOne(data, layout, base, e, io, pos);
      && (e.size == 0 ==> r.end == pos)
      && (forall k | 0 <= k < |r.effects| :: r.effects[k].path == e.filename)
      && (r.effects != [] ==> r.effects[0] == MakeParents(e.filename))
      && |r.effects| <= 2 && (|r.effects| == 2 ==> r.effects[1].WriteFile?)
      && (|r.effects| == 2 ==>
        var t := Seek(pos, SeekTarget(layout, base, e.offset));
        var c := r.effects[1].contents;
        && t + e.size <= |data| && |c| <= e.size && c == data[t..t + |c|]
        && (r.status == Success <==> |c| == e.size))
  {
  }

  /** Where its seek lands, a turn succeeds exactly when the entry Works. */
  lemma {:induction false} ExtractOneSucceeds(data: seq<byte>, layout: Layout, base: nat, e: Entry, io: Io, pos: nat)
    requires SeekLands(layout, base, e)
    ensures ExtractOne(data, layout, base, e, io, pos).status == Success <==> Works(data, layout, base, e, io)
  {
  }

  /**
   * The loop from entry i on, up to the header's count. entries[i] past the
   * kept entries is undefined behaviour in the source; the model stops there.
   */
  function ExtractFrom(data: seq<byte>, layout: Layout, base: nat, entries: seq<Entry>, io: nat -> Io,
                       i: nat, count: nat, pos: nat): (r: Run)
    ensures r.status.Failure? ==> r.status.fault in {EntryMissing, CannotMakeParents, Truncated, CannotCreate, ShortWrite}
    decreases count - i
  {
    if i >= count then Run([], Success, pos)
    else if i >= |entries| then Run([], Failure(EntryMissing), pos)
    else
      var one := ExtractOne(data, layout, base, entries[i], io(i), pos);
      if one.status.Failure? then one
      else
        var rest := ExtractFrom(data, layout, base, entries, io, i + 1, count, one.end);
        Run(one.effects + rest.effects, rest.status, rest.end)
  }

  /** One turn of the extraction loop, for entry e: false where the source returns false. */
  method ExtractEntry(f: Stream, layout: Layout, base: nat, e: Entry, io: Io) returns (ok: bool, effects: seq<Effect>)
    modifies f
    ensures var r := ExtractOne(f.data, layout, base, e, io, old(f.pos));
      ok == r.status.Success? && effects == r.effects && f.pos == r.end
  {
    ok, effects := true, [];
    if e.filename == [] {
      return;
    }
    if !io.parentsMade {
      return false, effects;
    }
    effects := [MakeParents(e.filename)];
    if e.size == 0 {
      return;
    }
    f.SeekTo(SeekTarget(layout, base, e.offset));
    var read, bytes := f.ReadBytes(e.size);
    if !read || !io.created {
      return false, effects;
    }
    var w := if io.written < e.size then io.written else e.size;
    effects := effects + [WriteFile(e.filename, bytes[..w])];
    ok := w == e.size;
  }

  /** The extraction loop: entriesCount turns, stopping at the first failure. */
  method ExtractEntries(f: Stream, layout: Layout, base: nat, entries: seq<Entry>, count: nat, io: nat -> Io)
    returns (ok: bool, effects: seq<Effect>)
    modifies f
    ensures var r := ExtractFrom(f.data, layout, base, entries, io, 0, count, old(f.pos));
      ok == r.status.Success? && effects == r.effects && f.pos == r.end
  {
    ghost var whole := ExtractFrom(f.data, layout, base, entries, io, 0, count, f.pos);
    effects := [];
    var i := 0;
    while i < count
      invariant i <= count
      invariant var rest := ExtractFrom(f.data, layout, base, entries, io, i, count, f.pos);
        whole == Run(effects + rest.effects, rest.status, rest.end)
    {
      if i >= |entries| {
        return false, effects;
      }
      ghost var done := effects;
      var entryOk, produced := ExtractEntry(f, layout, base, entries[i], io(i));
      effects := effects + produced;
      if !entryOk {
        return false, effects;
      }
      ghost var rest := ExtractFrom(f.data, layout, base, entries, io, i + 1, count, f.pos);
      assert effects + rest.effects == done + (produced + rest.effects);
      i := i + 1;
    }
    ok := true;
  }

  /** The n archive bytes at t (empty where they are not all there). */
  function Content(data: seq<byte>, t: int, n: nat): seq<byte>
  {
    if 0 <= t && t + n <= |data| then data[t..t + n] else []
  }

  /**
   * What entry e does when its turn succeeds: nothing if it has no name;
   * otherwise its parent directories, then, unless it is empty, a file holding
   * exactly its bytes of the archive.
   */
  function Intended(data: seq<byte>, layout: Layout, base: nat, e: Entry): seq<Effect>
  {
    if e.filename == [] then []
    else if e.size == 0 then [MakeParents(e.filename)]
    else [MakeParents(e.filename), WriteFile(e.filename, Content(data, SeekTarget(layout, base, e.offset), e.size))]
  }

  /** What a run over entries i up to j does when every one of them succeeds. */
  function Planned(data: seq<byte>, layout: Layout, base: nat, entries: seq<Entry>, i: nat, j: nat): seq<Effect>
    requires i <= j <= |entries|
    decreases j - i
  {
    if i == j then [] else Intended(data, layout, base, entries[i]) + Planned(data, layout, base, entries, i + 1, j)
  }

  /** An entry that Works succeeds, doing what was intended for it. */
  lemma {:induction false} WorksAsIntended(data: seq<byte>, layout: Layout, base: nat, e: Entry, io: Io, pos: nat)
    requires Works(data, layout, base, e, io)
    ensures var r := ExtractOne(data, layout, base, e, io, pos);
      r.status == Success && r.effects == Intended(data, layout, base, e)
  {
    if e.filename != [] && e.size > 0 {
      var t := SeekTarget(layout, base, e.offset);
      assert ExtractOne(data, layout, base, e, io, pos).effects[1] == WriteFile(e.filename, Content(data, t, e.size));
    }
  }

  /** No effect names an empty path, and every file write comes right after the parent directories of its path. */
  ghost predicate Ordered(effects: seq<Effect>)
  {
    forall k | 0 <= k < |effects| :: OrderedAt(effects, k)
  }

  /** Effect k names a path, and if it writes a file, effect k - 1 made that file's parent directories. */
  ghost predicate OrderedAt(effects: seq<Effect>, k: nat)
    requires k < |effects|
  {
    && effects[k].path != []
    && (effects[k].WriteFile? ==> 0 < k && effects[k - 1] == MakeParents(effects[k].path))
  }

  /** Every run is Ordered: directories for an entry are made before its file is written, and unnamed entries leave no trace. */
  lemma {:induction false} ExtractOrdered(data: seq<byte>, layout: Layout, base: nat, entries: seq<Entry>, io: nat -> Io,
                                          i: nat, count: nat, pos: nat)
    ensures Ordered(ExtractFrom(data, layout, base, entries, io, i, count, pos).effects)
    decreases count - i
  {
    if i < count && i < |entries| {
      var one := ExtractOne(data, layout, base, entries[i], io(i), pos);
      ExtractOneEffects(data, layout, base, entries[i], io(i), pos);
      if one.status.Success? {
        var rest := ExtractFrom(data, layout, base, entries, io, i + 1, count, one.end);
        ExtractOrdered(data, layout, base, entries, io, i + 1, count, one.end);
        var all := one.effects + rest.effects;
        forall k | 0 <= k < |all|
          ensures OrderedAt(all, k)
        {
          var n := |one.effects|;
          if k >= n {
            assert OrderedAt(rest.effects, k - n);
            assert all[k] == rest.effects[k - n];
            if k > n {
              assert all[k - 1] == rest.effects[k - 1 - n];
            }
          } else {
            assert all[k] == one.effects[k];
            if k > 0 {
              assert all[k - 1] == one.effects[k - 1];
            }
          }
        }
      }
    }
  }

  /** Where the seek lands, the cursor the entry starts from does not change what it does. */
  lemma {:induction false} ExtractOneFromAnywhere(data: seq<byte>, layout: Layout, base: nat, e: Entry, io: Io, p: nat, q: nat)
    requires SeekLands(layout, base, e)
    ensures ExtractOne(data, layout, base, e, io, p).effects == ExtractOne(data, layout, base, e, io, q).effects
    ensures ExtractOne(data, layout, base, e, io, p).status == ExtractOne(data, layout, base, e, io, q).status
  {
  }

  /** When every entry up to count works, the run succeeds and does exactly what Planned says. */
  lemma {:induction false} ExtractAllWork(data: seq<byte>, layout: Layout, base: nat, entries: seq<Entry>, io: nat -> Io,
                                          i: nat, count: nat, pos: nat)
    requires i <= count <= |entries|
    requires forall j | i <= j < count :: Works(data, layout, base, entries[j], io(j))
    ensures var r := ExtractFrom(data, layout, base, entries, io, i, count, pos);
      r.status == Success && r.effects == Planned(data, layout, base, entries, i, count)
    decreases count - i
  {
    if i < count {
      var one := ExtractOne(data, layout, base, entries[i], io(i), pos);
      ExtractFromWorks(data, layout, base, entries, io, i, count, pos);
      ExtractAllWork(data, layout, base, entries, io, i + 1, count, one.end);
    }
  }

  /**
   * The loop succeeds exactly when every one of the count entries exists and
   * works; a single entry that does not is enough to make it fail.
   */
  lemma {:induction false} ExtractSucceeds(data: seq<byte>, layout: Layout, base: nat, entries: seq<Entry>, io: nat -> Io,
                                           i: nat, count: nat, pos: nat)
    requires forall j | i <= j < count && j < |entries| :: SeekLands(layout, base, entries[j])
    ensures ExtractFrom(data, layout, base, entries, io, i, count, pos).status == Success
      <==> forall j | i <= j < count :: WorksAt(data, layout, base, entries, io, j)
    decreases count - i
  {
    if i < count && i < |entries| {
      var one := ExtractOne(data, layout, base, entries[i], io(i), pos);
      ExtractSucceeds(data, layout, base, entries, io, i + 1, count, one.end);
      assert SeekLands(layout, base, entries[i]);
      assert one.status == Success <==> WorksAt(data, layout, base, entries, io, i);
      if forall j | i <= j < count :: WorksAt(data, layout, base, entries, io, j) {
        assert WorksAt(data, layout, base, entries, io, i);
      }
    } else if i < count {
      assert !WorksAt(data, layout, base, entries, io, i);
    }
  }

  /** Entry j exists and works. */
  predicate WorksAt(data: seq<byte>, layout: Layout, base: nat, entries: seq<Entry>, io: nat -> Io, j: nat)
  {
    j < |entries| && Works(data, layout, base, entries[j], io(j))
  }

  /**
   * The situation of a run that stops at entry j: entries i..j-1 exist and
   * work, entry j exists, its seek lands, and it does not work.
   */
  predicate StopsAt(data: seq<byte>, layout: Layout, base: nat, entries: seq<Entry>, io: nat -> Io, i: nat, j: nat, count: nat)
  {
    && i <= j < count && j < |entries|
    && (forall k | i <= k < j :: Works(data, layout, base, entries[k], io(k)))
    && SeekLands(layout, base, entries[j]) && !Works(data, layout, base, entries[j], io(j))
  }

  /** A failure stops the loop: the run fails with the fault of the first entry that does not work. */
  lemma {:induction false} ExtractStopsAt(data: seq<byte>, layout: Layout, base: nat, entries: seq<Entry>, io: nat -> Io,
                                          i: nat, j: nat, count: nat, pos: nat)
    requires StopsAt(data, layout, base, entries, io, i, j, count)
    ensures var r := ExtractFrom(data, layout, base, entries, io, i, count, pos);
      var stop := ExtractOne(data, layout, base, entries[j], io(j), pos);
      r.status == stop.status && r.status.Failure?
    decreases j - i
  {
    if i < j {
      var next := ExtractOne(data, layout, base, entries[i], io(i), pos).end;
      ExtractFromWorks(data, layout, base, entries, io, i, count, pos);
      ExtractStopsAt(data, layout, base, entries, io, i + 1, j, count, next);
      ExtractOneFromAnywhere(data, layout, base, entries[j], io(j), pos, next);
    } else {
      ExtractFromFails(data, layout, base, entries, io, i, count, pos);
    }
  }

  /**
   * What a stopped run leaves behind: the effects planned for entries i..j-1,
   * then what entry j did before failing; no later entry is touched.
   */
  lemma {:induction false} ExtractStopsAtEffects(data: seq<byte>, layout: Layout, base: nat, entries: seq<Entry>, io: nat -> Io,
                                                 i: nat, j: nat, count: nat, pos: nat)
    requires StopsAt(data, layout, base, entries, io, i, j, count)
    ensures ExtractFrom(data, layout, base, entries, io, i, count, pos).effects
      == Planned(data, layout, base, entries, i, j) + ExtractOne(data, layout, base, entries[j], io(j), pos).effects
    decreases j - i
  {
    if i < j {
      var next := ExtractOne(data, layout, base, entries[i], io(i), pos).end;
      ExtractFromWorks(data, layout, base, entries, io, i, count, pos);
      ExtractStopsAtEffects(data, layout, base, entries, io, i + 1, j, count, next);
      ExtractOneFromAnywhere(data, layout, base, entries[j], io(j), pos, next);
      var mine, later := Intended(data, layout, base, entries[i]), Planned(data, layout, base, entries, i + 1, j);
      var stop := ExtractOne(data, layout, base, entries[j], io(j), pos).effects;
      assert mine + (later + stop) == (mine + later) + stop;
    } else {
      ExtractFromFails(data, layout, base, entries, io, i, count, pos);
    }
  }

  /** A turn whose entry works does what was intended for it and goes on to the next entry. */
  lemma {:induction false} ExtractFromWorks(data: seq<byte>, layout: Layout, base: nat, entries: seq<Entry>, io: nat -> Io,
                         i: nat, count: nat, pos: nat)
    requires i < count && i < |entries| && Works(data, layout, base, entries[i], io(i))
    ensures var one := ExtractOne(data, layout, base, entries[i], io(i), pos);
      var rest := ExtractFrom(data, layout, base, entries, io, i + 1, count, one.end);
      && one.effects == Intended(data, layout, base, entries[i])
      && ExtractFrom(data, layout, base, entries, io, i, count, pos) == Run(one.effects + rest.effects, rest.status, rest.end)
  {
    WorksAsIntended(data, layout, base, entries[i], io(i), pos);
  }

  /** A turn whose entry does not work ends the run with that turn's outcome. */
  lemma {:induction false} ExtractFromFails(data: seq<byte>, layout: Layout, base: nat, entries: seq<Entry>, io: nat -> Io,
                         i: nat, count: nat, pos: nat)
    requires i < count && i < |entries|
    requires SeekLands(layout, base, entries[i]) && !Works(data, layout, base, entries[i], io(i))
    ensures var one := ExtractOne(data, layout, base, entries[i], io(i), pos);
      one.status.Failure? && ExtractFrom(data, layout, base, entries, io, i, count, pos) == one
  {
    ExtractOneSucceeds(data, layout, base, entries[i], io(i), pos);
  }

  /** When the count runs past the entries kept, and those all work, the run fails on the first missing one. */
  lemma {:induction false} ExtractMissing(data: seq<byte>, layout: Layout, base: nat, entries: seq<Entry>, io: nat -> Io,
                                          i: nat, count: nat, pos: nat)
    requires i <= |entries| < count
    requires forall k | i <= k < |entries| :: Works(data, layout, base, entries[k], io(k))
    ensures var r := ExtractFrom(data, layout, base, entries, io, i, count, pos);
      r.status == Failure(EntryMissing) && r.effects == Planned(data, layout, base, entries, i, |entries|)
    decreases |entries| - i
  {
    if i < |entries| {
      var one := ExtractOne(data, layout, base, entries[i], io(i), pos);
      ExtractFromWorks(data, layout, base, entries, io, i, count, pos);
      ExtractMissing(data, layout, base, entries, io, i + 1, count, one.end);
    }
  }

  /**
   * What extracting es should produce from a contents region, independently
   * of where that region sits in the archive: for each named entry, its parent
   * directories, then (unless it is empty) a file holding its size bytes from
   * its offset in the region.
   */
  function Expected(es: seq<Entry>, content: seq<byte>): seq<Effect>
  {
    if es == [] then []
    else
      var e := es[0];
      var own :=
        if e.filename == [] then []
        else if e.size == 0 then [MakeParents(e.filename)]
        else [MakeParents(e.filename), WriteFile(e.filename, Content(content, e.offset, e.size))];
      own + Expected(es[1..], content)
  }

  /** With the contents region at base and every seek landing at base + offset, the plan is the expected one. */
  lemma {:induction false} PlannedIsExpected(data: seq<byte>, layout: Layout, base: nat, es: seq<Entry>, content: seq<byte>, i: nat)
    requires i <= |es| && At(data, base, content)
    requires forall e <- es :: e.offset + e.size <= |content| && SeekTarget(layout, base, e.offset) == base + e.offset
    ensures Planned(data, layout, base, es, i, |es|) == Expected(es[i..], content)
    decreases |es| - i
  {
    if i < |es| {
      var e := es[i];
      assert e in es;
      PlannedIsExpected(data, layout, base, es, content, i + 1);
      ContentWithin(data, base, content, e.offset, e.size);
      assert es[i..][0] == e && es[i..][1..] == es[i + 1..];
    }
  }

  /**
   * A run over es in which every entry works, with the contents region at
   * base and every seek landing at base + offset, does what Expected says.
   */
  lemma {:induction false} ExtractExpected(data: seq<byte>, layout: Layout, base: nat, es: seq<Entry>, content: seq<byte>, io: nat -> Io)
    requires At(data, base, content)
    requires forall e <- es :: e.offset + e.size <= |content| && SeekTarget(layout, base, e.offset) == base + e.offset
    requires forall j | 0 <= j < |es| :: Works(data, layout, base, es[j], io(j))
    ensures var r := ExtractFrom(data, layout, base, es, io, 0, |es|, base);
      r.status == Success && r.effects == Expected(es, content)
  {
    ExtractAllWork(data, layout, base, es, io, 0, |es|, base);
    PlannedIsExpected(data, layout, base, es, content, 0);
    assert es[0..] == es;
  }

  /** Bytes of a region found at base are the archive's bytes at base plus their offset. */
  lemma {:induction false} ContentWithin(data: seq<byte>, base: nat, content: seq<byte>, offset: nat, size: nat)
    requires At(data, base, content) && offset + size <= |content|
    ensures Content(data, base + offset, size) == Content(content, offset, size)
  {
    var region := data[base..base + |content|];
    assert content == region;
    var mine, theirs := content[offset..offset + size], data[base + offset..base + offset + size];
    forall k | 0 <= k < size
      ensures mine[k] == theirs[k]
    {
      assert region[offset + k] == data[base + offset + k];
    }
  }

  /** The entries a round trip is stated for: encodable in fields of width bytes, and inside the contents region. */
  predicate WellPlaced(es: seq<Entry>, content: seq<byte>, width: nat)
  {
    forall e <- es :: Encodable(e, width) && e.offset + e.size <= |content|
  }

  /** A filesystem that creates every directory and file and writes every byte asked of it, for entries es. */
  predicate Accepts(es: seq<Entry>, io: nat -> Io)
  {
    forall j | 0 <= j < |es| :: io(j).parentsMade && io(j).created && io(j).written >= es[j].size
  }

  /** Every entry placed inside a contents region within reach works on an accepting filesystem. */
  lemma {:induction false} AllWork(data: seq<byte>, layout: Layout, base: nat, es: seq<Entry>, content: seq<byte>, width: nat, io: nat -> Io)
    requires WellPlaced(es, content, width) && At(data, base, content) && base + |content| < Reach(layout) && Accepts(es, io)
    ensures forall j | 0 <= j < |es| :: Works(data, layout, base, es[j], io(j))
  {
    forall j | 0 <= j < |es|
      ensures Works(data, layout, base, es[j], io(j))
    {
      assert es[j] in es;
    }
  }

  /**
   * A contents region within reach holding every entry, on a filesystem that
   * accepts them all: the loop over exactly those entries does what Expected says.
   */
  lemma {:induction false} PlacedExtractsExpected(data: seq<byte>, layout: Layout, base: nat, es: seq<Entry>, content: seq<byte>, width: nat, io: nat -> Io)
    requires WellPlaced(es, content, width) && At(data, base, content) && base + |content| < Reach(layout) && Accepts(es, io)
    ensures var r := ExtractFrom(data, layout, base, es, io, 0, |es|, base);
      r.status == Success && r.effects == Expected(es, content)
  {
    AllWork(data, layout, base, es, content, width, io);
    assert forall e <- es :: e.offset + e.size <= |content| && SeekTarget(layout, base, e.offset) == base + e.offset;
    ExtractExpected(data, layout, base, es, content, io);
  }
}
