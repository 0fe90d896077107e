/**
 * The binary reader of src/utils.h: fixed-width reads (readType) and
 * exact-length span reads (readBytes) from a sequential stream, and the
 * stream itself, a byte string with a cursor.
 */
module Reader {
  import opened Bytes

  /** Capacity of the stack buffer every name is read into; a name length must be strictly below it. */
  const BUFFER_SIZE: nat := 1024

  /** Every condition the extractor reports on stderr before giving up on an item or a run. */
  datatype Fault =
    | Truncated          // fewer bytes left than a field or a payload needs
    | NameTooLong        // a declared name length of BUFFER_SIZE or more
    | BadHeader          // the header's sentinel or count checks fail
    | PositionMismatch   // version 1: the cursor after the table is not contentOffset
    | EntryMissing       // entries[i] indexed past the entries actually kept
    | CannotMakeParents  // creating the parent directories of a name failed
    | CannotCreate       // the output file could not be opened
    | ShortWrite         // fewer bytes written than the entry's size

  /** The outcome of one read: a value and the cursor after it, or a fault and where the cursor was left. */
  datatype Read<T> = Parsed(value: T, next: nat) | Failed(fault: Fault, next: nat)

  /** Bytes left between the cursor and the end of data (none once the cursor is at or past the end). */
  function Remaining(data: seq<byte>, pos: nat): nat
  {
    if pos <= |data| then |data| - pos else 0
  }

  /** Where a short fread leaves the cursor: it consumed whatever was left. */
  function Exhausted(data: seq<byte>, pos: nat): (p: nat)
    ensures p >= pos && Remaining(data, p) == 0
  {
    if pos <= |data| then |data| else pos
  }

  /** block occurs in data starting at pos. */
  predicate At(data: seq<byte>, pos: nat, block: seq<byte>)
  {
    pos + |block| <= |data| && data[pos..pos + |block|] == block
  }

  /** readType: read a width-byte unsigned integer (width is sizeof(T), never 0 in C++). */
  function ReadFixed(data: seq<byte>, pos: nat, width: nat): (r: Read<nat>)
    requires width > 0
    ensures r.Parsed? <==> width <= Remaining(data, pos)
    ensures r.Parsed? ==> r.next == pos + width && r.value < Pow256(width)
    ensures r.Parsed? ==> r.value == LittleEndian(data[pos..pos + width])
    ensures r.Failed? ==> r.fault == Truncated && r.next == Exhausted(data, pos)
  {
    if pos + width <= |data| then Parsed(LittleEndian(data[pos..pos + width]), pos + width)
    else Failed(Truncated, Exhausted(data, pos))
  }

  /** readBytes: read exactly n bytes. */
  function ReadSpan(data: seq<byte>, pos: nat, n: nat): (r: Read<seq<byte>>)
    ensures r.Parsed? <==> n <= Remaining(data, pos)
    ensures r.Parsed? ==> r.next == pos + n && |r.value| == n
    ensures r.Parsed? && n > 0 ==> r.value == data[pos..pos + n]
    ensures n == 0 ==> r == Parsed([], pos)
    ensures r.Failed? ==> r.fault == Truncated && r.next == Exhausted(data, pos)
  {
    if n == 0 then Parsed([], pos)
    else if pos + n <= |data| then Parsed(data[pos..pos + n], pos + n)
    else Failed(Truncated, Exhausted(data, pos))
  }

  /** fseek with SEEK_SET: a negative target is refused and the cursor stays where it was. */
  function Seek(pos: nat, target: int): (p: nat)
    ensures target >= 0 ==> p == target
    ensures target < 0 ==> p == pos
  {
    if target >= 0 then target else pos
  }

  /** The archive as opened by fopen: its bytes and the FILE cursor. */
  class Stream {
    const data: seq<byte>
    var pos: nat

    constructor (data: seq<byte>, pos: nat)
      ensures this.data == data && this.pos == pos
    {
      this.data := data;
      this.pos := pos;
    }

    /** readType<T> with sizeof(T) == width. */
    method ReadType(width: nat) returns (ok: bool, value: nat)
      requires width > 0
      modifies this
      ensures ReadFixed(data, old(pos), width) == if ok then Parsed(value, pos) else Failed(Truncated, pos)
    {
      if pos + width <= |data| {
        ok, value := true, LittleEndian(data[pos..pos + width]);
        pos := pos + width;
      } else {
        ok, value := false, 0;
        pos := Exhausted(data, pos);
      }
    }

    /** readBytes into a buffer of n bytes. */
    method ReadBytes(n: nat) returns (ok: bool, bytes: seq<byte>)
      modifies this
      ensures ReadSpan(data, old(pos), n) == if ok then Parsed(bytes, pos) else Failed(Truncated, pos)
    {
      if n == 0 {
        ok, bytes := true, [];
      } else if pos + n <= |data| {
        ok, bytes := true, data[pos..pos + n];
        pos := pos + n;
      } else {
        ok, bytes := false, [];
        pos := Exhausted(data, pos);
      }
    }

    /** fseek(file, target, SEEK_SET). */
    method SeekTo(target: int)
      modifies this
      ensures pos == Seek(old(pos), target)
    {
      if target >= 0 {
        pos := target;
      }
    }
  }

  /** A field encoded little-endian at pos is read back as its value, and the cursor moves past it. */
  lemma {:induction false} ReadFixedRoundTrip(data: seq<byte>, pos: nat, v: nat, width: nat)
    requires width > 0 && v < Pow256(width) && At(data, pos, ToLittleEndian(v, width))
    ensures ReadFixed(data, pos, width) == Parsed(v, pos + width)
  {
    DecodeEncode(v, width);
  }

  /** A block found at pos is read back whole by a span read of its length. */
  lemma {:induction false} ReadSpanRoundTrip(data: seq<byte>, pos: nat, block: seq<byte>)
    requires At(data, pos, block)
    ensures ReadSpan(data, pos, |block|) == Parsed(block, pos + |block|)
  {
  }

  /**
   * After a failed read the cursor is at the end of data, so every later read
   * of a non-zero width fails too, and leaves the cursor where it is.
   */
  lemma {:induction false} FailureIsSticky(data: seq<byte>, pos: nat, width: nat, n: nat)
    requires (width > 0 && ReadFixed(data, pos, width).Failed?) || ReadSpan(data, pos, width).Failed?
    ensures var p := Exhausted(data, pos);
      && (n > 0 ==> ReadFixed(data, p, n) == Failed(Truncated, p))
      && (n > 0 ==> ReadSpan(data, p, n) == Failed(Truncated, p))
      && ReadSpan(data, p, 0) == Parsed([], p)
  {
  }

  /** Splitting a block found at pos: both halves are found, the second right after the first. */
  lemma {:induction false} AtSplit(data: seq<byte>, pos: nat, a: seq<byte>, b: seq<byte>)
    requires At(data, pos, a + b)
    ensures At(data, pos, a) && At(data, pos + |a|, b)
  {
    assert data[pos..pos + |a|] == (a + b)[..|a|];
    assert data[pos + |a|..pos + |a| + |b|] == (a + b)[|a|..];
  }

  /**
   * data ends inside block placed at pos: what is left of data from pos on is
   * a proper prefix of block, as when an archive is cut short.
   */
  predicate Cut(data: seq<byte>, pos: nat, block: seq<byte>)
  {
    pos <= |data| < pos + |block| && data[pos..] == block[..|data| - pos]
  }

  /** Where a cut falls in a + b: inside a, or after all of a and inside b. */
  lemma {:induction false} CutSplit(data: seq<byte>, pos: nat, a: seq<byte>, b: seq<byte>)
    requires Cut(data, pos, a + b)
    ensures |data| < pos + |a| ==> Cut(data, pos, a)
    ensures pos + |a| <= |data| ==> At(data, pos, a) && Cut(data, pos + |a|, b)
  {
    var m := |data| - pos;
    if m < |a| {
      assert (a + b)[..m] == a[..m];
    } else {
      assert data[pos..pos + |a|] == data[pos..][..|a|] == (a + b)[..m][..|a|] == a;
      assert data[pos + |a|..] == data[pos..][|a|..] == (a + b)[..m][|a|..] == b[..m - |a|];
    }
  }

  /** A block found in full before k is still found in full cut at k. */
  lemma {:induction false} PrefixAt(full: seq<byte>, k: nat, pos: nat, block: seq<byte>)
    requires At(full, pos, block) && pos + |block| <= k <= |full|
    ensures At(full[..k], pos, block)
  {
    assert full[..k][pos..pos + |block|] == full[pos..pos + |block|];
  }

  /** A block found in full across k is cut in full cut at k. */
  lemma {:induction false} PrefixCut(full: seq<byte>, k: nat, pos: nat, block: seq<byte>)
    requires At(full, pos, block) && pos <= k < pos + |block|
    ensures Cut(full[..k], pos, block)
  {
    assert full[..k][pos..] == full[pos..k] == full[pos..pos + |block|][..k - pos];
  }

  /** The three consecutive parts of a + b + c are found where they were put. */
  lemma {:induction false} AtParts(a: seq<byte>, b: seq<byte>, c: seq<byte>)
    ensures At(a + b + c, 0, a) && At(a + b + c, |a|, b) && At(a + b + c, |a| + |b|, c)
  {
    var data := a + b + c;
    assert data[0..|a|] == a;
    assert data[|a|..|a| + |b|] == b;
    assert data[|a| + |b|..|a| + |b| + |c|] == c;
  }
}
