/**
 * extractVersion2 (src/version2.cpp): the Hotline Miami 2 layout. The header
 * holds two sentinel fields and the entry count; the table is followed by a
 * two-level directory index, which is decoded only to move past it: the
 * contents region starts wherever the index ends.
 */
module Version2 {
  import opened Bytes
  import opened Reader
  import opened Entries
  import opened Extraction

  /** The state of an Index object: its name, its two flags and, for a root, the children it kept. */
  datatype Node = Node(name: seq<byte>, directory: bool, root: bool, files: seq<Node>)

  /** A freshly constructed Index: no name, neither directory nor root, no children. */
  const FRESH := Node([], false, false, [])

  /** Whether Index::read succeeded, the state it left the object in, and where it left the cursor. */
  datatype Outcome = Outcome(ok: bool, node: Node, next: nat)

  /** The nodes a loop of Index::read calls kept, and the cursor after the loop. */
  datatype Nodes = Nodes(nodes: seq<Node>, end: nat)

  /**
   * The header: u32 unknown1, u64 unknown2, u32 entriesCount; accepted when
   * both unknowns are 1 and there is at least one entry. Yields the count.
   */
  function Header2At(data: seq<byte>, pos: nat): (r: Read<nat>)
    ensures r.Parsed? ==> r.next == pos + 16 <= |data| && 1 <= r.value < U32
  {
    FieldCapacities();
    match ReadFixed(data, pos, 4)
    case Failed(f, p) => Failed(f, p)
    case Parsed(unknown1, p1) =>
      match ReadFixed(data, p1, 8)
      case Failed(f, p) => Failed(f, p)
      case Parsed(unknown2, p2) =>
        match ReadFixed(data, p2, 4)
        case Failed(f, p) => Failed(f, p)
        case Parsed(entriesCount, p3) =>
          if unknown1 != 1 || unknown2 != 1 || entriesCount < 1 then Failed(BadHeader, p3)
          else Parsed(entriesCount, p3)
  }

  /**
   * The name part of Index::read: a u32 length below BUFFER_SIZE, then that
   * many bytes, which replace current; a length of 0 reads nothing and keeps
   * current.
   */
  function NameAt(data: seq<byte>, pos: nat, current: seq<byte>): (r: Read<seq<byte>>)
    ensures r.next >= pos
    ensures r.Failed? ==> r.fault == Truncated || r.fault == NameTooLong
  {
    match ReadFixed(data, pos, 4)
    case Failed(f, p) => Failed(f, p)
    case Parsed(length, p1) =>
      if length >= BUFFER_SIZE then Failed(NameTooLong, p1)
      else if length == 0 then Parsed(current, p1)
      else
        match ReadSpan(data, p1, length)
        case Failed(f, p) => Failed(f, p)
        case Parsed(name, p2) => Parsed(name, p2)
  }

  /** Index::read(file, false) on an object in state before: the name, then the directory flag byte. */
  function ChildAt(data: seq<byte>, pos: nat, before: Node): (r: Outcome)
    ensures r.next >= pos && r.node.files == before.files
    ensures r.ok ==> !r.node.root
  {
    match NameAt(data, pos, before.name)
    case Failed(_, p) => Outcome(false, before, p)
    case Parsed(name, p) =>
      match ReadFixed(data, p, 1)
      case Failed(_, q) => Outcome(false, before.(name := name), q)
      case Parsed(dir, q) => Outcome(true, before.(name := name, directory := dir == 1, root := false), q)
  }

  /**
   * The children loop of a root: count calls of read(file, false) on one
   * reused object, starting in state current; each success pushes a copy of
   * the object's state.
   */
  function ChildrenAt(data: seq<byte>, pos: nat, count: nat, current: Node): (c: Nodes)
    ensures |c.nodes| <= count && c.end >= pos
    ensures forall k | 0 <= k < |c.nodes| :: !c.nodes[k].root && c.nodes[k].files == current.files
    decreases count
  {
    if count == 0 then Nodes([], pos)
    else
      var step := ChildAt(data, pos, current);
      var rest := ChildrenAt(data, step.next, count - 1, step.node);
      if step.ok then Nodes([step.node] + rest.nodes, rest.end) else rest
  }

  /**
   * Index::read(file, true) on an object in state before: the name; the
   * object becomes a root directory; then a u32 filesCount and the children
   * loop, with a fresh child object.
   */
  function RootAt(data: seq<byte>, pos: nat, before: Node): (r: Outcome)
    ensures r.next >= pos
  {
    match NameAt(data, pos, before.name)
    case Failed(_, p) => Outcome(false, before, p)
    case Parsed(name, p) =>
      var n := before.(name := name, directory := true, root := true);
      match ReadFixed(data, p, 4)
      case Failed(_, q) => Outcome(false, n, q)
      case Parsed(filesCount, q) =>
        var kids := ChildrenAt(data, q, filesCount, FRESH);
        Outcome(true, n.(files := n.files + kids.nodes), kids.end)
  }

  /** The index loop of extractVersion2: count roots, each read into a fresh object, kept when the read succeeds. */
  function RootsAt(data: seq<byte>, pos: nat, count: nat): (c: Nodes)
    ensures |c.nodes| <= count && c.end >= pos
    decreases count
  {
    if count == 0 then Nodes([], pos)
    else
      var r := RootAt(data, pos, FRESH);
      var rest := RootsAt(data, r.next, count - 1);
      if r.ok then Nodes([r.node] + rest.nodes, rest.end) else rest
  }

  /** An element of the directory index, as the source's Index struct. */
  class Index {
    var name: seq<byte>
    var directory: bool
    var root: bool
    var files: seq<Node>

    constructor ()
      ensures State() == FRESH
    {
      name, directory, root, files := [], false, false, [];
    }

    /** The object's fields as a value: what push_back copies. */
    function State(): Node
      reads this
    {
      Node(name, directory, root, files)
    }

    /** Index::read: fields are assigned as the stream advances, and stay assigned when a later read fails. */
    method Read(f: Stream, isroot: bool) returns (ok: bool)
      modifies this, f
      ensures var r := if isroot then RootAt(f.data, old(f.pos), old(State())) else ChildAt(f.data, old(f.pos), old(State()));
        ok == r.ok && State() == r.node && f.pos == r.next
      decreases if isroot then 3 else 0
    {
      var length;
      ok, length := f.ReadType(4);
      if !ok { return; }
      if length >= BUFFER_SIZE {
        return false;
      }
      if length > 0 {
        var bytes;
        ok, bytes := f.ReadBytes(length);
        if !ok { return; }
        name := bytes;
      }
      if isroot {
        directory, root := true, true;
        var filesCount;
        ok, filesCount := f.ReadType(4);
        if !ok { return; }
        ReadChildren(f, filesCount);
      } else {
        var dir;
        ok, dir := f.ReadType(1);
        if !ok { return; }
        directory := dir == 1;
        root := false;
      }
    }

    /** The loop of a root's read: one fileIndex object reused for every child, each success appended to files. */
    method ReadChildren(f: Stream, count: nat)
      modifies this, f
      ensures var kids := ChildrenAt(f.data, old(f.pos), count, FRESH);
        State() == old(State()).(files := old(files) + kids.nodes) && f.pos == kids.end
      decreases 2
    {
      ghost var whole := ChildrenAt(f.data, f.pos, count, FRESH);
      ghost var done := [];
      var fileIndex := new Index();
      var j := 0;
      while j < count
        invariant j <= count && fresh(fileIndex) && fileIndex != this
        invariant name == old(name) && directory == old(directory) && root == old(root)
        invariant files == old(files) + done
        invariant var rest := ChildrenAt(f.data, f.pos, count - j, fileIndex.State());
          whole == Nodes(done + rest.nodes, rest.end)
      {
        ghost var todo := ChildrenAt(f.data, f.pos, count - j, fileIndex.State());
        var read := fileIndex.ReadNext(f, count - j);
        var child := fileIndex.State();
        ghost var rest := ChildrenAt(f.data, f.pos, count - j - 1, child);
        if read {
          assert todo == Nodes([child] + rest.nodes, rest.end);
          assert done + ([child] + rest.nodes) == (done + [child]) + rest.nodes;
          done := done + [child];
          files := files + [child];
        } else {
          assert todo == rest;
        }
        j := j + 1;
      }
    }

    /** One turn of the children loop with n reads left: the child read, if kept, heads what the loop keeps. */
    method ReadNext(f: Stream, n: nat) returns (ok: bool)
      requires n > 0
      modifies this, f
      ensures var rest := ChildrenAt(f.data, f.pos, n - 1, State());
        ChildrenAt(f.data, old(f.pos), n, old(State())) == if ok then Nodes([State()] + rest.nodes, rest.end) else rest
      decreases 1
    {
      ok := Read(f, false);
    }
  }

  /** The index loop of extractVersion2 with n reads left: a fresh dirIndex, kept when its read succeeds. */
  method ReadRoot(f: Stream, n: nat) returns (ok: bool, node: Node)
    requires n > 0
    modifies f
    ensures var rest := RootsAt(f.data, f.pos, n - 1);
      RootsAt(f.data, old(f.pos), n) == if ok then Nodes([node] + rest.nodes, rest.end) else rest
  {
    var dirIndex := new Index();
    ok := dirIndex.Read(f, true);
    node := dirIndex.State();
  }

  /** The index loop of extractVersion2: indicesCount roots, the ones that decode pushed in order. */
  method ReadRoots(f: Stream, count: nat) returns (indices: seq<Node>)
    modifies f
    ensures RootsAt(f.data, old(f.pos), count) == Nodes(indices, f.pos)
  {
    ghost var whole := RootsAt(f.data, f.pos, count);
    indices := [];
    var i := 0;
    while i < count
      invariant i <= count
      invariant var rest := RootsAt(f.data, f.pos, count - i);
        whole == Nodes(indices + rest.nodes, rest.end)
    {
      var ok, node := ReadRoot(f, count - i);
      if ok {
        ghost var rest := RootsAt(f.data, f.pos, count - i - 1);
        assert indices + ([node] + rest.nodes) == (indices + [node]) + rest.nodes;
        indices := indices + [node];
      }
      i := i + 1;
    }
  }

  /**
   * A whole version 2 run from the cursor at start: header, entry table,
   * indicesCount, the index, then the extraction loop with the contents
   * region based wherever the index ended.
   */
  function Run2(data: seq<byte>, start: nat, io: nat -> Io): (r: Run)
    ensures r.effects != [] ==> Header2At(data, start).Parsed?
    ensures r.status == Failure(BadHeader) <==> Header2At(data, start).Failed? && Header2At(data, start).fault == BadHeader
    ensures Header2At(data, start).Failed? ==>
      r == Run([], Failure(Header2At(data, start).fault), Header2At(data, start).next)
  {
    match Header2At(data, start)
    case Failed(f, p) => Run([], Failure(f), p)
    case Parsed(count, p) =>
      var table := TableAt(data, p, WIDTH2, count);
      match ReadFixed(data, table.end, 4)
      case Failed(f, q) => Run([], Failure(f), q)
      case Parsed(indicesCount, q) =>
        var base := RootsAt(data, q, indicesCount).end;
        ExtractFrom(data, Version2, base, table.entries, io, 0, count, base)
  }

  /** extractVersion2: false where the source returns false, with the effects it had on the filesystem. */
  method ExtractVersion2(f: Stream, io: nat -> Io) returns (ok: bool, effects: seq<Effect>)
    modifies f
    ensures var r := Run2(f.data, old(f.pos), io);
      ok == r.status.Success? && effects == r.effects && f.pos == r.end
  {
    effects := [];
    var read, unknown1 := f.ReadType(4);
    if !read {
      return false, effects;
    }
    var unknown2;
    read, unknown2 := f.ReadType(8);
    if !read {
      return false, effects;
    }
    var entriesCount;
    read, entriesCount := f.ReadType(4);
    if !read {
      return false, effects;
    }
    if unknown1 != 1 || unknown2 != 1 || entriesCount < 1 {
      return false, effects;
    }
    var entries := ReadTable(f, WIDTH2, entriesCount);
    var indicesCount;
    read, indicesCount := f.ReadType(4);
    if !read {
      return false, effects;
    }
    var indices := ReadRoots(f, indicesCount);
    var contentOffset := f.pos;
    ok, effects := ExtractEntries(f, Version2, contentOffset, entries, entriesCount, io);
  }

  /**
   * The header is accepted exactly when its first field reads 1 as a u32, its
   * second 1 as a u64, and its count at least 1; either way it occupies 16
   * bytes. With fewer than 16 bytes left it is a short read.
   */
  lemma {:induction false} Header2Checks(data: seq<byte>, pos: nat)
    ensures pos + 16 <= |data| ==>
      var unknown1, unknown2 := LittleEndian(data[pos..pos + 4]), LittleEndian(data[pos + 4..pos + 12]);
      var count := LittleEndian(data[pos + 12..pos + 16]);
      Header2At(data, pos) == if unknown1 == 1 && unknown2 == 1 && count >= 1 then Parsed(count, pos + 16) else Failed(BadHeader, pos + 16)
    ensures pos + 16 > |data| ==> Header2At(data, pos).Failed? && Header2At(data, pos).fault == Truncated
  {
  }

  /** The on-disk form of a version 2 header for count entries. */
  function EncodeHeader2(count: nat): (s: seq<byte>)
    ensures |s| == 16
  {
    ToLittleEndian(1, 4) + ToLittleEndian(1, 8) + ToLittleEndian(count, 4)
  }

  /** An encoded header is read back with its count. */
  lemma {:induction false} Header2RoundTrip(data: seq<byte>, pos: nat, count: nat)
    requires 1 <= count < U32 && At(data, pos, EncodeHeader2(count))
    ensures Header2At(data, pos) == Parsed(count, pos + 16)
  {
    FieldCapacities();
    AtSplit(data, pos, ToLittleEndian(1, 4) + ToLittleEndian(1, 8), ToLittleEndian(count, 4));
    AtSplit(data, pos, ToLittleEndian(1, 4), ToLittleEndian(1, 8));
    ReadFixedRoundTrip(data, pos, 1, 4);
    ReadFixedRoundTrip(data, pos + 4, 1, 8);
    ReadFixedRoundTrip(data, pos + 12, count, 4);
  }

  /**
   * The name of an Index: a length of BUFFER_SIZE or more is refused after
   * the length field; a length of 0 reads no bytes and keeps the name the
   * object had; any other length replaces it with that many bytes, when they
   * are there.
   */
  lemma {:induction false} NameCases(data: seq<byte>, pos: nat, current: seq<byte>)
    ensures var r, length := NameAt(data, pos, current), ReadFixed(data, pos, 4);
      && (length.Failed? ==> r == Failed(Truncated, length.next))
      && (length.Parsed? && length.value >= BUFFER_SIZE ==> r == Failed(NameTooLong, pos + 4))
      && (length.Parsed? && length.value == 0 ==> r == Parsed(current, pos + 4))
      && (length.Parsed? && 0 < length.value < BUFFER_SIZE ==>
        var n := length.value;
        r == if n <= Remaining(data, pos + 4) then Parsed(data[pos + 4..pos + 4 + n], pos + 4 + n) else Failed(Truncated, Exhausted(data, pos + 4)))
  {
  }

  /**
   * A child reads one flag byte after its name: it succeeds exactly when that
   * byte is there, and is then a directory exactly when the byte is 1; it is
   * never a root and never gets children of its own.
   */
  lemma {:induction false} ChildFlag(data: seq<byte>, pos: nat, before: Node)
    requires NameAt(data, pos, before.name).Parsed?
    ensures var name := NameAt(data, pos, before.name);
      var p, r := name.next, ChildAt(data, pos, before);
      && r.node.name == name.value && r.node.files == before.files
      && (r.ok <==> p < |data|)
      && (r.ok ==> r.next == p + 1 && !r.node.root && (r.node.directory <==> data[p] == 1))
  {
    var p := NameAt(data, pos, before.name).next;
    if p < |data| {
      assert LittleEndian(data[p..p + 1]) == data[p] + 256 * LittleEndian(data[p..p + 1][1..]);
    }
  }

  /** A failed name read leaves the object as it was; a failed flag read still leaves it renamed. */
  lemma {:induction false} ChildFails(data: seq<byte>, pos: nat, before: Node)
    ensures var name, r := NameAt(data, pos, before.name), ChildAt(data, pos, before);
      && (name.Failed? ==> r == Outcome(false, before, name.next))
      && (name.Parsed? && !r.ok ==> r.node == before.(name := name.value) && Remaining(data, r.next) == 0)
  {
  }

  /**
   * A root read from a fresh object: once its name is read it is a directory
   * and a root; it succeeds exactly when a u32 filesCount follows, and then
   * keeps at most filesCount children, none of them a root or with children.
   */
  lemma {:induction false} RootShape(data: seq<byte>, pos: nat)
    ensures var name, r := NameAt(data, pos, []), RootAt(data, pos, FRESH);
      && (name.Failed? ==> r == Outcome(false, FRESH, name.next))
      && (name.Parsed? ==>
        var count := ReadFixed(data, name.next, 4);
        && r.node.name == name.value && r.node.directory && r.node.root
        && (r.ok <==> count.Parsed?)
        && (r.ok ==> |r.node.files| <= count.value && forall k | 0 <= k < |r.node.files| :: !r.node.files[k].root && r.node.files[k].files == []))
  {
  }

  /** The on-disk form of a name: its u32 length, then its bytes. */
  function EncodeName(name: seq<byte>): (s: seq<byte>)
    ensures |s| == 4 + |name|
  {
    ToLittleEndian(|name|, 4) + name
  }

  /** The on-disk form of a child: its name and its directory flag byte. */
  function EncodeChild(c: Node): (s: seq<byte>)
    ensures |s| == 5 + |c.name|
  {
    EncodeName(c.name) + [if c.directory then 1 else 0]
  }

  /** The on-disk form of a run of children. */
  function EncodeChildren(cs: seq<Node>): seq<byte>
  {
    if cs == [] then [] else EncodeChild(cs[0]) + EncodeChildren(cs[1..])
  }

  /** The on-disk form of a root: its name, its u32 child count, its children. */
  function EncodeRoot(r: Node): (s: seq<byte>)
    ensures |s| == 8 + |r.name| + |EncodeChildren(r.files)|
  {
    EncodeName(r.name) + ToLittleEndian(|r.files|, 4) + EncodeChildren(r.files)
  }

  /** The on-disk form of the roots of an index. */
  function EncodeRoots(rs: seq<Node>): seq<byte>
  {
    if rs == [] then [] else EncodeRoot(rs[0]) + EncodeRoots(rs[1..])
  }

  /** Children the format can express: every name under the buffer bound. */
  predicate Nameable(cs: seq<Node>)
  {
    cs == [] || (|cs[0].name| < BUFFER_SIZE && Nameable(cs[1..]))
  }

  /** A root the format can express: its name under the buffer bound, a child count within a u32, expressible children. */
  predicate Writable(r: Node)
  {
    |r.name| < BUFFER_SIZE && |r.files| < U32 && Nameable(r.files)
  }

  /** Roots the format can express, every one of them. */
  predicate AllWritable(rs: seq<Node>)
  {
    rs == [] || (Writable(rs[0]) && AllWritable(rs[1..]))
  }

  /**
   * What the children loop makes of children cs, its reused object last
   * named last: each child is a non-root with no children of its own, and
   * one written with an empty name takes the name the object already had.
   */
  function Decoded(cs: seq<Node>, last: seq<byte>): (ds: seq<Node>)
    ensures |ds| == |cs|
  {
    if cs == [] then []
    else
      var name := if cs[0].name == [] then last else cs[0].name;
      [Node(name, cs[0].directory, false, [])] + Decoded(cs[1..], name)
  }

  /** What a root read makes of root r: a directory and root with its name and its decoded children. */
  function DecodedRoot(r: Node): Node
  {
    Node(r.name, true, true, Decoded(r.files, []))
  }

  /** What the index loop makes of roots rs. */
  function DecodedRoots(rs: seq<Node>): (ds: seq<Node>)
    ensures |ds| == |rs|
  {
    if rs == [] then [] else [DecodedRoot(rs[0])] + DecodedRoots(rs[1..])
  }

  /** An encoded name is read back, or, when empty, leaves the current name in place. */
  lemma {:induction false} NameRoundTrip(data: seq<byte>, pos: nat, name: seq<byte>, current: seq<byte>)
    requires |name| < BUFFER_SIZE && At(data, pos, EncodeName(name))
    ensures NameAt(data, pos, current) == Parsed(if name == [] then current else name, pos + 4 + |name|)
  {
    FieldCapacities();
    AtSplit(data, pos, ToLittleEndian(|name|, 4), name);
    ReadFixedRoundTrip(data, pos, |name|, 4);
    ReadSpanRoundTrip(data, pos + 4, name);
  }

  /** An encoded child is read back into the object, which keeps its old name when the child's is empty. */
  lemma {:induction false} ChildRoundTrip(data: seq<byte>, pos: nat, c: Node, before: Node)
    requires |c.name| < BUFFER_SIZE && At(data, pos, EncodeChild(c))
    ensures var name := if c.name == [] then before.name else c.name;
      ChildAt(data, pos, before) == Outcome(true, before.(name := name, directory := c.directory, root := false), pos + 5 + |c.name|)
  {
    var flag: byte := if c.directory then 1 else 0;
    var p := pos + 4 + |c.name|;
    AtSplit(data, pos, EncodeName(c.name), [flag]);
    NameRoundTrip(data, pos, c.name, before.name);
    assert ToLittleEndian(flag, 1) == [flag];
    ReadFixedRoundTrip(data, p, flag, 1);
  }

  /** Encoded children are read back as Decoded says, by an object with no children of its own. */
  lemma {:induction false} ChildrenRoundTrip(data: seq<byte>, pos: nat, cs: seq<Node>, before: Node)
    requires before.files == [] && Nameable(cs)
    requires At(data, pos, EncodeChildren(cs))
    ensures ChildrenAt(data, pos, |cs|, before) == Nodes(Decoded(cs, before.name), pos + |EncodeChildren(cs)|)
    decreases cs
  {
    if cs != [] {
      var node, next := ChildHead(data, pos, cs, before);
      ChildrenRoundTrip(data, next, cs[1..], node);
      ChildrenCons(data, pos, |cs|, before, node, next, Nodes(Decoded(cs[1..], node.name), next + |EncodeChildren(cs[1..])|));
    }
  }

  /** The first of some encoded children is read back into the object, and the rest follow it. */
  lemma {:induction false} ChildHead(data: seq<byte>, pos: nat, cs: seq<Node>, before: Node) returns (node: Node, next: nat)
    requires cs != [] && before.files == [] && Nameable(cs) && At(data, pos, EncodeChildren(cs))
    ensures node.files == [] && Nameable(cs[1..]) && next == pos + |EncodeChild(cs[0])|
    ensures ChildAt(data, pos, before) == Outcome(true, node, next) && At(data, next, EncodeChildren(cs[1..]))
    ensures Decoded(cs, before.name) == [node] + Decoded(cs[1..], node.name)
  {
    var name := if cs[0].name == [] then before.name else cs[0].name;
    node, next := Node(name, cs[0].directory, false, []), pos + |EncodeChild(cs[0])|;
    AtSplit(data, pos, EncodeChild(cs[0]), EncodeChildren(cs[1..]));
    ChildRoundTrip(data, pos, cs[0], before);
  }

  /** A child that decodes heads the children loop's nodes. */
  lemma {:induction false} ChildrenCons(data: seq<byte>, pos: nat, count: nat, current: Node, node: Node, next: nat, rest: Nodes)
    requires count > 0 && ChildAt(data, pos, current) == Outcome(true, node, next)
    requires ChildrenAt(data, next, count - 1, node) == rest
    ensures ChildrenAt(data, pos, count, current) == Nodes([node] + rest.nodes, rest.end)
  {
    ChildrenStep(data, pos, count, current);
  }

  /** One turn of the children loop. */
  lemma {:induction false} ChildrenStep(data: seq<byte>, pos: nat, count: nat, current: Node)
    requires count > 0
    ensures var step := ChildAt(data, pos, current);
      var rest := ChildrenAt(data, step.next, count - 1, step.node);
      ChildrenAt(data, pos, count, current) == if step.ok then Nodes([step.node] + rest.nodes, rest.end) else rest
  {
  }

  /** An encoded root is read back by a fresh object as DecodedRoot says. */
  lemma {:induction false} RootRoundTrip(data: seq<byte>, pos: nat, r: Node)
    requires Writable(r) && At(data, pos, EncodeRoot(r))
    ensures RootAt(data, pos, FRESH) == Outcome(true, DecodedRoot(r), pos + |EncodeRoot(r)|)
  {
    var p := RootParts(data, pos, r);
    RootRead(data, pos, p, r.name, |r.files|, Decoded(r.files, []), pos + |EncodeRoot(r)|);
  }

  /** The name, the count and the children of an encoded root, each read back in turn by a fresh object. */
  lemma {:induction false} RootParts(data: seq<byte>, pos: nat, r: Node) returns (p: nat)
    requires Writable(r) && At(data, pos, EncodeRoot(r))
    ensures NameAt(data, pos, []) == Parsed(r.name, p) && ReadFixed(data, p, 4) == Parsed(|r.files|, p + 4)
    ensures ChildrenAt(data, p + 4, |r.files|, FRESH) == Nodes(Decoded(r.files, []), pos + |EncodeRoot(r)|)
    ensures DecodedRoot(r) == Node(r.name, true, true, Decoded(r.files, []))
  {
    p := RootPieces(data, pos, r);
    RootChildrenEnd(data, pos, r, p);
  }

  /** The children of an encoded root are read back by a fresh fileIndex, ending where the root's encoding ends. */
  lemma {:induction false} RootChildrenEnd(data: seq<byte>, pos: nat, r: Node, p: nat)
    requires Writable(r) && At(data, pos, EncodeRoot(r)) && p == pos + 4 + |r.name|
    ensures ChildrenAt(data, p + 4, |r.files|, FRESH) == Nodes(Decoded(r.files, []), pos + |EncodeRoot(r)|)
  {
    RootFields(data, pos, r);
    RootChildren(data, p + 4, r.files);
  }

  /** The name and the child count of an encoded root are read back, and its children follow at p + 4. */
  lemma {:induction false} RootPieces(data: seq<byte>, pos: nat, r: Node) returns (p: nat)
    requires Writable(r) && At(data, pos, EncodeRoot(r))
    ensures p == pos + 4 + |r.name| && At(data, p + 4, EncodeChildren(r.files))
    ensures p + 4 + |EncodeChildren(r.files)| == pos + |EncodeRoot(r)| && DecodedRoot(r) == Node(r.name, true, true, Decoded(r.files, []))
    ensures NameAt(data, pos, []) == Parsed(r.name, p) && ReadFixed(data, p, 4) == Parsed(|r.files|, p + 4)
  {
    p := pos + 4 + |r.name|;
    RootFields(data, pos, r);
    NameRoundTrip(data, pos, r.name, []);
    RootCount(data, p, |r.files|);
  }

  /** A child count within a u32, encoded at p, is read back. */
  lemma {:induction false} RootCount(data: seq<byte>, p: nat, n: nat)
    requires n < U32 && At(data, p, ToLittleEndian(n, 4))
    ensures ReadFixed(data, p, 4) == Parsed(n, p + 4)
  {
    FieldCapacities();
    ReadFixedRoundTrip(data, p, n, 4);
  }

  /** The children of an encoded root, read by the fresh fileIndex of a root read. */
  lemma {:induction false} RootChildren(data: seq<byte>, q: nat, cs: seq<Node>)
    requires Nameable(cs) && At(data, q, EncodeChildren(cs))
    ensures ChildrenAt(data, q, |cs|, FRESH) == Nodes(Decoded(cs, []), q + |EncodeChildren(cs)|)
  {
    ChildrenRoundTrip(data, q, cs, FRESH);
  }

  /** The three parts of an encoded root, each found where the decoder looks for it. */
  lemma {:induction false} RootFields(data: seq<byte>, pos: nat, r: Node)
    requires At(data, pos, EncodeRoot(r))
    ensures var p := pos + 4 + |r.name|;
      && At(data, pos, EncodeName(r.name)) && At(data, p, ToLittleEndian(|r.files|, 4)) && At(data, p + 4, EncodeChildren(r.files))
      && p + 4 + |EncodeChildren(r.files)| == pos + |EncodeRoot(r)| && DecodedRoot(r) == Node(r.name, true, true, Decoded(r.files, []))
  {
    var name, count := EncodeName(r.name), ToLittleEndian(|r.files|, 4);
    AtSplit(data, pos, name + count, EncodeChildren(r.files));
    AtSplit(data, pos, name, count);
  }

  /** A root read on a fresh object that gets its name, its count and its children in turn succeeds with them. */
  lemma {:induction false} RootRead(data: seq<byte>, pos: nat, q: nat, name: seq<byte>, count: nat, kids: seq<Node>, end: nat)
    requires NameAt(data, pos, []) == Parsed(name, q)
    requires ReadFixed(data, q, 4) == Parsed(count, q + 4)
    requires ChildrenAt(data, q + 4, count, FRESH) == Nodes(kids, end)
    ensures RootAt(data, pos, FRESH) == Outcome(true, Node(name, true, true, kids), end)
  {
    assert [] + kids == kids;
  }

  /** One turn of the index loop. */
  lemma {:induction false} RootsStep(data: seq<byte>, pos: nat, count: nat)
    requires count > 0
    ensures var r := RootAt(data, pos, FRESH);
      var rest := RootsAt(data, r.next, count - 1);
      RootsAt(data, pos, count) == if r.ok then Nodes([r.node] + rest.nodes, rest.end) else rest
  {
  }

  /** A root that decodes heads the index loop's nodes. */
  lemma {:induction false} RootsCons(data: seq<byte>, pos: nat, count: nat, node: Node, next: nat, rest: Nodes)
    requires count > 0 && RootAt(data, pos, FRESH) == Outcome(true, node, next)
    requires RootsAt(data, next, count - 1) == rest
    ensures RootsAt(data, pos, count) == Nodes([node] + rest.nodes, rest.end)
  {
    RootsStep(data, pos, count);
  }

  /** The first of some encoded roots is read back by a fresh object, and the rest follow it. */
  lemma {:induction false} RootHead(data: seq<byte>, pos: nat, rs: seq<Node>) returns (node: Node, next: nat)
    requires rs != [] && AllWritable(rs) && At(data, pos, EncodeRoots(rs))
    ensures AllWritable(rs[1..]) && next == pos + |EncodeRoot(rs[0])|
    ensures RootAt(data, pos, FRESH) == Outcome(true, node, next) && At(data, next, EncodeRoots(rs[1..]))
    ensures DecodedRoots(rs) == [node] + DecodedRoots(rs[1..])
  {
    node, next := DecodedRoot(rs[0]), pos + |EncodeRoot(rs[0])|;
    AtSplit(data, pos, EncodeRoot(rs[0]), EncodeRoots(rs[1..]));
    RootRoundTrip(data, pos, rs[0]);
  }

  /** Encoded roots are read back as DecodedRoots says, and the index ends right after their encoding. */
  lemma {:induction false} RootsRoundTrip(data: seq<byte>, pos: nat, rs: seq<Node>)
    requires AllWritable(rs) && At(data, pos, EncodeRoots(rs))
    ensures RootsAt(data, pos, |rs|) == Nodes(DecodedRoots(rs), pos + |EncodeRoots(rs)|)
    decreases rs
  {
    if rs != [] {
      var node, next := RootHead(data, pos, rs);
      RootsRoundTrip(data, next, rs[1..]);
      RootsCons(data, pos, |rs|, node, next, Nodes(DecodedRoots(rs[1..]), next + |EncodeRoots(rs[1..])|));
    }
  }

  /** A name cut short by the end of data is a truncation that leaves the cursor at the end. */
  lemma {:induction false} NameCut(data: seq<byte>, pos: nat, name: seq<byte>, current: seq<byte>)
    requires |name| < BUFFER_SIZE && Cut(data, pos, EncodeName(name))
    ensures NameAt(data, pos, current) == Failed(Truncated, |data|)
  {
    FieldCapacities();
    CutSplit(data, pos, ToLittleEndian(|name|, 4), name);
    if pos + 4 <= |data| {
      ReadFixedRoundTrip(data, pos, |name|, 4);
    }
  }

  /** A child cut short by the end of data fails, with the cursor at the end. */
  lemma {:induction false} ChildCut(data: seq<byte>, pos: nat, c: Node, before: Node)
    requires |c.name| < BUFFER_SIZE && Cut(data, pos, EncodeChild(c))
    ensures !ChildAt(data, pos, before).ok && ChildAt(data, pos, before).next == |data|
  {
    var flag: byte := if c.directory then 1 else 0;
    CutSplit(data, pos, EncodeName(c.name), [flag]);
    if |data| < pos + 4 + |c.name| {
      NameCut(data, pos, c.name, before.name);
    } else {
      NameRoundTrip(data, pos, c.name, before.name);
    }
  }

  /** Once the cursor is at the end of data, the rest of the children loop keeps nothing and stays put. */
  lemma {:induction false} ChildrenStuck(data: seq<byte>, pos: nat, count: nat, current: Node)
    requires Remaining(data, pos) == 0
    ensures ChildrenAt(data, pos, count, current) == Nodes([], pos)
    decreases count
  {
    if count > 0 {
      ChildrenStep(data, pos, count, current);
      ChildrenStuck(data, pos, count - 1, ChildAt(data, pos, current).node);
    }
  }

  /** Children cut short by the end of data: the loop ends at the end of data. */
  lemma {:induction false} ChildrenCut(data: seq<byte>, pos: nat, cs: seq<Node>, before: Node)
    requires Nameable(cs) && Cut(data, pos, EncodeChildren(cs))
    ensures ChildrenAt(data, pos, |cs|, before).end == |data|
    decreases cs
  {
    assert cs != [];
    if |data| < pos + |EncodeChild(cs[0])| {
      ChildrenCutHere(data, pos, cs, before);
    } else {
      var node, next := ChildCutHead(data, pos, cs, before);
      ChildrenCut(data, next, cs[1..], node);
      ChildrenStep(data, pos, |cs|, before);
    }
  }

  /** The cut falls in the first child: the children loop ends at the end of data. */
  lemma {:induction false} ChildrenCutHere(data: seq<byte>, pos: nat, cs: seq<Node>, before: Node)
    requires cs != [] && Nameable(cs) && Cut(data, pos, EncodeChildren(cs))
    requires |data| < pos + |EncodeChild(cs[0])|
    ensures ChildrenAt(data, pos, |cs|, before).end == |data|
  {
    CutSplit(data, pos, EncodeChild(cs[0]), EncodeChildren(cs[1..]));
    ChildCut(data, pos, cs[0], before);
    ChildrenStep(data, pos, |cs|, before);
    ChildrenStuck(data, |data|, |cs| - 1, ChildAt(data, pos, before).node);
  }

  /** The cut falls after the first child: it is read back, and the rest of the children are cut. */
  lemma {:induction false} ChildCutHead(data: seq<byte>, pos: nat, cs: seq<Node>, before: Node) returns (node: Node, next: nat)
    requires cs != [] && Nameable(cs) && Cut(data, pos, EncodeChildren(cs))
    requires pos + |EncodeChild(cs[0])| <= |data|
    ensures ChildAt(data, pos, before) == Outcome(true, node, next)
    ensures Nameable(cs[1..]) && Cut(data, next, EncodeChildren(cs[1..]))
  {
    next := pos + |EncodeChild(cs[0])|;
    node := ChildAt(data, pos, before).node;
    CutSplit(data, pos, EncodeChild(cs[0]), EncodeChildren(cs[1..]));
    ChildRoundTrip(data, pos, cs[0], before);
  }

  /** A root cut short by the end of data leaves the cursor at the end, whichever part the cut falls in. */
  lemma {:induction false} RootCut(data: seq<byte>, pos: nat, r: Node)
    requires Writable(r) && Cut(data, pos, EncodeRoot(r))
    ensures RootAt(data, pos, FRESH).next == |data|
  {
    var name, count := EncodeName(r.name), ToLittleEndian(|r.files|, 4);
    CutSplit(data, pos, name + count, EncodeChildren(r.files));
    if |data| < pos + 4 + |r.name| + 4 {
      RootCutInHead(data, pos, r);
    } else {
      RootCutInChildren(data, pos, r);
    }
  }

  /** The cut falls in the root's name or its file count. */
  lemma {:induction false} RootCutInHead(data: seq<byte>, pos: nat, r: Node)
    requires Writable(r) && Cut(data, pos, EncodeName(r.name) + ToLittleEndian(|r.files|, 4))
    ensures RootAt(data, pos, FRESH).next == |data|
  {
    CutSplit(data, pos, EncodeName(r.name), ToLittleEndian(|r.files|, 4));
    if |data| < pos + 4 + |r.name| {
      NameCut(data, pos, r.name, []);
    } else {
      NameRoundTrip(data, pos, r.name, []);
    }
  }

  /** The cut falls in the root's children: the name and the count are read, and the children loop ends at the end of data. */
  lemma {:induction false} RootCutInChildren(data: seq<byte>, pos: nat, r: Node)
    requires Writable(r) && At(data, pos, EncodeName(r.name) + ToLittleEndian(|r.files|, 4))
    requires Cut(data, pos + 4 + |r.name| + 4, EncodeChildren(r.files))
    ensures RootAt(data, pos, FRESH).next == |data|
  {
    var p := pos + 4 + |r.name|;
    RootHeadRead(data, pos, r, p);
    RootCutTail(data, pos, p, r);
  }

  /** Once the name and the count of a root are read, a cut in its children moves the cursor to the end of data. */
  lemma {:induction false} RootCutTail(data: seq<byte>, pos: nat, p: nat, r: Node)
    requires Writable(r) && NameAt(data, pos, []) == Parsed(r.name, p) && ReadFixed(data, p, 4) == Parsed(|r.files|, p + 4)
    requires Cut(data, p + 4, EncodeChildren(r.files))
    ensures RootAt(data, pos, FRESH).next == |data|
  {
    ChildrenCut(data, p + 4, r.files, FRESH);
    var kids := ChildrenAt(data, p + 4, |r.files|, FRESH);
    RootRead(data, pos, p, r.name, |r.files|, kids.nodes, kids.end);
  }

  /** The name and the count of a root, encoded at pos, are read back by a fresh object, the count at p. */
  lemma {:induction false} RootHeadRead(data: seq<byte>, pos: nat, r: Node, p: nat)
    requires Writable(r) && At(data, pos, EncodeName(r.name) + ToLittleEndian(|r.files|, 4)) && p == pos + 4 + |r.name|
    ensures NameAt(data, pos, []) == Parsed(r.name, p) && ReadFixed(data, p, 4) == Parsed(|r.files|, p + 4)
  {
    AtSplit(data, pos, EncodeName(r.name), ToLittleEndian(|r.files|, 4));
    NameRoundTrip(data, pos, r.name, []);
    RootCount(data, p, |r.files|);
  }

  /** Once the cursor is at the end of data, the rest of the index loop keeps nothing and stays put. */
  lemma {:induction false} RootsStuck(data: seq<byte>, pos: nat, count: nat)
    requires Remaining(data, pos) == 0
    ensures RootsAt(data, pos, count) == Nodes([], pos)
    decreases count
  {
    if count > 0 {
      RootsStep(data, pos, count);
      RootsStuck(data, pos, count - 1);
    }
  }

  /** Roots cut short by the end of data: the index loop ends at the end of data. */
  lemma {:induction false} RootsCut(data: seq<byte>, pos: nat, rs: seq<Node>)
    requires AllWritable(rs) && Cut(data, pos, EncodeRoots(rs))
    ensures RootsAt(data, pos, |rs|).end == |data|
    decreases rs
  {
    assert rs != [];
    if |data| < pos + |EncodeRoot(rs[0])| {
      RootsCutHere(data, pos, rs);
    } else {
      var node, next := RootCutHead(data, pos, rs);
      RootsCut(data, next, rs[1..]);
      RootsStep(data, pos, |rs|);
    }
  }

  /** The cut falls in the first root: the index loop ends at the end of data. */
  lemma {:induction false} RootsCutHere(data: seq<byte>, pos: nat, rs: seq<Node>)
    requires rs != [] && AllWritable(rs) && Cut(data, pos, EncodeRoots(rs))
    requires |data| < pos + |EncodeRoot(rs[0])|
    ensures RootsAt(data, pos, |rs|).end == |data|
  {
    CutSplit(data, pos, EncodeRoot(rs[0]), EncodeRoots(rs[1..]));
    RootCut(data, pos, rs[0]);
    RootsStep(data, pos, |rs|);
    RootsStuck(data, |data|, |rs| - 1);
  }

  /** The cut falls after the first root: it is read back, and the rest of the roots are cut. */
  lemma {:induction false} RootCutHead(data: seq<byte>, pos: nat, rs: seq<Node>) returns (node: Node, next: nat)
    requires rs != [] && AllWritable(rs) && Cut(data, pos, EncodeRoots(rs))
    requires pos + |EncodeRoot(rs[0])| <= |data|
    ensures RootAt(data, pos, FRESH) == Outcome(true, node, next)
    ensures AllWritable(rs[1..]) && Cut(data, next, EncodeRoots(rs[1..]))
  {
    node, next := DecodedRoot(rs[0]), pos + |EncodeRoot(rs[0])|;
    CutSplit(data, pos, EncodeRoot(rs[0]), EncodeRoots(rs[1..]));
    RootRoundTrip(data, pos, rs[0]);
  }

  /** A header cut short by the end of data is a truncation that leaves the cursor at the end. */
  lemma {:induction false} Header2Cut(data: seq<byte>, pos: nat, count: nat)
    requires 1 <= count < U32 && Cut(data, pos, EncodeHeader2(count))
    ensures Header2At(data, pos) == Failed(Truncated, |data|)
  {
    FieldCapacities();
    CutSplit(data, pos, ToLittleEndian(1, 4) + ToLittleEndian(1, 8), ToLittleEndian(count, 4));
    if |data| < pos + 12 {
      CutSplit(data, pos, ToLittleEndian(1, 4), ToLittleEndian(1, 8));
      if pos + 4 <= |data| {
        ReadFixedRoundTrip(data, pos, 1, 4);
      }
    } else {
      AtSplit(data, pos, ToLittleEndian(1, 4), ToLittleEndian(1, 8));
      ReadFixedRoundTrip(data, pos, 1, 4);
      ReadFixedRoundTrip(data, pos + 4, 1, 8);
    }
  }

  /** A version 2 archive: header, table, indicesCount and index, then the contents region. */
  function Archive2(es: seq<Entry>, rs: seq<Node>, content: seq<byte>): seq<byte>
  {
    var head := EncodeHeader2(|es|) + EncodeTable(es, WIDTH2);
    head + ToLittleEndian(|rs|, 4) + (EncodeRoots(rs) + content)
  }

  /**
   * data holds a version 2 header for es, their table at 16, the index of rs
   * after its count at t, and the contents region at base, right after the index.
   */
  predicate LaidOut2(data: seq<byte>, es: seq<Entry>, rs: seq<Node>, content: seq<byte>, t: nat, base: nat)
  {
    && Header2At(data, 0) == Parsed(|es|, 16)
    && At(data, 16, EncodeTable(es, WIDTH2)) && t == 16 + |EncodeTable(es, WIDTH2)|
    && ReadFixed(data, t, 4) == Parsed(|rs|, t + 4)
    && At(data, t + 4, EncodeRoots(rs)) && base == t + 4 + |EncodeRoots(rs)|
    && At(data, base, content) && base + |content| < LONG_LIMIT
  }

  /** The five parts of an Archive2, each found where it was put. */
  lemma {:induction false} Archive2Parts(data: seq<byte>, es: seq<Entry>, rs: seq<Node>, content: seq<byte>)
    requires data == Archive2(es, rs, content)
    ensures var t := 16 + |EncodeTable(es, WIDTH2)|;
      && At(data, 0, EncodeHeader2(|es|)) && At(data, 16, EncodeTable(es, WIDTH2)) && At(data, t, ToLittleEndian(|rs|, 4))
      && At(data, t + 4, EncodeRoots(rs)) && At(data, t + 4 + |EncodeRoots(rs)|, content)
  {
    var table := EncodeTable(es, WIDTH2);
    var head, tail := EncodeHeader2(|es|) + table, EncodeRoots(rs) + content;
    AtParts(head, ToLittleEndian(|rs|, 4), tail);
    AtSplit(data, 0, EncodeHeader2(|es|), table);
    AtSplit(data, 20 + |table|, EncodeRoots(rs), content);
  }

  /** An Archive2 is laid out as its header, its table, its index and its contents region. */
  lemma {:induction false} Archive2LaidOut(data: seq<byte>, es: seq<Entry>, rs: seq<Node>, content: seq<byte>) returns (t: nat, base: nat)
    requires data == Archive2(es, rs, content)
    requires 1 <= |es| < U32 && |rs| < U32
    requires 20 + |EncodeTable(es, WIDTH2)| + |EncodeRoots(rs)| + |content| < LONG_LIMIT
    ensures t == 16 + |EncodeTable(es, WIDTH2)| && base == t + 4 + |EncodeRoots(rs)|
    ensures LaidOut2(data, es, rs, content, t, base)
  {
    t := 16 + |EncodeTable(es, WIDTH2)|;
    base := t + 4 + |EncodeRoots(rs)|;
    Archive2Parts(data, es, rs, content);
    Archive2HeadersRead(data, es, rs, content);
  }

  /** The header and indicesCount of an Archive2 are read back. */
  lemma {:induction false} Archive2HeadersRead(data: seq<byte>, es: seq<Entry>, rs: seq<Node>, content: seq<byte>)
    requires data == Archive2(es, rs, content)
    requires 1 <= |es| < U32 && |rs| < U32
    ensures var t := 16 + |EncodeTable(es, WIDTH2)|;
      Header2At(data, 0) == Parsed(|es|, 16) && ReadFixed(data, t, 4) == Parsed(|rs|, t + 4)
  {
    Archive2Parts(data, es, rs, content);
    Header2RoundTrip(data, 0, |es|);
    RootCount(data, 16 + |EncodeTable(es, WIDTH2)|, |rs|);
  }

  /** Once the header, the table and indicesCount are read, a run is the extraction loop from wherever the index ends. */
  lemma {:induction false} Run2Extracts(data: seq<byte>, start: nat, count: nat, p: nat, t: nat, n: nat, io: nat -> Io)
    requires Header2At(data, start) == Parsed(count, p)
    requires TableAt(data, p, WIDTH2, count).end == t && ReadFixed(data, t, 4) == Parsed(n, t + 4)
    ensures p == start + 16
    ensures var base := RootsAt(data, t + 4, n).end;
      Run2(data, start, io) == ExtractFrom(data, Version2, base, TableAt(data, p, WIDTH2, count).entries, io, 0, count, base)
  {
  }

  /**
   * On data laid out for es and the roots rs, the index decodes to
   * DecodedRoots(rs) and ends where the contents region begins, and a
   * version 2 run is the extraction loop over exactly es.
   */
  lemma {:induction false} Run2OfLaidOut(data: seq<byte>, es: seq<Entry>, rs: seq<Node>, content: seq<byte>, t: nat, base: nat, io: nat -> Io)
    requires WellPlaced(es, content, WIDTH2) && AllWritable(rs) && LaidOut2(data, es, rs, content, t, base)
    ensures RootsAt(data, t + 4, |rs|) == Nodes(DecodedRoots(rs), base)
    ensures Run2(data, 0, io) == ExtractFrom(data, Version2, base, es, io, 0, |es|, base)
  {
    LaidOut2Reads(data, es, rs, content, t, base);
    Run2Extracts(data, 0, |es|, 16, t, |rs|, io);
  }

  /** On data laid out for es and rs, the table decodes to es and the index to DecodedRoots(rs), ending at base. */
  lemma {:induction false} LaidOut2Reads(data: seq<byte>, es: seq<Entry>, rs: seq<Node>, content: seq<byte>, t: nat, base: nat)
    requires WellPlaced(es, content, WIDTH2) && AllWritable(rs) && LaidOut2(data, es, rs, content, t, base)
    ensures TableAt(data, 16, WIDTH2, |es|) == Table(es, t)
    ensures RootsAt(data, t + 4, |rs|) == Nodes(DecodedRoots(rs), base)
  {
    assert forall e <- es :: Encodable(e, WIDTH2);
    TableRoundTrip(data, 16, es, WIDTH2);
    RootsRoundTrip(data, t + 4, rs);
  }

  /**
   * Any data laid out as a version 2 archive of es and rs extracts to the
   * expected effects when the filesystem accepts every directory and file:
   * the index changes nothing but where the contents region starts.
   */
  lemma {:induction false} Version2Runs(data: seq<byte>, es: seq<Entry>, rs: seq<Node>, content: seq<byte>, t: nat, base: nat, io: nat -> Io)
    requires WellPlaced(es, content, WIDTH2) && AllWritable(rs) && LaidOut2(data, es, rs, content, t, base) && Accepts(es, io)
    ensures var r := Run2(data, 0, io);
      r.status == Success && r.effects == Expected(es, content)
  {
    Run2OfLaidOut(data, es, rs, content, t, base, io);
    PlacedExtractsExpected(data, Version2, base, es, content, WIDTH2, io);
  }

  /**
   * A version 2 archive cut short before its index begins: the cut falls in
   * the header, the table or indicesCount, and the run stops there with a
   * truncation before anything is extracted.
   */
  lemma {:induction false} Run2Cut(es: seq<Entry>, rs: seq<Node>, content: seq<byte>, k: nat, io: nat -> Io)
    requires 1 <= |es| < U32 && forall e <- es :: Encodable(e, WIDTH2)
    requires k < 20 + |EncodeTable(es, WIDTH2)|
    ensures Run2(Archive2(es, rs, content)[..k], 0, io) == Run([], Failure(Truncated), k)
  {
    var full, table := Archive2(es, rs, content), EncodeTable(es, WIDTH2);
    var data := full[..k];
    AtParts(EncodeHeader2(|es|) + table, ToLittleEndian(|rs|, 4), EncodeRoots(rs) + content);
    AtSplit(full, 0, EncodeHeader2(|es|), table);
    if k < 16 {
      PrefixCut(full, k, 0, EncodeHeader2(|es|));
      Header2Cut(data, 0, |es|);
    } else {
      PrefixAt(full, k, 0, EncodeHeader2(|es|));
      Header2RoundTrip(data, 0, |es|);
      if k < 16 + |table| {
        PrefixCut(full, k, 16, table);
        TableCut(data, 16, es, WIDTH2);
      } else {
        PrefixAt(full, k, 16, table);
        TableRoundTrip(data, 16, es, WIDTH2);
      }
    }
  }

  /**
   * A version 2 archive cut short inside its index: the header, the table
   * and indicesCount are read, the index loop ends at the end of data, and
   * the run extracts every entry with the contents region taken to start
   * there.
   */
  lemma {:induction false} Run2IndexCut(es: seq<Entry>, rs: seq<Node>, content: seq<byte>, k: nat, io: nat -> Io)
    requires 1 <= |es| < U32 && |rs| < U32 && (forall e <- es :: Encodable(e, WIDTH2)) && AllWritable(rs)
    requires 20 + |EncodeTable(es, WIDTH2)| <= k < 20 + |EncodeTable(es, WIDTH2)| + |EncodeRoots(rs)|
    ensures var data := Archive2(es, rs, content)[..k];
      Run2(data, 0, io) == ExtractFrom(data, Version2, k, es, io, 0, |es|, k)
  {
    var t := CutTableRead(es, rs, content, k);
    CutHeaderRead(es, rs, content, k);
    CutCountRead(es, rs, content, k, t);
    CutIndexEnds(es, rs, content, k, t);
    Run2Extracts(Archive2(es, rs, content)[..k], 0, |es|, 16, t, |rs|, io);
  }

  /** A version 2 archive cut short inside its index still has its table read back as its entries, ending at t. */
  lemma {:induction false} CutTableRead(es: seq<Entry>, rs: seq<Node>, content: seq<byte>, k: nat) returns (t: nat)
    requires forall e <- es :: Encodable(e, WIDTH2)
    requires 20 + |EncodeTable(es, WIDTH2)| <= k < 20 + |EncodeTable(es, WIDTH2)| + |EncodeRoots(rs)|
    ensures TableAt(Archive2(es, rs, content)[..k], 16, WIDTH2, |es|) == Table(es, t)
  {
    t := 16 + |EncodeTable(es, WIDTH2)|;
    IndexCutParts(es, rs, content, k);
    TableRoundTrip(Archive2(es, rs, content)[..k], 16, es, WIDTH2);
  }

  /** ... and its header. */
  lemma {:induction false} CutHeaderRead(es: seq<Entry>, rs: seq<Node>, content: seq<byte>, k: nat)
    requires 1 <= |es| < U32
    requires 20 + |EncodeTable(es, WIDTH2)| <= k < 20 + |EncodeTable(es, WIDTH2)| + |EncodeRoots(rs)|
    ensures Header2At(Archive2(es, rs, content)[..k], 0) == Parsed(|es|, 16)
  {
    IndexCutParts(es, rs, content, k);
    Header2RoundTrip(Archive2(es, rs, content)[..k], 0, |es|);
  }

  /** ... and its indicesCount, right after the table. */
  lemma {:induction false} CutCountRead(es: seq<Entry>, rs: seq<Node>, content: seq<byte>, k: nat, t: nat)
    requires |rs| < U32 && forall e <- es :: Encodable(e, WIDTH2)
    requires 20 + |EncodeTable(es, WIDTH2)| <= k < 20 + |EncodeTable(es, WIDTH2)| + |EncodeRoots(rs)|
    requires TableAt(Archive2(es, rs, content)[..k], 16, WIDTH2, |es|) == Table(es, t)
    ensures ReadFixed(Archive2(es, rs, content)[..k], t, 4) == Parsed(|rs|, t + 4)
  {
    var data := Archive2(es, rs, content)[..k];
    IndexCutParts(es, rs, content, k);
    TableRoundTrip(data, 16, es, WIDTH2);
    FieldCapacities();
    ReadFixedRoundTrip(data, t, |rs|, 4);
  }

  /** ... and the index loop after indicesCount ends at the cut. */
  lemma {:induction false} CutIndexEnds(es: seq<Entry>, rs: seq<Node>, content: seq<byte>, k: nat, t: nat)
    requires AllWritable(rs) && forall e <- es :: Encodable(e, WIDTH2)
    requires 20 + |EncodeTable(es, WIDTH2)| <= k < 20 + |EncodeTable(es, WIDTH2)| + |EncodeRoots(rs)|
    requires TableAt(Archive2(es, rs, content)[..k], 16, WIDTH2, |es|) == Table(es, t)
    ensures RootsAt(Archive2(es, rs, content)[..k], t + 4, |rs|).end == k
  {
    var data := Archive2(es, rs, content)[..k];
    IndexCutParts(es, rs, content, k);
    TableRoundTrip(data, 16, es, WIDTH2);
    RootsCut(data, t + 4, rs);
  }

  /** The parts of a version 2 archive cut short inside its index that are still whole, and the index that is cut. */
  lemma {:induction false} IndexCutParts(es: seq<Entry>, rs: seq<Node>, content: seq<byte>, k: nat)
    requires 20 + |EncodeTable(es, WIDTH2)| <= k < 20 + |EncodeTable(es, WIDTH2)| + |EncodeRoots(rs)|
    ensures var data, t := Archive2(es, rs, content)[..k], 16 + |EncodeTable(es, WIDTH2)|;
      && At(data, 0, EncodeHeader2(|es|)) && At(data, 16, EncodeTable(es, WIDTH2))
      && At(data, t, ToLittleEndian(|rs|, 4)) && Cut(data, t + 4, EncodeRoots(rs))
  {
    var full, table := Archive2(es, rs, content), EncodeTable(es, WIDTH2);
    var t := 16 + |table|;
    AtParts(EncodeHeader2(|es|) + table, ToLittleEndian(|rs|, 4), EncodeRoots(rs) + content);
    AtSplit(full, 0, EncodeHeader2(|es|), table);
    AtSplit(full, t + 4, EncodeRoots(rs), content);
    PrefixAt(full, k, 0, EncodeHeader2(|es|));
    PrefixAt(full, k, 16, table);
    PrefixAt(full, k, t, ToLittleEndian(|rs|, 4));
    PrefixCut(full, k, t + 4, EncodeRoots(rs));
  }
}
