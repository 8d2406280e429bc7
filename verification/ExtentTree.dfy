// Loading an ext4 extent tree: recursive descent, in-place sort and overlap check. The loaded
// list depends only on the bag of leaf entries, never on the shape of the tree.
module ExtentTrees {
  import opened Basics
  import opened ExtentFile

  const INODE_CORE_SIZE: nat := 60
  const MAX_DEPTH: nat := 5

  datatype TreeError =
    | NodeTooShort | BadMagic | WrongDepth | TooManyEntries | EntriesOutOfBounds | BadChecksum
    | EmptyExtent | DepthTooHigh | RangeOverflow | Overlap | BlockUnreadable

  type Result<+T> = Basics.Result<T, TreeError>

  /**
   * What surrounds a tree: how blocks are read, and the checksum function with the seed that
   * metadata checksums need when the file system has them.
   */
  datatype Volume = Volume(
    load: nat -> Result<seq<Byte>>,
    crc: (nat, seq<Byte>) -> nat,
    checksumPrefix: Option<nat>)

  // ---------------------------------------------------------------- what a tree means

  /** The checks on a node before its entries are used. */
  function CheckNode(volume: Volume, data: seq<Byte>, depth: nat, firstLevel: bool): (r: Result<nat>)
    ensures r.Ok? ==> 12 + 12 * r.value <= |data|
  {
    if |data| < 12 then Err(NodeTooShort)
    else if data[0] != 0x0A || data[1] != 0xF3 then Err(BadMagic)
    else
      var entries := Le(data, 2, 2);
      var checked := !firstLevel && volume.checksumPrefix.Some?;
      var usable := SatSub(|data|, if checked then 4 else 0);
      if Le(data, 6, 2) != depth then Err(WrongDepth)
      else if entries > Le(data, 4, 2) then Err(TooManyEntries)
      else if 12 + entries * 12 > usable then Err(EntriesOutOfBounds)
      else if checked && volume.crc(volume.checksumPrefix.value, data[..|data| - 4]) != Le(data, |data| - 4, 4)
      then Err(BadChecksum)
      else Ok(entries)
  }

  /** The leaf entry at byte `at`: a length above 0x8000 marks an extent without data on disk. */
  function LeafEntry(data: seq<Byte>, at: nat): Extent
    requires at + 12 <= |data|
  {
    var encoded := Le(data, at + 4, 2);
    var initialized := encoded <= 0x8000;
    LeBound(data, at, 4);
    assert Pow256(4) == 256 * (256 * (256 * (256 * Pow256(0))));
    Extent(Le(data, at, 4),
           Le(data, at + 8, 4) + Le(data, at + 6, 2) * 0x1_0000_0000,
           if initialized then encoded else encoded - 0x8000,
           initialized)
  }

  /** The block of the child that the index entry at byte `at` points to. */
  function ChildBlock(data: seq<Byte>, at: nat): nat
    requires at + 12 <= |data|
  {
    Le(data, at + 4, 4) + Le(data, at + 8, 2) * 0x1_0000_0000
  }

  /** The first `n` leaf entries of a checked leaf node, in order. */
  function LeafEntries(data: seq<Byte>, n: nat): Result<seq<Extent>>
    requires 12 + 12 * n <= |data|
  {
    if n == 0 then Ok([])
    else
      var before := LeafEntries(data, n - 1);
      if before.Err? then before
      else
        var e := LeafEntry(data, 12 * n);
        if e.len == 0 then Err(EmptyExtent) else Ok(before.value + [e])
  }

  /** The leaf entries of the tree below a node, left to right; the depth bounds the descent. */
  function Leaves(volume: Volume, data: seq<Byte>, depth: nat, firstLevel: bool): Result<seq<Extent>>
    decreases depth, 0, 0
  {
    match CheckNode(volume, data, depth, firstLevel)
    case Err(error) => Err(error)
    case Ok(entries) =>
      if depth == 0 then LeafEntries(data, entries) else ChildLeaves(volume, data, depth - 1, entries)
  }

  /** The leaf entries below the first `n` children of an index node. */
  function ChildLeaves(volume: Volume, data: seq<Byte>, childDepth: nat, n: nat): Result<seq<Extent>>
    requires 12 + 12 * n <= |data|
    decreases childDepth, 1, n
  {
    if n == 0 then Ok([])
    else
      var before := ChildLeaves(volume, data, childDepth, n - 1);
      if before.Err? then before
      else
        match volume.load(ChildBlock(data, 12 * n))
        case Err(error) => Err(error)
        case Ok(block) =>
          var below := Leaves(volume, block, childDepth, false);
          if below.Err? then below else Ok(before.value + below.value)
  }

  lemma {:induction false} LeafEntriesNonEmpty(data: seq<Byte>, n: nat)
    requires 12 + 12 * n <= |data|
    ensures var r := LeafEntries(data, n); r.Ok? ==> forall e <- r.value :: e.len > 0
  {
    if n > 0 {
      LeafEntriesNonEmpty(data, n - 1);
    }
  }

  lemma {:induction false} LeavesNonEmpty(volume: Volume, data: seq<Byte>, depth: nat, firstLevel: bool)
    ensures var r := Leaves(volume, data, depth, firstLevel); r.Ok? ==> forall e <- r.value :: e.len > 0
    decreases depth, 0, 0
  {
    var checked := CheckNode(volume, data, depth, firstLevel);
    if checked.Ok? {
      if depth == 0 {
        LeafEntriesNonEmpty(data, checked.value);
      } else {
        ChildLeavesNonEmpty(volume, data, depth - 1, checked.value);
      }
    }
  }

  lemma {:induction false} ChildLeavesNonEmpty(volume: Volume, data: seq<Byte>, childDepth: nat, n: nat)
    requires 12 + 12 * n <= |data|
    ensures var r := ChildLeaves(volume, data, childDepth, n); r.Ok? ==> forall e <- r.value :: e.len > 0
    decreases childDepth, 1, n
  {
    if n > 0 {
      ChildLeavesNonEmpty(volume, data, childDepth, n - 1);
      var block := volume.load(ChildBlock(data, 12 * n));
      if block.Ok? {
        LeavesNonEmpty(volume, block.value, childDepth, false);
      }
    }
  }

  lemma {:induction false} LeafErrorStays(data: seq<Byte>, n: nat, m: nat)
    requires n <= m && 12 + 12 * m <= |data| && LeafEntries(data, n).Err?
    ensures LeafEntries(data, m) == LeafEntries(data, n)
  {
    if n < m {
      LeafErrorStays(data, n, m - 1);
    }
  }

  lemma {:induction false} ChildErrorStays(volume: Volume, data: seq<Byte>, childDepth: nat, n: nat, m: nat)
    requires n <= m && 12 + 12 * m <= |data| && ChildLeaves(volume, data, childDepth, n).Err?
    ensures ChildLeaves(volume, data, childDepth, m) == ChildLeaves(volume, data, childDepth, n)
  {
    if n < m {
      ChildErrorStays(volume, data, childDepth, n, m - 1);
    }
  }

  // ---------------------------------------------------------------- bags of extents

  predicate Apart(a: Extent, b: Extent) {
    a.part + a.len <= b.part || b.part + b.len <= a.part
  }

  /** A bag of leaf entries that a file can have: 32-bit ranges that never overlap. */
  ghost predicate Loadable(bag: multiset<Extent>) {
    && (forall e <- bag :: e.part + e.len <= U32_MAX && bag[e] == 1)
    && (forall a, b | a in bag && b in bag && a != b :: Apart(a, b))
  }

  predicate SortedByPart(extents: seq<Extent>) {
    forall i, j :: 0 <= i < j < |extents| ==> extents[i].part <= extents[j].part
  }

  /** Two positions of a sequence that hold the same value count twice in its bag. */
  lemma TwiceInBag(extents: seq<Extent>, i: nat, j: nat)
    requires i < j < |extents| && extents[i] == extents[j]
    ensures multiset(extents)[extents[i]] >= 2
  {
    var a, b := extents[..j], extents[j..];
    assert extents == a + b && a[i] == extents[i] && b[0] == extents[i];
    assert multiset(extents) == multiset(a) + multiset(b);
  }

  lemma {:induction false} OnceInBag(extents: seq<Extent>, e: Extent)
    requires forall i, j :: 0 <= i < j < |extents| ==> extents[i] != extents[j]
    ensures multiset(extents)[e] <= 1
  {
    if extents != [] {
      var init, last := extents[..|extents| - 1], extents[|extents| - 1];
      OnceInBag(init, e);
      assert extents == init + [last];
      assert last !in init;
    }
  }

  lemma InOrder(extents: seq<Extent>, a: Extent, b: Extent)
    requires WellFormed(extents) && a in extents && b in extents && a != b
    ensures Apart(a, b)
  {
    var i :| 0 <= i < |extents| && extents[i] == a;
    var j :| 0 <= j < |extents| && extents[j] == b;
    assert i < j || j < i;
  }

  lemma WellFormedIsLoadable(extents: seq<Extent>)
    requires WellFormed(extents)
    ensures Loadable(multiset(extents))
  {
    var bag := multiset(extents);
    forall i, j | 0 <= i < j < |extents| ensures extents[i] != extents[j] {
      assert extents[i] in extents;
    }
    forall e <- bag ensures e.part + e.len <= U32_MAX && bag[e] == 1 {
      OnceInBag(extents, e);
      assert e in extents;
    }
    forall a, b | a in bag && b in bag && a != b ensures Apart(a, b) {
      InOrder(extents, a, b);
    }
  }

  lemma LoadableIsWellFormed(extents: seq<Extent>)
    requires SortedByPart(extents) && Loadable(multiset(extents)) && forall e <- extents :: e.len > 0
    ensures WellFormed(extents)
  {
    forall i, j | 0 <= i < j < |extents| ensures extents[i].part + extents[i].len <= extents[j].part {
      assert extents[i] in multiset(extents) && extents[j] in multiset(extents);
      if extents[i] == extents[j] {
        TwiceInBag(extents, i, j);
      } else {
        assert Apart(extents[i], extents[j]);
      }
    }
    forall e <- extents ensures e.part + e.len <= U32_MAX {
      assert e in multiset(extents);
    }
  }

  lemma {:induction false} AdjacentIsWellFormed(extents: seq<Extent>)
    requires forall e <- extents :: e.len > 0 && e.part + e.len <= U32_MAX
    requires forall j :: 0 < j < |extents| ==> extents[j - 1].part + extents[j - 1].len <= extents[j].part
    ensures WellFormed(extents)
  {
    if |extents| > 1 {
      var init := extents[..|extents| - 1];
      AdjacentIsWellFormed(init);
      forall i, j | 0 <= i < j < |extents| ensures extents[i].part + extents[i].len <= extents[j].part {
        if j < |extents| - 1 {
          assert init[i].part + init[i].len <= init[j].part;
        } else if i < j - 1 {
          assert init[i].part + init[i].len <= init[j - 1].part;
        }
      }
    }
  }

  lemma HeadIsLeast(a: seq<Extent>, i: nat)
    requires WellFormed(a) && i < |a|
    ensures a[0].part <= a[i].part && (i > 0 ==> a[0].part < a[i].part)
  {
    assert a[0] in a;
  }

  /** The first extent of a well-formed list is the only one of its bag that starts so low. */
  lemma SameHead(a: seq<Extent>, b: seq<Extent>)
    requires WellFormed(a) && WellFormed(b) && multiset(a) == multiset(b) && a != [] && b != []
    ensures a[0] == b[0]
  {
    assert a[0] in multiset(b) && b[0] in multiset(a);
    var i :| 0 <= i < |a| && a[i] == b[0];
    var j :| 0 <= j < |b| && b[j] == a[0];
    HeadIsLeast(a, i);
    HeadIsLeast(b, j);
  }

  lemma BagOfTail(a: seq<Extent>)
    requires a != []
    ensures multiset(a[1..]) == multiset(a) - multiset{a[0]}
  {
    assert a == [a[0]] + a[1..];
  }

  lemma WellFormedTail(a: seq<Extent>)
    requires WellFormed(a) && a != []
    ensures WellFormed(a[1..])
  {
  }

  /** There is only one well-formed list of a given bag of extents. */
  lemma {:induction false} WellFormedUnique(a: seq<Extent>, b: seq<Extent>)
    requires WellFormed(a) && WellFormed(b) && multiset(a) == multiset(b)
    ensures a == b
  {
    hide WellFormed;
    assert |multiset(a)| == |a| && |multiset(b)| == |b|;
    if a != [] {
      SameHead(a, b);
      WellFormedTail(a);
      WellFormedTail(b);
      BagOfTail(a);
      BagOfTail(b);
      WellFormedUnique(a[1..], b[1..]);
      assert a == [a[0]] + a[1..] && b == [b[0]] + b[1..];
    }
  }

  /** What a successful load of the tree under an inode core means. */
  ghost predicate LoadsTo(volume: Volume, core: seq<Byte>, extents: seq<Extent>)
    requires |core| == INODE_CORE_SIZE
  {
    var leaves := Leaves(volume, core, Le(core, 6, 2), true);
    leaves.Ok? && WellFormed(extents) && multiset(extents) == multiset(leaves.value)
  }

  /** Trees with the same leaf entries give the same list, so every block lookup agrees. */
  lemma ShapeIrrelevant(va: Volume, ca: seq<Byte>, a: seq<Extent>, vb: Volume, cb: seq<Byte>, b: seq<Extent>)
    requires |ca| == |cb| == INODE_CORE_SIZE && LoadsTo(va, ca, a) && LoadsTo(vb, cb, b)
    requires multiset(Leaves(va, ca, Le(ca, 6, 2), true).value) == multiset(Leaves(vb, cb, Le(cb, 6, 2), true).value)
    ensures a == b && forall part: U32 :: FindPart(part, a) == FindPart(part, b)
  {
    WellFormedUnique(a, b);
  }

  // ---------------------------------------------------------------- the loader

  /** The list with the element at `from` moved down to `to`. */
  function Moved(extents: seq<Extent>, to: nat, from: nat): (r: seq<Extent>)
    requires to <= from < |extents|
    ensures |r| == |extents|
  {
    extents[..to] + [extents[from]] + extents[to..from] + extents[from + 1..]
  }

  lemma InsertSorted(a: seq<Extent>, e: Extent, b: seq<Extent>)
    requires SortedByPart(a + b) && (a != [] ==> a[|a| - 1].part <= e.part) && forall x <- b :: e.part < x.part
    ensures SortedByPart(a + [e] + b)
  {
    var ab, moved := a + b, a + [e] + b;
    forall i, j | 0 <= i < j < |moved| ensures moved[i].part <= moved[j].part {
      if j < |a| {
        assert moved[i] == ab[i] && moved[j] == ab[j];
      } else if i < |a| {
        assert moved[i] == ab[i] && (i < |a| - 1 ==> ab[i].part <= ab[|a| - 1].part);
        assert ab[|a| - 1] == a[|a| - 1];
        if j > |a| { assert moved[j] == b[j - |a| - 1]; }
      } else if i > |a| {
        assert moved[i] == ab[i - 1] && moved[j] == ab[j - 1];
      } else {
        assert moved[j] == b[j - |a| - 1];
      }
    }
  }

  lemma MovedBag(a: seq<Extent>, b: seq<Extent>, e: Extent, c: seq<Extent>)
    ensures multiset(a + [e] + b + c) == multiset(a + b + [e] + c)
  {
  }

  lemma MoveDown(extents: seq<Extent>, to: nat, from: nat)
    requires to <= from < |extents| && SortedByPart(extents[..from])
    requires to > 0 ==> extents[to - 1].part <= extents[from].part
    requires forall x <- extents[to..from] :: extents[from].part < x.part
    ensures SortedByPart(Moved(extents, to, from)[..from + 1])
    ensures multiset(Moved(extents, to, from)) == multiset(extents)
  {
    hide SortedByPart;
    var a, b, c, e := extents[..to], extents[to..from], extents[from + 1..], extents[from];
    assert extents[..from] == a + b;
    InsertSorted(a, e, b);
    MovedBag(a, b, e, c);
    assert Moved(extents, to, from)[..from + 1] == a + [e] + b;
    assert extents == a + b + [e] + c;
  }

  class ExtentLoader {
    const volume: Volume
    var extents: seq<Extent>

    constructor (volume: Volume)
      ensures this.volume == volume && extents == []
    {
      this.volume := volume;
      extents := [];
    }

    /** Appends the entries of a leaf node. */
    method AddLeafEntries(data: seq<Byte>, entries: nat) returns (r: Option<TreeError>)
      requires 12 + 12 * entries <= |data|
      modifies this`extents
      ensures match LeafEntries(data, entries)
              case Ok(found) => r == None && extents == old(extents) + found
              case Err(error) => r == Some(error)
    {
      hide LeafEntry;
      for en := 0 to entries
        invariant LeafEntries(data, en).Ok? && extents == old(extents) + LeafEntries(data, en).value
      {
        var e := LeafEntry(data, 12 + en * 12);
        if e.len == 0 {
          LeafErrorStays(data, en + 1, entries);
          return Some(EmptyExtent);
        }
        extents := extents + [e];
      }
      r := None;
    }

    /** Appends the leaf entries below a node, in order, or reports the first error. */
    method AddFoundExtents(data: seq<Byte>, expectedDepth: nat, firstLevel: bool) returns (r: Option<TreeError>)
      modifies this`extents
      ensures match Leaves(volume, data, expectedDepth, firstLevel)
              case Ok(found) => r == None && extents == old(extents) + found
              case Err(error) => r == Some(error)
      decreases expectedDepth
    {
      hide CheckNode, LeafEntries, ChildBlock;
      var checked := CheckNode(volume, data, expectedDepth, firstLevel);
      if checked.Err? {
        return Some(checked.error);
      }
      var entries := checked.value;
      if expectedDepth == 0 {
        r := AddLeafEntries(data, entries);
        return;
      }
      ghost var below := ChildLeaves(volume, data, expectedDepth - 1, entries);
      assert Leaves(volume, data, expectedDepth, firstLevel) == below;
      for en := 0 to entries
        invariant ChildLeaves(volume, data, expectedDepth - 1, en).Ok?
        invariant extents == old(extents) + ChildLeaves(volume, data, expectedDepth - 1, en).value
      {
        var block := volume.load(ChildBlock(data, 12 + en * 12));
        if block.Err? {
          ChildErrorStays(volume, data, expectedDepth - 1, en + 1, entries);
          return Some(block.error);
        }
        r := AddFoundExtents(block.value, expectedDepth - 1, false);
        if r.Some? {
          ChildErrorStays(volume, data, expectedDepth - 1, en + 1, entries);
          return;
        }
      }
      r := None;
    }

    /** Sorts the collected extents by logical block, keeping the bag (insertion, left to right). */
    method SortByPart()
      modifies this`extents
      ensures SortedByPart(extents) && multiset(extents) == multiset(old(extents))
    {
      var done := 0;
      while done < |extents|
        invariant done <= |extents| == |old(extents)|
        invariant SortedByPart(extents[..done]) && multiset(extents) == multiset(old(extents))
      {
        var at, e := done, extents[done];
        while at > 0 && extents[at - 1].part > e.part
          invariant at <= done
          invariant forall x <- extents[at..done] :: e.part < x.part
        {
          assert extents[at - 1..done] == [extents[at - 1]] + extents[at..done];
          at := at - 1;
        }
        MoveDown(extents, at, done);
        extents := Moved(extents, at, done);
        done := done + 1;
      }
      assert extents[..done] == extents;
    }

    /**
     * Loads a whole tree from the inode core. It succeeds exactly if the tree can be read and its
     * leaf entries are loadable, and then yields the one well-formed order of those entries.
     */
    method Load(core: seq<Byte>) returns (r: Result<seq<Extent>>)
      requires |core| == INODE_CORE_SIZE && extents == []
      modifies this`extents
      ensures r.Ok? <==>
                && core[0] == 0x0A && core[1] == 0xF3 && Le(core, 6, 2) <= MAX_DEPTH
                && var leaves := Leaves(volume, core, Le(core, 6, 2), true);
                   leaves.Ok? && Loadable(multiset(leaves.value))
      ensures r.Ok? ==> LoadsTo(volume, core, r.value)
    {
      hide Leaves, SortedByPart, Loadable;
      if core[0] != 0x0A || core[1] != 0xF3 {
        return Err(BadMagic);
      }
      var depth := Le(core, 6, 2);
      if depth > MAX_DEPTH {
        return Err(DepthTooHigh);
      }
      var failed := AddFoundExtents(core, depth, true);
      if failed.Some? {
        return Err(failed.value);
      }
      LeavesNonEmpty(volume, core, depth, true);
      ghost var found := extents;
      assert found == Leaves(volume, core, depth, true).value;
      SortByPart();
      assert forall e <- extents :: e in multiset(found) && e.len > 0;
      r := Check();
    }

    /** The range and overlap checks on the sorted list. */
    method Check() returns (r: Result<seq<Extent>>)
      requires SortedByPart(extents) && forall e <- extents :: e.len > 0
      ensures r.Ok? <==> Loadable(multiset(extents))
      ensures r.Ok? ==> r.value == extents && WellFormed(extents)
    {
      hide SortedByPart, Loadable;
      if Loadable(multiset(extents)) {
        LoadableIsWellFormed(extents);
      }
      for i := 0 to |extents|
        invariant forall j :: 0 <= j < i ==> extents[j].part + extents[j].len <= U32_MAX
      {
        if extents[i].part + extents[i].len > U32_MAX {
          assert extents[i] in extents;
          return Err(RangeOverflow);
        }
      }
      var i := 1;
      while i < |extents|
        invariant forall j :: 0 < j < i && j < |extents| ==> extents[j - 1].part + extents[j - 1].len <= extents[j].part
      {
        if extents[i - 1].part + extents[i - 1].len > extents[i].part {
          assert extents[i - 1] in extents;
          return Err(Overlap);
        }
        i := i + 1;
      }
      AdjacentIsWellFormed(extents);
      WellFormedIsLoadable(extents);
      r := Ok(extents);
    }
  }
}
