// Extent trees as they are stored: a tree printed into blocks loads as its leaf entries, in order.
module ExtentPrinting {
  import opened Basics
  import opened ExtentFile
  import opened ExtentTrees

  /** A tree of extents; the blocks say where the children of an index node are stored. */
  datatype Tree = LeafNode(extents: seq<Extent>) | IndexNode(blocks: seq<nat>, children: seq<Tree>)

  /** The leaf entries of a tree, left to right. */
  function LeavesOf(tree: Tree): seq<Extent>
    decreases tree
  {
    match tree
    case LeafNode(extents) => extents
    case IndexNode(_, children) => LeavesOfAll(children)
  }

  function LeavesOfAll(trees: seq<Tree>): seq<Extent>
    decreases trees
  {
    if trees == [] then [] else LeavesOfAll(trees[..|trees| - 1]) + LeavesOf(trees[|trees| - 1])
  }

  // ---------------------------------------------------------------- printing

  /** A leaf entry can hold this extent: its length fits beside the mark, its start fits 48 bits. */
  predicate Printable(e: Extent) {
    0 < e.len <= (if e.initialized then 0x8000 else 0x7FFF) && e.start < 0x1_0000_0000_0000
  }

  function PrintExtent(e: Extent): (bytes: seq<Byte>)
    requires Printable(e)
    ensures |bytes| == 12
  {
    ToLe(e.part, 4) + ToLe(if e.initialized then e.len else e.len + 0x8000, 2)
    + ToLe(e.start / 0x1_0000_0000, 2) + ToLe(e.start % 0x1_0000_0000, 4)
  }

  /** An index entry for a block, from its fourth byte on; the two last bytes are unused. */
  function PrintBlock(block: nat): (bytes: seq<Byte>)
    ensures |bytes| == 6
  {
    ToLe(block % 0x1_0000_0000, 4) + ToLe(block / 0x1_0000_0000, 2)
  }

  /** The header of a node with this many entries; the checksum is right if there is one. */
  predicate HasHeader(volume: Volume, data: seq<Byte>, entries: nat, depth: nat, firstLevel: bool) {
    var checked := !firstLevel && volume.checksumPrefix.Some?;
    && entries <= U16_MAX && depth <= U16_MAX && 12 + 12 * entries + (if checked then 4 else 0) <= |data|
    && data[0] == 0x0A && data[1] == 0xF3
    && data[2..4] == ToLe(entries, 2) && entries <= Le(data, 4, 2) && data[6..8] == ToLe(depth, 2)
    && (checked ==> volume.crc(volume.checksumPrefix.value, data[..|data| - 4]) == Le(data, |data| - 4, 4))
  }

  predicate HasExtents(data: seq<Byte>, extents: seq<Extent>) {
    12 + 12 * |extents| <= |data| &&
    forall i :: 0 <= i < |extents| ==>
      Printable(extents[i]) && data[12 + 12 * i..24 + 12 * i] == PrintExtent(extents[i])
  }

  /** The bytes are a node of this tree, and so are the blocks its index entries point to. */
  predicate Stored(volume: Volume, data: seq<Byte>, tree: Tree, depth: nat, firstLevel: bool)
    decreases tree
  {
    match tree
    case LeafNode(extents) => depth == 0 && HasHeader(volume, data, |extents|, 0, firstLevel) && HasExtents(data, extents)
    case IndexNode(blocks, children) =>
      && depth > 0 && |blocks| == |children| && HasHeader(volume, data, |children|, depth, firstLevel)
      && StoredAll(volume, data, blocks, children, depth - 1)
  }

  predicate StoredAll(volume: Volume, data: seq<Byte>, blocks: seq<nat>, children: seq<Tree>, depth: nat)
    decreases children
  {
    && |blocks| == |children| && 12 + 12 * |children| <= |data|
    && (children != [] ==>
          var n := |children|;
          && StoredAll(volume, data, blocks[..n - 1], children[..n - 1], depth)
          && blocks[n - 1] < 0x1_0000_0000_0000 && data[12 * n + 4..12 * n + 10] == PrintBlock(blocks[n - 1])
          && volume.load(blocks[n - 1]).Ok?
          && Stored(volume, volume.load(blocks[n - 1]).value, children[n - 1], depth, false))
  }

  // ---------------------------------------------------------------- reading back

  lemma Bounds()
    ensures Pow256(2) == 0x1_0000 && Pow256(4) == 0x1_0000_0000
  {
    assert Pow256(2) == 256 * (256 * Pow256(0));
    assert Pow256(4) == 256 * (256 * (256 * (256 * Pow256(0))));
  }

  lemma HeaderReadBack(volume: Volume, data: seq<Byte>, entries: nat, depth: nat, firstLevel: bool)
    requires HasHeader(volume, data, entries, depth, firstLevel)
    ensures CheckNode(volume, data, depth, firstLevel) == Ok(entries)
  {
    hide Le, ToLe;
    Bounds();
    LeRoundTrip(data, 2, entries, 2);
    LeRoundTrip(data, 6, depth, 2);
  }

  lemma Part(data: seq<Byte>, at: nat, bytes: seq<Byte>, i: nat, j: nat)
    requires at + |bytes| <= |data| && data[at..at + |bytes|] == bytes && i <= j <= |bytes|
    ensures data[at + i..at + j] == bytes[i..j]
  {
    assert forall k :: 0 <= k < |bytes| ==> data[at + k] == bytes[k];
  }

  lemma ExtentReadBack(data: seq<Byte>, at: nat, e: Extent)
    requires at + 12 <= |data| && Printable(e) && data[at..at + 12] == PrintExtent(e)
    ensures LeafEntry(data, at) == e
  {
    hide Le, ToLe;
    Bounds();
    var bytes, encoded := PrintExtent(e), if e.initialized then e.len else e.len + 0x8000;
    Part(data, at, bytes, 0, 4);
    Part(data, at, bytes, 4, 6);
    Part(data, at, bytes, 6, 8);
    Part(data, at, bytes, 8, 12);
    LeRoundTrip(data, at, e.part, 4);
    LeRoundTrip(data, at + 4, encoded, 2);
    LeRoundTrip(data, at + 6, e.start / 0x1_0000_0000, 2);
    LeRoundTrip(data, at + 8, e.start % 0x1_0000_0000, 4);
  }

  lemma BlockReadBack(data: seq<Byte>, at: nat, block: nat)
    requires at + 12 <= |data| && block < 0x1_0000_0000_0000 && data[at + 4..at + 10] == PrintBlock(block)
    ensures ChildBlock(data, at) == block
  {
    hide Le, ToLe;
    Bounds();
    Part(data, at + 4, PrintBlock(block), 0, 4);
    Part(data, at + 4, PrintBlock(block), 4, 6);
    LeRoundTrip(data, at + 4, block % 0x1_0000_0000, 4);
    LeRoundTrip(data, at + 8, block / 0x1_0000_0000, 2);
  }

  lemma {:induction false} ExtentsReadBack(data: seq<Byte>, extents: seq<Extent>)
    requires HasExtents(data, extents)
    ensures LeafEntries(data, |extents|) == Ok(extents)
    decreases |extents|
  {
    hide LeafEntry, PrintExtent;
    if extents != [] {
      var n := |extents|;
      assert HasExtents(data, extents[..n - 1]);
      ExtentsReadBack(data, extents[..n - 1]);
      ExtentReadBack(data, 12 * n, extents[n - 1]);
      assert extents == extents[..n - 1] + [extents[n - 1]];
    }
  }

  /** A stored tree is read as its leaf entries in order. */
  lemma {:induction false} StoredTreeIsRead(volume: Volume, data: seq<Byte>, tree: Tree, depth: nat, firstLevel: bool)
    requires Stored(volume, data, tree, depth, firstLevel)
    ensures Leaves(volume, data, depth, firstLevel) == Ok(LeavesOf(tree))
    decreases tree
  {
    hide CheckNode, HasHeader, HasExtents;
    match tree
    case LeafNode(extents) =>
      HeaderReadBack(volume, data, |extents|, 0, firstLevel);
      ExtentsReadBack(data, extents);
    case IndexNode(blocks, children) =>
      HeaderReadBack(volume, data, |children|, depth, firstLevel);
      StoredChildrenAreRead(volume, data, blocks, children, depth - 1);
  }

  lemma {:induction false} StoredChildrenAreRead(volume: Volume, data: seq<Byte>, blocks: seq<nat>, children: seq<Tree>, depth: nat)
    requires StoredAll(volume, data, blocks, children, depth)
    ensures ChildLeaves(volume, data, depth, |children|) == Ok(LeavesOfAll(children))
    decreases children
  {
    hide Leaves, Stored, PrintBlock, ChildBlock;
    if children != [] {
      var n := |children|;
      StoredChildrenAreRead(volume, data, blocks[..n - 1], children[..n - 1], depth);
      BlockReadBack(data, 12 * n, blocks[n - 1]);
      StoredTreeIsRead(volume, volume.load(blocks[n - 1]).value, children[n - 1], depth, false);
    }
  }

  /** So what a stored tree loads to is the one well-formed order of its leaf entries. */
  lemma StoredTreeLoads(volume: Volume, core: seq<Byte>, tree: Tree, depth: nat, extents: seq<Extent>)
    requires |core| == INODE_CORE_SIZE && Stored(volume, core, tree, depth, true)
    ensures LoadsTo(volume, core, extents) <==> WellFormed(extents) && multiset(extents) == multiset(LeavesOf(tree))
  {
    hide HasHeader, HasExtents, StoredAll, Leaves, WellFormed, LeavesOf;
    assert HasHeader(volume, core, if tree.LeafNode? then |tree.extents| else |tree.children|, depth, true);
    HeaderDepth(volume, core, if tree.LeafNode? then |tree.extents| else |tree.children|, depth, true);
    StoredTreeIsRead(volume, core, tree, depth, true);
  }

  lemma HeaderDepth(volume: Volume, data: seq<Byte>, entries: nat, depth: nat, firstLevel: bool)
    requires HasHeader(volume, data, entries, depth, firstLevel)
    ensures Le(data, 6, 2) == depth
  {
    hide Le, ToLe;
    Bounds();
    LeRoundTrip(data, 6, depth, 2);
  }

  // ---------------------------------------------------------------- what is refused

  /** A node is accepted exactly if it has a right header for its depth. */
  lemma NodeAccepted(volume: Volume, data: seq<Byte>, depth: nat, firstLevel: bool, entries: nat)
    ensures CheckNode(volume, data, depth, firstLevel) == Ok(entries) <==> HasHeader(volume, data, entries, depth, firstLevel)
  {
    hide Le, ToLe;
    if HasHeader(volume, data, entries, depth, firstLevel) {
      HeaderReadBack(volume, data, entries, depth, firstLevel);
    }
    if CheckNode(volume, data, depth, firstLevel) == Ok(entries) {
      Bounds();
      LeBound(data, 2, 2);
      LeBound(data, 6, 2);
      LeInverse(data, 2, 2);
      LeInverse(data, 6, 2);
    }
  }

  /** The first thing that is wrong with a node is what is reported. */
  lemma NodeRefused(volume: Volume, data: seq<Byte>, depth: nat, firstLevel: bool)
    ensures var checked, r := !firstLevel && volume.checksumPrefix.Some?, CheckNode(volume, data, depth, firstLevel);
            if |data| < 12 then r == Err(NodeTooShort)
            else if data[0] != 0x0A || data[1] != 0xF3 then r == Err(BadMagic)
            else if Half(data, 6) != depth then r == Err(WrongDepth)
            else if Half(data, 2) > Half(data, 4) then r == Err(TooManyEntries)
            else if 12 + 12 * Half(data, 2) + (if checked then 4 else 0) > |data| then r == Err(EntriesOutOfBounds)
            else if checked && volume.crc(volume.checksumPrefix.value, data[..|data| - 4]) != Word(data, |data| - 4)
            then r == Err(BadChecksum)
            else r == Ok(Half(data, 2))
  {
    hide Le, Half, Word;
    FieldsAreNumbers(data, 2);
    FieldsAreNumbers(data, 4);
    FieldsAreNumbers(data, 6);
    if |data| >= 4 {
      FieldsAreNumbers(data, |data| - 4);
    }
  }
}
