// Extents, the sparse logical file they describe, and the extent search of the ext4 reader.
module ExtentFile {
  import opened Basics

  /** `len` blocks of file data from logical block `part` on, stored at physical block `start`. */
  datatype Extent = Extent(part: U32, start: nat, len: nat, initialized: bool)

  datatype FoundPart = Actual(extent: Extent) | Sparse(blocks: nat)

  function FindPart(part: U32, extents: seq<Extent>): FoundPart {
    if extents == [] then Sparse(U32_MAX)
    else
      var e := extents[0];
      var end := Min(e.part + e.len, U32_MAX);
      if part < e.part then Sparse(e.part - part)
      else if part < end then if e.initialized then Actual(e) else Sparse(end - part)
      else FindPart(part, extents[1..])
  }

  predicate Holds(e: Extent, block: nat) {
    e.part <= block < e.part + e.len
  }

  /** What a loaded extent tree guarantees: non-empty, within 32 bits, sorted and disjoint. */
  predicate WellFormed(extents: seq<Extent>) {
    && (forall e <- extents :: e.len > 0 && e.part + e.len <= U32_MAX)
    && (forall i, j :: 0 <= i < j < |extents| ==> extents[i].part + extents[i].len <= extents[j].part)
  }

  // ---------------------------------------------------------------- the sparse logical file

  /** The initialized extent that holds a block, if there is one. */
  function Backing(extents: seq<Extent>, block: nat): (r: Option<Extent>)
    ensures r.Some? ==> r.value in extents && r.value.initialized && Holds(r.value, block)
    ensures r.None? ==> forall e <- extents :: e.initialized ==> !Holds(e, block)
  {
    if extents == [] then None
    else if extents[0].initialized && Holds(extents[0], block) then Some(extents[0])
    else Backing(extents[1..], block)
  }

  /** The disk offset of file byte `p`, when `e` holds it. */
  function DiskOffset(e: Extent, blockSize: nat, p: nat): int {
    e.start * blockSize + (p - e.part * blockSize)
  }

  /** Byte `p` of the file: the disk byte of the initialized extent that covers it, else zero. */
  function FileByte(extents: seq<Extent>, blockSize: nat, disk: seq<Byte>, p: nat): Byte
    requires blockSize > 0
  {
    match Backing(extents, p / blockSize)
    case None => 0
    case Some(e) =>
      var offset := DiskOffset(e, blockSize, p);
      if 0 <= offset < |disk| then disk[offset] else 0
  }

  /** What holds file byte `p`, if anything does, lies within the first `size` bytes of the disk. */
  predicate OnDisk(extents: seq<Extent>, blockSize: nat, size: nat, p: nat)
    requires blockSize > 0
  {
    match Backing(extents, p / blockSize)
    case None => true
    case Some(e) => DiskOffset(e, blockSize, p) < size
  }

  ghost predicate AllOnDisk(extents: seq<Extent>, blockSize: nat, size: nat, from: nat, to: nat)
    requires blockSize > 0
  {
    forall p: nat | from <= p < to :: OnDisk(extents, blockSize, size, p)
  }

  function FileSlice(extents: seq<Extent>, blockSize: nat, disk: seq<Byte>, p: nat, n: nat): (s: seq<Byte>)
    requires blockSize > 0
    ensures |s| == n
    ensures forall i :: 0 <= i < n ==> s[i] == FileByte(extents, blockSize, disk, p + i)
  {
    seq<Byte>(n, i requires 0 <= i => FileByte(extents, blockSize, disk, p + i))
  }

  lemma FileSliceConcat(extents: seq<Extent>, blockSize: nat, disk: seq<Byte>, p: nat, n: nat, m: nat)
    requires blockSize > 0
    ensures FileSlice(extents, blockSize, disk, p, n) + FileSlice(extents, blockSize, disk, p + n, m)
         == FileSlice(extents, blockSize, disk, p, n + m)
  {
  }

  /** In a well-formed list the covering initialized extent is unique. */
  lemma BackingUnique(extents: seq<Extent>, block: nat, e: Extent)
    requires WellFormed(extents) && e in extents && e.initialized && Holds(e, block)
    ensures Backing(extents, block) == Some(e)
  {
    var other := Backing(extents, block).value;
    var i :| 0 <= i < |extents| && extents[i] == e;
    var j :| 0 <= j < |extents| && extents[j] == other;
    assert !(i < j) && !(j < i);
  }

  /** Nothing lies before the first extent, and nothing but it in its own blocks. */
  lemma NothingBetween(extents: seq<Extent>, block: nat)
    requires WellFormed(extents) && extents != []
    requires block < extents[0].part || (Holds(extents[0], block) && !extents[0].initialized)
    ensures Backing(extents, block) == None
  {
    forall i | 0 <= i < |extents| ensures !(extents[i].initialized && Holds(extents[i], block)) {
      if i > 0 {
        assert extents[0].part + extents[0].len <= extents[i].part;
      }
    }
  }

  /**
   * The search is right about the block it was asked for and about the whole run of blocks it
   * answers for: an actual extent holds the block, a sparse run meets no initialized extent.
   */
  lemma {:induction false} FindPartMeans(part: U32, extents: seq<Extent>)
    requires WellFormed(extents)
    ensures var found := FindPart(part, extents);
            match found
            case Actual(e) => e in extents && e.initialized && Holds(e, part)
            case Sparse(blocks) => blocks > 0 && forall b :: part <= b < part + blocks ==> Backing(extents, b) == None
  {
    if extents != [] {
      var e := extents[0];
      if part >= e.part && part >= e.part + e.len {
        assert WellFormed(extents[1..]);
        FindPartMeans(part, extents[1..]);
      } else {
        var found := FindPart(part, extents);
        forall b | found.Sparse? && part <= b < part + found.blocks ensures Backing(extents, b) == None {
          NothingBetween(extents, b);
        }
      }
    }
  }

  // ---------------------------------------------------------------- block arithmetic

  lemma BlockOf(p: nat, blockSize: nat, lo: nat, hi: nat)
    requires blockSize > 0 && lo * blockSize <= p < hi * blockSize
    ensures lo <= p / blockSize < hi
  {
    var b := p / blockSize;
    assert b * blockSize <= p < b * blockSize + blockSize;
    if b < lo {
      MulMono(b + 1, lo, blockSize);
    }
    if b >= hi {
      MulMono(hi, b, blockSize);
    }
  }

  lemma MulAdd(a: nat, b: nat, c: nat)
    ensures (a + b) * c == a * c + b * c
  {
  }

  lemma MulMono(a: nat, b: nat, c: nat)
    requires a <= b
    ensures a * c <= b * c
  {
  }

  // ---------------------------------------------------------------- what one read serves

  /** The bytes the reader puts into the buffer: a piece of the extent, or zeros. */
  function Served(found: FoundPart, blockSize: nat, disk: seq<Byte>, p: nat, n: nat): (s: seq<Byte>)
    requires blockSize > 0
    requires found.Actual? && n > 0 ==> 0 <= DiskOffset(found.extent, blockSize, p) <= |disk| - n
    ensures |s| == n
  {
    if found.Actual? && n > 0 then
      var offset := DiskOffset(found.extent, blockSize, p);
      disk[offset..offset + n]
    else seq<Byte>(n, _ => 0)
  }

  /** How many zero bytes the hole arm of a read writes: it counts whole blocks from the block start. */
  function HoleCount(blocks: nat, blockSize: nat, want: nat, left: nat): nat {
    Min(Min(blocks * blockSize, want), left)
  }

  /** The hole arm with the bytes already behind the position taken off the run. */
  function CorrectedHoleCount(blocks: nat, blockSize: nat, p: nat, want: nat, left: nat): nat
    requires blockSize > 0 && blocks > 0
  {
    MulMono(1, blocks, blockSize);
    Min(Min(blocks * blockSize - p % blockSize, want), left)
  }

  /** A byte inside an initialized extent is the disk byte behind it. */
  lemma ExtentByte(extents: seq<Extent>, blockSize: nat, disk: seq<Byte>, p: nat, e: Extent)
    requires blockSize > 0 && WellFormed(extents) && e in extents && e.initialized
    requires e.part * blockSize <= p < (e.part + e.len) * blockSize && DiskOffset(e, blockSize, p) < |disk|
    ensures FileByte(extents, blockSize, disk, p) == disk[DiskOffset(e, blockSize, p)]
  {
    BlockOf(p, blockSize, e.part, e.part + e.len);
    BackingUnique(extents, p / blockSize, e);
  }

  /** Inside an actual extent every byte up to its end is served correctly. */
  lemma ActualServes(extents: seq<Extent>, blockSize: nat, disk: seq<Byte>, p: nat, n: nat, e: Extent)
    requires blockSize > 0 && WellFormed(extents) && e in extents && e.initialized
    requires e.part * blockSize <= p && p + n <= (e.part + e.len) * blockSize
    requires n > 0 ==> DiskOffset(e, blockSize, p) + n <= |disk|
    ensures Served(Actual(e), blockSize, disk, p, n) == FileSlice(extents, blockSize, disk, p, n)
  {
    hide WellFormed, FileByte;
    var served, wanted := Served(Actual(e), blockSize, disk, p, n), FileSlice(extents, blockSize, disk, p, n);
    forall i | 0 <= i < n ensures served[i] == wanted[i] {
      assert DiskOffset(e, blockSize, p + i) == DiskOffset(e, blockSize, p) + i;
      ExtentByte(extents, blockSize, disk, p + i, e);
    }
  }

  /** What is served of an extent lies on disk. */
  lemma ActualOnDisk(extents: seq<Extent>, blockSize: nat, size: nat, p: nat, n: nat, e: Extent)
    requires blockSize > 0 && WellFormed(extents) && e in extents && e.initialized
    requires e.part * blockSize <= p && p + n <= (e.part + e.len) * blockSize
    requires n > 0 ==> DiskOffset(e, blockSize, p) + n <= size
    ensures AllOnDisk(extents, blockSize, size, p, p + n)
  {
    hide WellFormed;
    forall q: nat | p <= q < p + n ensures OnDisk(extents, blockSize, size, q) {
      assert DiskOffset(e, blockSize, q) == DiskOffset(e, blockSize, p) + (q - p);
      BlockOf(q, blockSize, e.part, e.part + e.len);
      BackingUnique(extents, q / blockSize, e);
    }
  }

  /** Bytes of a run of blocks without an initialized extent are zero. */
  lemma HoleByte(extents: seq<Extent>, blockSize: nat, disk: seq<Byte>, first: nat, blocks: nat, p: nat)
    requires blockSize > 0 && first * blockSize <= p < (first + blocks) * blockSize
    requires forall b :: first <= b < first + blocks ==> Backing(extents, b) == None
    ensures FileByte(extents, blockSize, disk, p) == 0
  {
    BlockOf(p, blockSize, first, first + blocks);
  }

  /** With the bytes already passed taken off, the hole arm is right at every position. */
  lemma CorrectedHoleServes(extents: seq<Extent>, blockSize: nat, disk: seq<Byte>, p: nat, want: nat, left: nat)
    requires blockSize > 0 && WellFormed(extents) && p / blockSize <= U32_MAX
    requires FindPart(p / blockSize, extents).Sparse?
    ensures var found := FindPart(p / blockSize, extents);
            && found.blocks > 0
            && var n := CorrectedHoleCount(found.blocks, blockSize, p, want, left);
               && (want > 0 && left > 0 ==> n > 0)
               && Served(found, blockSize, disk, p, n) == FileSlice(extents, blockSize, disk, p, n)
  {
    hide FindPart, Backing;
    var block := p / blockSize;
    var found := FindPart(block, extents);
    FindPartMeans(block, extents);
    MulMono(1, found.blocks, blockSize);
    var n := CorrectedHoleCount(found.blocks, blockSize, p, want, left);
    forall i | 0 <= i < n ensures FileSlice(extents, blockSize, disk, p, n)[i] == 0 {
      HoleReach(blockSize, p, found.blocks, i);
      HoleByte(extents, blockSize, disk, block, found.blocks, p + i);
    }
  }

  /**
   * When the hole arm as written is right, as a caller can tell before the read: it stays inside
   * the run, or the block behind the run has no data on disk either.
   */
  predicate HoleSafe(extents: seq<Extent>, blockSize: nat, p: nat, want: nat, left: nat)
    requires blockSize > 0 && p / blockSize <= U32_MAX
  {
    var block := p / blockSize;
    var found := FindPart(block, extents);
    found.Sparse? ==>
      || p % blockSize + HoleCount(found.blocks, blockSize, want, left) <= found.blocks * blockSize
      || Backing(extents, block + found.blocks) == None
  }

  /** A hole read of at most `blocks` whole blocks overshoots its run by less than one block. */
  lemma HoleReach(blockSize: nat, p: nat, blocks: nat, i: nat)
    requires blockSize > 0 && i < blocks * blockSize
    ensures var block := p / blockSize;
            && block * blockSize <= p + i < (block + blocks + 1) * blockSize
            && (p + i < (block + blocks) * blockSize <==> p % blockSize + i < blocks * blockSize)
  {
    var block := p / blockSize;
    assert p == block * blockSize + p % blockSize;
    MulAdd(block, blocks, blockSize);
    MulAdd(block + blocks, 1, blockSize);
  }

  lemma HoleSafeServes(extents: seq<Extent>, blockSize: nat, disk: seq<Byte>, p: nat, want: nat, left: nat)
    requires blockSize > 0 && WellFormed(extents) && p / blockSize <= U32_MAX
    requires FindPart(p / blockSize, extents).Sparse? && HoleSafe(extents, blockSize, p, want, left)
    ensures var found := FindPart(p / blockSize, extents);
            var n := HoleCount(found.blocks, blockSize, want, left);
            Served(found, blockSize, disk, p, n) == FileSlice(extents, blockSize, disk, p, n)
  {
    hide FindPart, Backing;
    var block := p / blockSize;
    var found := FindPart(block, extents);
    FindPartMeans(block, extents);
    var n := HoleCount(found.blocks, blockSize, want, left);
    forall i | 0 <= i < n ensures FileSlice(extents, blockSize, disk, p, n)[i] == 0 {
      HoleReach(blockSize, p, found.blocks, i);
      if p % blockSize + i < found.blocks * blockSize {
        HoleByte(extents, blockSize, disk, block, found.blocks, p + i);
      } else {
        HoleByte(extents, blockSize, disk, block + found.blocks, 1, p + i);
      }
    }
  }

  /** A hole read under the guard meets nothing that would have to be on disk. */
  lemma HoleSafeOnDisk(extents: seq<Extent>, blockSize: nat, size: nat, p: nat, want: nat, left: nat)
    requires blockSize > 0 && WellFormed(extents) && p / blockSize <= U32_MAX
    requires FindPart(p / blockSize, extents).Sparse? && HoleSafe(extents, blockSize, p, want, left)
    ensures AllOnDisk(extents, blockSize, size, p, p + HoleCount(FindPart(p / blockSize, extents).blocks, blockSize, want, left))
  {
    hide FindPart, Backing;
    var block := p / blockSize;
    var found := FindPart(block, extents);
    FindPartMeans(block, extents);
    var n := HoleCount(found.blocks, blockSize, want, left);
    forall q: nat | p <= q < p + n ensures OnDisk(extents, blockSize, size, q) {
      HoleReach(blockSize, p, found.blocks, q - p);
      BlockOf(q, blockSize, block, block + found.blocks + 1);
      if p % blockSize + (q - p) < found.blocks * blockSize {
        BlockOf(q, blockSize, block, block + found.blocks);
      }
    }
  }

  /** Byte `q` of the file is the disk byte behind it, and lies within the extent on disk. */
  lemma DataByte(extents: seq<Extent>, blockSize: nat, disk: seq<Byte>, q: nat, block: nat, e: Extent)
    requires blockSize > 0 && block * blockSize <= q < (block + 1) * blockSize && Backing(extents, block) == Some(e)
    ensures e.start * blockSize <= DiskOffset(e, blockSize, q) < (e.start + e.len) * blockSize
    ensures DiskOffset(e, blockSize, q) < |disk| ==> FileByte(extents, blockSize, disk, q) == disk[DiskOffset(e, blockSize, q)]
  {
    BlockOf(q, blockSize, block, block + 1);
    MulMono(e.part, block, blockSize);
    MulMono(block + 1, e.part + e.len, blockSize);
    MulAdd(e.start, e.len, blockSize);
    MulAdd(e.part, e.len, blockSize);
  }

  /** A disk of ones. */
  function Ones(size: int): (disk: seq<Byte>)
    ensures (size >= 0 ==> |disk| == size) && forall b <- disk :: b == 1
  {
    seq<Byte>(if size >= 0 then size else 0, _ => 1)
  }

  lemma OnesFilled(blocks: nat, blockSize: nat)
    ensures |Ones(blocks * blockSize)| == blocks * blockSize
  {
  }

  /** Byte `q` of the file is data, so on a disk of ones that reaches so far it is one. */
  lemma DataShows(extents: seq<Extent>, blockSize: nat, q: nat, block: nat, e: Extent)
    requires blockSize > 0 && block * blockSize <= q < (block + 1) * blockSize && Backing(extents, block) == Some(e)
    ensures FileByte(extents, blockSize, Ones((e.start + e.len) * blockSize), q) == 1
  {
    hide Backing, DiskOffset, FileByte;
    var disk := Ones((e.start + e.len) * blockSize);
    OnesFilled(e.start + e.len, blockSize);
    DataByte(extents, blockSize, disk, q, block, e);
    assert disk[DiskOffset(e, blockSize, q)] in disk;
  }

  /** When the guard fails, a disk full of ones shows a data byte that the hole arm zeroes. */
  lemma HoleOvershoots(extents: seq<Extent>, blockSize: nat, p: nat, want: nat, left: nat)
    returns (disk: seq<Byte>)
    requires blockSize > 0 && WellFormed(extents) && p / blockSize <= U32_MAX
    requires !HoleSafe(extents, blockSize, p, want, left)
    ensures var found := FindPart(p / blockSize, extents);
            var n := HoleCount(found.blocks, blockSize, want, left);
            found.Sparse? && Served(found, blockSize, disk, p, n) != FileSlice(extents, blockSize, disk, p, n)
  {
    hide FindPart, Backing, WellFormed, FileByte, Ones;
    var block := p / blockSize;
    var found := FindPart(block, extents);
    var n := HoleCount(found.blocks, blockSize, want, left);
    FindPartMeans(block, extents);
    var e := Backing(extents, block + found.blocks).value;
    MulMono(1, found.blocks, blockSize);
    assert p % blockSize < blockSize <= found.blocks * blockSize;
    assert n > 0;
    disk := Ones((e.start + e.len) * blockSize);
    HoleReach(blockSize, p, found.blocks, n - 1);
    DataShows(extents, blockSize, p + n - 1, block + found.blocks, e);
    assert Served(found, blockSize, disk, p, n)[n - 1] == 0;
    assert FileSlice(extents, blockSize, disk, p, n)[n - 1] == 1;
  }

  /** Exactly when a read in a hole returns the file's bytes on every disk. */
  lemma HoleArmExact(extents: seq<Extent>, blockSize: nat, p: nat, want: nat, left: nat)
    requires blockSize > 0 && WellFormed(extents) && p / blockSize <= U32_MAX
    requires FindPart(p / blockSize, extents).Sparse?
    ensures HoleSafe(extents, blockSize, p, want, left) <==>
            var found := FindPart(p / blockSize, extents);
            var n := HoleCount(found.blocks, blockSize, want, left);
            forall disk: seq<Byte> ::
              Served(found, blockSize, disk, p, n) == FileSlice(extents, blockSize, disk, p, n)
  {
    if HoleSafe(extents, blockSize, p, want, left) {
      forall disk: seq<Byte> {
        HoleSafeServes(extents, blockSize, disk, p, want, left);
      }
    } else {
      var disk := HoleOvershoots(extents, blockSize, p, want, left);
    }
  }

  /** The file with an empty block of 4 bytes and one that is stored in block 5 of the disk. */
  lemma MidBlockHole(disk: seq<Byte>)
    requires |disk| >= 24
    ensures var extents, found := [Extent(1, 5, 1, true)], FindPart(2 / 4, [Extent(1, 5, 1, true)]);
            && found == Sparse(1) && HoleCount(1, 4, 6, 6) == 4
            && Served(found, 4, disk, 2, 4) == [0, 0, 0, 0]
            && FileSlice(extents, 4, disk, 2, 4) == [0, 0, disk[20], disk[21]]
  {
    var extents := [Extent(1, 5, 1, true)];
    assert Backing(extents, 0) == None;
    assert Backing(extents, 1) == Some(extents[0]);
    assert FileByte(extents, 4, disk, 2) == 0 && FileByte(extents, 4, disk, 3) == 0;
    assert FileByte(extents, 4, disk, 4) == disk[20] && FileByte(extents, 4, disk, 5) == disk[21];
  }
}
