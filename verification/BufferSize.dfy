// Which buffer sizes are right for reading every ext4 file from its start: whole blocks, whole parts of a
// block, and buffers that hold any hole with data behind it. With every other size some file comes out wrong.
module BufferSizes {
  import opened Basics
  import opened ExtentFile
  import opened SequentialReads
  import opened TreeReaders

  function Constant(w: nat): nat -> nat {
    (i: nat) => w
  }

  /** However a file is laid out and however the reads end, their guards hold. */
  ghost predicate AlwaysSafe(blockSize: nat, w: nat)
    requires blockSize > 0
  {
    forall extents: seq<Extent>, len: nat, pieces: seq<Piece> ::
      WellFormed(extents) && Traced(extents, blockSize, len, Constant(w), pieces) ==> AllSafe(extents, blockSize, len, pieces)
  }

  // ---------------------------------------------------------------- multiples

  lemma IsMultiple(a: nat, w: nat, q: nat)
    requires w > 0 && a == q * w
    ensures a % w == 0
  {
    MultipleOf(q, w);
  }

  lemma Quotient(a: nat, w: nat) returns (q: nat)
    requires w > 0 && a % w == 0
    ensures a == q * w
  {
    q := a / w;
  }

  lemma Compare(x: nat, y: nat, w: nat)
    ensures x < y ==> x * w + w <= y * w
    ensures y < x ==> y * w + w <= x * w
  {
    if x < y {
      MulMono(x + 1, y, w);
      MulAdd(x, 1, w);
    } else if y < x {
      MulMono(y + 1, x, w);
      MulAdd(y, 1, w);
    }
  }

  /** Sum, difference and distance of two multiples. */
  lemma Multiples(a: nat, b: nat, w: nat)
    requires w > 0 && a % w == 0 && b % w == 0
    ensures (a + b) % w == 0 && (a >= b ==> (a - b) % w == 0)
    ensures a < b ==> a + w <= b
  {
    var x := Quotient(a, w);
    var y := Quotient(b, w);
    Compare(x, y, w);
    MulAdd(x, y, w);
    IsMultiple(a + b, w, x + y);
    if a >= b {
      MulAdd(x - y, y, w);
      IsMultiple(a - b, w, x - y);
    }
  }

  lemma MultipleOfMultiple(x: nat, b: nat, w: nat)
    requires w > 0 && b % w == 0
    ensures x * b % w == 0
  {
    var y := Quotient(b, w);
    MulAssoc(x, y, w);
    IsMultiple(x * b, w, x * y);
  }

  lemma MulAssoc(x: nat, y: nat, w: nat)
    ensures x * (y * w) == x * y * w
  {
  }

  /** Being a multiple goes over to the divisor and to the remainder. */
  lemma Scaled(a: nat, b: nat, w: nat)
    requires w > 0 && b > 0 && b % w == 0
    ensures a % b == 0 ==> a % w == 0
    ensures a % w == 0 ==> a % b % w == 0
  {
    var x, rest := a / b, a % b;
    assert a == x * b + rest;
    MultipleOfMultiple(x, b, w);
    if a % w == 0 {
      Multiples(a, x * b, w);
    }
  }

  // ---------------------------------------------------------------- sizes that are right

  predicate Divides(blockSize: nat, w: nat)
    requires blockSize > 0 && w > 0
  {
    w % blockSize == 0 || blockSize % w == 0
  }

  /** A buffer that holds the longest hole that can have data behind it. */
  predicate HoldsAnyHole(blockSize: nat, w: nat)
    requires blockSize > 0
  {
    w / blockSize >= U32_MAX - 1
  }

  predicate RightSize(blockSize: nat, w: nat)
    requires blockSize > 0 && w > 0
  {
    Divides(blockSize, w) || HoldsAnyHole(blockSize, w)
  }

  ghost predicate NoDataFrom(extents: seq<Extent>, block: nat) {
    forall b: nat | b >= block :: Backing(extents, b) == None
  }

  /** Where reads with such buffers start: on a block, inside an extent, on a buffer's multiple, or behind all data. */
  ghost predicate Good(extents: seq<Extent>, blockSize: nat, w: nat, p: nat)
    requires blockSize > 0 && w > 0
  {
    Steady(extents, blockSize, p) || (blockSize % w == 0 && p % w == 0) || NoDataFrom(extents, p / blockSize)
  }

  lemma GoodIsSafe(extents: seq<Extent>, blockSize: nat, len: nat, w: nat, piece: Piece)
    requires blockSize > 0 && w > 0 && WellFormed(extents) && piece.want == w && Good(extents, blockSize, w, piece.at)
    ensures PieceSafe(extents, blockSize, len, piece)
  {
    hide FindPart, Backing, WellFormed;
    var p := piece.at;
    if p / blockSize <= U32_MAX && p <= len {
      if Steady(extents, blockSize, p) {
        SteadyIsSafe(extents, blockSize, p, w, len - p);
      } else if FindPart(p / blockSize, extents).Sparse? && !NoDataFrom(extents, p / blockSize) {
        var blocks := FindPart(p / blockSize, extents).blocks;
        FindPartMeans(p / blockSize, extents);
        Scaled(p, blockSize, w);
        Multiples(p % blockSize, blockSize, w);
        MulMono(1, blocks, blockSize);
      }
    }
  }

  lemma GoodStep(extents: seq<Extent>, blockSize: nat, len: nat, w: nat, piece: Piece)
    requires blockSize > 0 && w > 0 && RightSize(blockSize, w) && WellFormed(extents)
    requires IsRead(extents, blockSize, len, piece) && piece.want == w && Good(extents, blockSize, w, piece.at)
    ensures piece.at + piece.n == len || Good(extents, blockSize, w, piece.at + piece.n)
  {
    hide FindPart, WellFormed, HoleCount;
    var p, n, block := piece.at, piece.n, piece.at / blockSize;
    FindPartMeans(block, extents);
    match FindPart(block, extents)
    case Actual(e) =>
      ExtentArithmetic(e, blockSize, p);
      hide Steady, RightSize;
      SteadyInExtent(extents, blockSize, e, p + n);
    case Sparse(blocks) =>
      if NoDataFrom(extents, block) {
        hide RightSize;
        BlockBelow(p, p + n, blockSize);
      } else if Divides(blockSize, w) {
        GoodHoleStep(extents, blockSize, len, w, p, blocks);
      } else {
        HugeStep(extents, blockSize, len, w, p, blocks);
      }
  }

  /** A hole read into a buffer that holds any hole ends with the hole or with the file, unless there is no more data. */
  lemma HugeStep(extents: seq<Extent>, blockSize: nat, len: nat, w: nat, p: nat, blocks: nat)
    requires blockSize > 0 && w > 0 && WellFormed(extents) && HoldsAnyHole(blockSize, w) && !Divides(blockSize, w)
    requires p <= len && blocks > 0 && p / blockSize <= U32_MAX && FindPart(p / blockSize, extents) == Sparse(blocks)
    requires Good(extents, blockSize, w, p) && !NoDataFrom(extents, p / blockSize)
    ensures var n := HoleCount(blocks, blockSize, w, len - p); p + n == len || Good(extents, blockSize, w, p + n)
  {
    hide Backing, WellFormed;
    LongestHole(extents, p / blockSize, blocks);
    assert p % blockSize == 0;
    MulMono(blocks, w / blockSize, blockSize);
    assert w / blockSize * blockSize <= w;
    hide Steady, FindPart;
    SteadyAfterHole(extents, blockSize, p, blocks);
  }

  /** Only a hole with no data behind it is longer than 2^32 - 2 blocks. */
  lemma LongestHole(extents: seq<Extent>, block: U32, blocks: nat)
    requires WellFormed(extents) && FindPart(block, extents) == Sparse(blocks) && !NoDataFrom(extents, block)
    ensures blocks <= U32_MAX - 1
  {
    hide FindPart;
    FindPartMeans(block, extents);
    var b: nat :| b >= block && Backing(extents, b).Some?;
    assert Backing(extents, b).value in extents;
  }

  lemma GoodHoleStep(extents: seq<Extent>, blockSize: nat, len: nat, w: nat, p: nat, blocks: nat)
    requires blockSize > 0 && w > 0 && Divides(blockSize, w) && p <= len && blocks > 0
    requires p / blockSize <= U32_MAX && FindPart(p / blockSize, extents) == Sparse(blocks)
    requires Good(extents, blockSize, w, p) && !NoDataFrom(extents, p / blockSize)
    ensures var n := HoleCount(blocks, blockSize, w, len - p); p + n == len || Good(extents, blockSize, w, p + n)
  {
    hide FindPart, HoleCount, NoDataFrom;
    if w % blockSize == 0 && Steady(extents, blockSize, p) {
      hide Steady;
      HoleAdvance(extents, blockSize, len, p, w, blocks);
    } else {
      HoleCountAtMost(blocks, blockSize, w, len - p);
      SmallStep(blockSize, w, p, blocks, len);
    }
  }

  lemma HoleCountAtMost(blocks: nat, blockSize: nat, want: nat, left: nat)
    ensures HoleCount(blocks, blockSize, want, left) <= left
  {
  }

  lemma SmallStep(blockSize: nat, w: nat, p: nat, blocks: nat, len: nat)
    requires blockSize > 0 && w > 0 && Divides(blockSize, w) && blocks > 0 && p <= len
    requires p % blockSize == 0 || (blockSize % w == 0 && p % w == 0)
    requires w % blockSize == 0 ==> p % blockSize != 0
    ensures var n := HoleCount(blocks, blockSize, w, len - p); p + n < len ==> blockSize % w == 0 && (p + n) % w == 0
  {
    MulMono(1, blocks, blockSize);
    Scaled(p, blockSize, w);
    AtMost(blockSize, w);
    Multiples(p, w, w);
  }

  lemma AtMost(a: nat, w: nat)
    requires a > 0 && w > 0 && a % w == 0
    ensures w <= a && w % w == 0
  {
    var q := Quotient(a, w);
    Compare(0, q, w);
    IsMultiple(w, w, 1);
  }

  /** Every read of a run with such buffers starts well. */
  lemma {:induction false} AllGood(extents: seq<Extent>, blockSize: nat, len: nat, w: nat, pieces: seq<Piece>, k: nat)
    requires blockSize > 0 && w > 0 && RightSize(blockSize, w) && WellFormed(extents)
    requires Traced(extents, blockSize, len, Constant(w), pieces) && k < |pieces|
    ensures Good(extents, blockSize, w, pieces[k].at)
  {
    hide IsRead, Good, WellFormed, RightSize;
    if k == 0 {
      assert pieces[..0] == [];
      StartIsGood(extents, blockSize, w);
    } else {
      AllGood(extents, blockSize, len, w, pieces, k - 1);
      GoodStep(extents, blockSize, len, w, pieces[k - 1]);
      assert pieces[..k][k - 1] == pieces[k - 1];
      ReadsWithin(extents, blockSize, len, pieces[k]);
    }
  }

  lemma StartIsGood(extents: seq<Extent>, blockSize: nat, w: nat)
    requires blockSize > 0 && w > 0
    ensures Good(extents, blockSize, w, 0)
  {
  }

  lemma ReadsWithin(extents: seq<Extent>, blockSize: nat, len: nat, piece: Piece)
    requires IsRead(extents, blockSize, len, piece)
    ensures piece.at < len
  {
  }

  lemma RightSizeIsSafe(blockSize: nat, w: nat)
    requires blockSize > 0 && w > 0 && RightSize(blockSize, w)
    ensures AlwaysSafe(blockSize, w)
  {
    hide IsRead, Good, WellFormed, RightSize, PieceSafe;
    forall extents: seq<Extent>, len: nat, pieces: seq<Piece>
      | WellFormed(extents) && Traced(extents, blockSize, len, Constant(w), pieces)
      ensures AllSafe(extents, blockSize, len, pieces)
    {
      forall piece <- pieces ensures PieceSafe(extents, blockSize, len, piece) {
        var k :| 0 <= k < |pieces| && pieces[k] == piece;
        AllGood(extents, blockSize, len, w, pieces, k);
        GoodIsSafe(extents, blockSize, len, w, piece);
      }
    }
  }

  // ---------------------------------------------------------------- sizes that are not

  /** A file whose only data is one block behind a hole of `hole` blocks. */
  function BlockBehind(hole: U32): seq<Extent> {
    [Extent(hole, 0, 1, true)]
  }

  lemma BehindHole(hole: U32, block: nat)
    requires 0 < hole < U32_MAX && block < hole
    ensures WellFormed(BlockBehind(hole)) && FindPart(block, BlockBehind(hole)) == Sparse(hole - block)
    ensures Backing(BlockBehind(hole), hole) == Some(Extent(hole, 0, 1, true))
  {
  }

  /** A read in the last block of the hole that goes past it is not safe. */
  lemma PastTheHole(hole: U32, blockSize: nat, len: nat, piece: Piece)
    requires blockSize > 0 && 0 < hole < U32_MAX && piece.at <= len
    requires (hole - 1) * blockSize <= piece.at < hole * blockSize < piece.at + HoleCount(1, blockSize, piece.want, len - piece.at)
    ensures !PieceSafe(BlockBehind(hole), blockSize, len, piece)
  {
    hide FindPart, Backing, HoleCount, BlockBehind;
    var before := hole - 1;
    MulAdd(before, 1, blockSize);
    Remainder(piece.at, blockSize, before);
    BehindHole(hole, before);
    assert before + 1 == hole && hole - before == 1;
  }

  lemma Remainder(p: nat, blockSize: nat, q: nat)
    requires blockSize > 0 && q * blockSize <= p < q * blockSize + blockSize
    ensures p / blockSize == q && p % blockSize == p - q * blockSize
  {
    MulAdd(q, 1, blockSize);
    BlockOf(p, blockSize, q, q + 1);
  }

  lemma HoleRead(hole: U32, blockSize: nat, len: nat, piece: Piece, block: nat)
    requires blockSize > 0 && block < hole < U32_MAX && block * blockSize <= piece.at < (block + 1) * blockSize
    requires piece.at <= len && piece.n == HoleCount(hole - block, blockSize, piece.want, len - piece.at) > 0
    ensures IsRead(BlockBehind(hole), blockSize, len, piece)
  {
    hide FindPart;
    BlockOf(piece.at, blockSize, block, block + 1);
    BehindHole(hole, block);
  }

  /** A buffer longer than a block, but not of whole blocks: the second read goes wrong. */
  lemma LargeBuffer(blockSize: nat, w: nat)
    requires 0 < blockSize < w && w % blockSize != 0 && w / blockSize + 2 <= U32_MAX
    ensures !AlwaysSafe(blockSize, w)
  {
    hide IsRead, PieceSafe, FindPart, WellFormed, BlockBehind, HoleCount;
    var before := w / blockSize;
    var hole: U32, len: nat := before + 1, (before + 2) * blockSize;
    LargeCounts(blockSize, w);
    var extents, first, second := BlockBehind(hole), Piece(0, w, w), Piece(w, w, blockSize);
    BehindHole(hole, 0);
    HoleRead(hole, blockSize, len, first, 0);
    HoleRead(hole, blockSize, len, second, before);
    PastTheHole(hole, blockSize, len, second);
    TwoReads(extents, blockSize, len, w, first, second);
    var pieces := [first, second];
    assert second in pieces && !AllSafe(extents, blockSize, len, pieces);
  }

  lemma TwoReads(extents: seq<Extent>, blockSize: nat, len: nat, w: nat, first: Piece, second: Piece)
    requires IsRead(extents, blockSize, len, first) && IsRead(extents, blockSize, len, second)
    requires first.at == 0 && second.at == first.n && first.want == w && second.want == w
    ensures Traced(extents, blockSize, len, Constant(w), [first, second])
  {
    hide IsRead;
    TracedMore(extents, blockSize, len, Constant(w), [], first);
    TracedMore(extents, blockSize, len, Constant(w), [first], second);
    assert [] + [first] == [first] && [first] + [second] == [first, second];
  }

  /** Such a buffer ends in the last block of the hole; a further read counts a whole block from there. */
  lemma LargeCounts(blockSize: nat, w: nat)
    requires 0 < blockSize < w && w % blockSize != 0
    ensures var before := w / blockSize; var hole, len := before + 1, (before + 2) * blockSize;
            && 0 * blockSize <= 0 < 1 * blockSize
            && before * blockSize <= w < hole * blockSize < w + blockSize && w < len
            && HoleCount(hole, blockSize, w, len) == w && HoleCount(1, blockSize, w, len - w) == blockSize
  {
    var before, rest := w / blockSize, w % blockSize;
    MulAdd(before, 1, blockSize);
    MulAdd(before, 2, blockSize);
    assert w == before * blockSize + rest;
  }

  /** The first `k` reads with a buffer shorter than a block. */
  function SmallReads(w: nat, k: nat): (pieces: seq<Piece>)
    ensures |pieces| == k
  {
    if k == 0 then [] else SmallReads(w, k - 1) + [Piece((k - 1) * w, w, w)]
  }

  lemma {:induction false} SmallReadsTraced(blockSize: nat, w: nat, k: nat)
    requires 0 < w < blockSize && (k > 0 ==> (k - 1) * w < blockSize)
    ensures Traced(BlockBehind(1), blockSize, 2 * blockSize, Constant(w), SmallReads(w, k)) && ReadTo(SmallReads(w, k)) == k * w
  {
    hide IsRead;
    if k > 0 {
      MulMono(if k > 1 then k - 2 else 0, k - 1, w);
      SmallReadsTraced(blockSize, w, k - 1);
      var piece := Piece((k - 1) * w, w, w);
      MulAdd(k - 1, 1, w);
      HoleRead(1, blockSize, 2 * blockSize, piece, 0);
      TracedMore(BlockBehind(1), blockSize, 2 * blockSize, Constant(w), SmallReads(w, k - 1), piece);
    }
  }

  /** A buffer shorter than a block that is not an exact part of it: the read across the block's end goes wrong. */
  lemma SmallBuffer(blockSize: nat, w: nat)
    requires 0 < w < blockSize && blockSize % w != 0
    ensures !AlwaysSafe(blockSize, w)
  {
    hide AlwaysSafe, HoleCount;
    SmallCounts(blockSize, w);
    AcrossTheEnd(blockSize, w, blockSize / w);
  }

  lemma AcrossTheEnd(blockSize: nat, w: nat, k: nat)
    requires 0 < w < blockSize && k * w < blockSize < k * w + w
    requires k * w <= 2 * blockSize && HoleCount(1, blockSize, w, 2 * blockSize - k * w) == w
    ensures !AlwaysSafe(blockSize, w)
  {
    hide IsRead, PieceSafe, FindPart, HoleCount, BlockBehind, WellFormed, Traced, ReadTo;
    var pieces, last := SmallReads(w, k + 1), Piece(k * w, w, w);
    SmallReadsTraced(blockSize, w, k + 1);
    BehindHole(1, 0);
    PastTheHole(1, blockSize, 2 * blockSize, last);
    assert pieces[k] == last && last in pieces;
    assert !AllSafe(BlockBehind(1), blockSize, 2 * blockSize, pieces);
  }

  lemma SmallCounts(blockSize: nat, w: nat)
    requires 0 < w < blockSize && blockSize % w != 0
    ensures var k := blockSize / w;
            k * w < blockSize < k * w + w && k * w <= 2 * blockSize && HoleCount(1, blockSize, w, 2 * blockSize - k * w) == w
  {
    var k, rest := blockSize / w, blockSize % w;
    assert blockSize == k * w + rest;
  }

  /**
   * Reading with buffers of one size is right for every file exactly if the buffer is whole blocks,
   * or the block is whole buffers, or the buffer holds every hole that can have data behind it.
   */
  lemma SizesExact(blockSize: nat, w: nat)
    requires blockSize > 0 && w > 0
    ensures AlwaysSafe(blockSize, w) <==> RightSize(blockSize, w)
  {
    hide AlwaysSafe;
    if RightSize(blockSize, w) {
      RightSizeIsSafe(blockSize, w);
    } else if w < blockSize {
      SmallBuffer(blockSize, w);
    } else {
      IsMultiple(blockSize, blockSize, 1);
      LargeBuffer(blockSize, w);
    }
  }
}
