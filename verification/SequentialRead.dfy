// Reading an ext4 file from its start with any buffers: which bytes the reads put together, and
// exactly when these are the file's bytes.
module SequentialReads {
  import opened Basics
  import opened ExtentFile

  /** One read of a sequence: where it starts, how large its buffer is, and how much it delivers. */
  datatype Piece = Piece(at: nat, want: nat, n: nat)

  /** What the lookup and the two arms say about one read of a file of `len` bytes. */
  ghost predicate IsRead(extents: seq<Extent>, blockSize: nat, len: nat, piece: Piece) {
    && blockSize > 0 && 0 < piece.n <= piece.want && piece.at + piece.n <= len && piece.at / blockSize <= U32_MAX
    && var found := FindPart(piece.at / blockSize, extents);
       && (found.Sparse? ==> piece.n == HoleCount(found.blocks, blockSize, piece.want, len - piece.at))
       && (found.Actual? ==> piece.at + piece.n <= (found.extent.part + found.extent.len) * blockSize)
  }

  function ReadTo(pieces: seq<Piece>): nat {
    if pieces == [] then 0 else pieces[|pieces| - 1].at + pieces[|pieces| - 1].n
  }

  /** Reads that follow one another from the start of the file, the `i`-th with a buffer of `want(i)` bytes. */
  ghost predicate Traced(extents: seq<Extent>, blockSize: nat, len: nat, want: nat -> nat, pieces: seq<Piece>) {
    forall i :: 0 <= i < |pieces| ==>
      IsRead(extents, blockSize, len, pieces[i]) && pieces[i].at == ReadTo(pieces[..i]) && pieces[i].want == want(i)
  }

  /** The bytes that one read delivers: zeros in a hole, else the file's. */
  function PieceBytes(extents: seq<Extent>, blockSize: nat, disk: seq<Byte>, piece: Piece): (s: seq<Byte>)
    requires blockSize > 0
    ensures |s| == piece.n
  {
    if piece.at / blockSize <= U32_MAX && FindPart(piece.at / blockSize, extents).Sparse? then seq<Byte>(piece.n, _ => 0)
    else FileSlice(extents, blockSize, disk, piece.at, piece.n)
  }

  function Assembled(extents: seq<Extent>, blockSize: nat, disk: seq<Byte>, pieces: seq<Piece>): seq<Byte>
    requires blockSize > 0
  {
    if pieces == [] then []
    else
      Assembled(extents, blockSize, disk, pieces[..|pieces| - 1]) + PieceBytes(extents, blockSize, disk, pieces[|pieces| - 1])
  }

  lemma TracedPrefix(extents: seq<Extent>, blockSize: nat, len: nat, want: nat -> nat, pieces: seq<Piece>, n: nat)
    requires Traced(extents, blockSize, len, want, pieces) && n <= |pieces|
    ensures Traced(extents, blockSize, len, want, pieces[..n])
  {
    hide IsRead, ReadTo;
    forall i | 0 <= i < n
      ensures IsRead(extents, blockSize, len, pieces[..n][i])
              && pieces[..n][i].at == ReadTo(pieces[..n][..i]) && pieces[..n][i].want == want(i)
    {
      assert pieces[..n][..i] == pieces[..i] && pieces[..n][i] == pieces[i];
    }
  }

  lemma TracedMore(extents: seq<Extent>, blockSize: nat, len: nat, want: nat -> nat, pieces: seq<Piece>, piece: Piece)
    requires Traced(extents, blockSize, len, want, pieces)
    requires IsRead(extents, blockSize, len, piece) && piece.at == ReadTo(pieces) && piece.want == want(|pieces|)
    ensures Traced(extents, blockSize, len, want, pieces + [piece]) && ReadTo(pieces + [piece]) == piece.at + piece.n
  {
    hide IsRead;
    var more := pieces + [piece];
    forall i | 0 <= i < |more|
      ensures IsRead(extents, blockSize, len, more[i]) && more[i].at == ReadTo(more[..i]) && more[i].want == want(i)
    {
      assert i < |pieces| ==> more[..i] == pieces[..i] && more[i] == pieces[i];
      assert i == |pieces| ==> more[..i] == pieces;
    }
  }

  lemma LastPiece(extents: seq<Extent>, blockSize: nat, len: nat, want: nat -> nat, pieces: seq<Piece>)
    requires Traced(extents, blockSize, len, want, pieces) && pieces != []
    ensures var init, last := pieces[..|pieces| - 1], pieces[|pieces| - 1];
            && pieces == init + [last] && Traced(extents, blockSize, len, want, init)
            && IsRead(extents, blockSize, len, last) && last.at == ReadTo(init) && ReadTo(pieces) == last.at + last.n
  {
    hide IsRead;
    TracedPrefix(extents, blockSize, len, want, pieces, |pieces| - 1);
  }

  lemma NothingAssembled(extents: seq<Extent>, blockSize: nat, disk: seq<Byte>)
    requires blockSize > 0
    ensures Assembled(extents, blockSize, disk, []) == [] && ReadTo([]) == 0
  {
  }

  lemma AssembledMore(extents: seq<Extent>, blockSize: nat, disk: seq<Byte>, pieces: seq<Piece>, piece: Piece)
    requires blockSize > 0
    ensures Assembled(extents, blockSize, disk, pieces + [piece])
         == Assembled(extents, blockSize, disk, pieces) + PieceBytes(extents, blockSize, disk, piece)
  {
    assert (pieces + [piece])[..|pieces|] == pieces;
  }

  lemma {:induction false} AssembledLength(extents: seq<Extent>, blockSize: nat, len: nat, disk: seq<Byte>, want: nat -> nat, pieces: seq<Piece>)
    requires blockSize > 0 && Traced(extents, blockSize, len, want, pieces)
    ensures |Assembled(extents, blockSize, disk, pieces)| == ReadTo(pieces)
  {
    hide PieceBytes, IsRead;
    if pieces != [] {
      TracedPrefix(extents, blockSize, len, want, pieces, |pieces| - 1);
      AssembledLength(extents, blockSize, len, disk, want, pieces[..|pieces| - 1]);
    }
  }

  /** The pieces lie side by side. */
  lemma {:induction false} AssembledAt(extents: seq<Extent>, blockSize: nat, len: nat, disk: seq<Byte>, want: nat -> nat, pieces: seq<Piece>, k: nat)
    requires blockSize > 0 && Traced(extents, blockSize, len, want, pieces) && k < |pieces|
    ensures var all := Assembled(extents, blockSize, disk, pieces);
            && pieces[k].at + pieces[k].n <= |all| == ReadTo(pieces)
            && all[pieces[k].at..pieces[k].at + pieces[k].n] == PieceBytes(extents, blockSize, disk, pieces[k])
  {
    hide PieceBytes, IsRead, ReadTo, Assembled;
    var init, last := pieces[..|pieces| - 1], pieces[|pieces| - 1];
    assert pieces == init + [last] && last.at == ReadTo(init);
    TracedPrefix(extents, blockSize, len, want, pieces, |pieces| - 1);
    AssembledLength(extents, blockSize, len, disk, want, pieces);
    AssembledLength(extents, blockSize, len, disk, want, init);
    AssembledMore(extents, blockSize, disk, init, last);
    if k < |init| {
      AssembledAt(extents, blockSize, len, disk, want, init, k);
      assert init[k] == pieces[k];
    }
  }

  /** The guard of one read holds: it does not zero data behind a hole. */
  predicate PieceSafe(extents: seq<Extent>, blockSize: nat, len: nat, piece: Piece)
    requires blockSize > 0
  {
    piece.at / blockSize <= U32_MAX && piece.at <= len ==> HoleSafe(extents, blockSize, piece.at, piece.want, len - piece.at)
  }

  predicate AllSafe(extents: seq<Extent>, blockSize: nat, len: nat, pieces: seq<Piece>)
    requires blockSize > 0
  {
    forall piece <- pieces :: PieceSafe(extents, blockSize, len, piece)
  }

  lemma PieceServes(extents: seq<Extent>, blockSize: nat, len: nat, disk: seq<Byte>, piece: Piece)
    requires WellFormed(extents) && IsRead(extents, blockSize, len, piece)
    requires PieceSafe(extents, blockSize, len, piece)
    ensures PieceBytes(extents, blockSize, disk, piece) == FileSlice(extents, blockSize, disk, piece.at, piece.n)
  {
    hide FindPart, WellFormed, HoleSafe, FileSlice;
    if FindPart(piece.at / blockSize, extents).Sparse? {
      HoleSafeServes(extents, blockSize, disk, piece.at, piece.want, len - piece.at);
    }
  }

  lemma {:induction false} SafeServes(extents: seq<Extent>, blockSize: nat, len: nat, disk: seq<Byte>, want: nat -> nat, pieces: seq<Piece>)
    requires WellFormed(extents) && blockSize > 0 && Traced(extents, blockSize, len, want, pieces)
    requires AllSafe(extents, blockSize, len, pieces)
    ensures Assembled(extents, blockSize, disk, pieces) == FileSlice(extents, blockSize, disk, 0, ReadTo(pieces))
  {
    hide IsRead, PieceBytes, FileSlice, PieceSafe, WellFormed, Assembled, ReadTo, Traced;
    if pieces == [] {
      NothingAssembled(extents, blockSize, disk);
      assert |FileSlice(extents, blockSize, disk, 0, 0)| == 0;
    } else {
      var init, last := pieces[..|pieces| - 1], pieces[|pieces| - 1];
      LastPiece(extents, blockSize, len, want, pieces);
      AssembledMore(extents, blockSize, disk, init, last);
      assert forall piece <- init :: piece in pieces;
      SafeServes(extents, blockSize, len, disk, want, init);
      PieceServes(extents, blockSize, len, disk, last);
      FileSliceConcat(extents, blockSize, disk, 0, last.at, last.n);
    }
  }

  /** The reads put the file together on every disk. */
  ghost predicate Rebuilds(extents: seq<Extent>, blockSize: nat, pieces: seq<Piece>)
    requires blockSize > 0
  {
    forall disk: seq<Byte> :: Assembled(extents, blockSize, disk, pieces) == FileSlice(extents, blockSize, disk, 0, ReadTo(pieces))
  }

  /** Exactly when any sequence of reads from the start of a file puts the file together on every disk. */
  lemma ReadsExact(extents: seq<Extent>, blockSize: nat, len: nat, want: nat -> nat, pieces: seq<Piece>)
    requires WellFormed(extents) && blockSize > 0 && Traced(extents, blockSize, len, want, pieces)
    ensures Rebuilds(extents, blockSize, pieces) <==> AllSafe(extents, blockSize, len, pieces)
  {
    hide HoleSafe, FindPart, WellFormed, Assembled, FileSlice, ReadTo;
    if AllSafe(extents, blockSize, len, pieces) {
      forall disk: seq<Byte>
        ensures Assembled(extents, blockSize, disk, pieces) == FileSlice(extents, blockSize, disk, 0, ReadTo(pieces))
      {
        SafeServes(extents, blockSize, len, disk, want, pieces);
      }
    }
    if Rebuilds(extents, blockSize, pieces) {
      forall q <- pieces ensures PieceSafe(extents, blockSize, len, q) {
        if !PieceSafe(extents, blockSize, len, q) {
          var i :| 0 <= i < |pieces| && pieces[i] == q;
          var disk := HoleOvershoots(extents, blockSize, q.at, q.want, len - q.at);
          AssembledAt(extents, blockSize, len, disk, want, pieces, i);
          SliceOfFile(extents, blockSize, disk, ReadTo(pieces), q.at, q.n);
          assert false;
        }
      }
    }
  }

  lemma SliceOfFile(extents: seq<Extent>, blockSize: nat, disk: seq<Byte>, total: nat, at: nat, n: nat)
    requires blockSize > 0 && at + n <= total
    ensures FileSlice(extents, blockSize, disk, 0, total)[at..at + n] == FileSlice(extents, blockSize, disk, at, n)
  {
    hide FileByte;
  }

  // ---------------------------------------------------------------- buffers that are enough

  /** A buffer of whole blocks, or one that reaches to the end of the file. */
  predicate Suits(blockSize: nat, len: nat, at: nat, want: nat)
    requires blockSize > 0
  {
    want % blockSize == 0 || at + want >= len
  }

  /** Buffers that start with 8 KiB and double. */
  function Doubling(i: nat): (n: nat)
    ensures n > 0
  {
    if i == 0 then 8192 else 2 * Doubling(i - 1)
  }

  /** Such buffers are whole blocks of every block size up to 4 KiB that the reader accepts. */
  lemma {:induction false} DoublingSuits(blockSize: nat, i: nat)
    requires blockSize == 1024 || blockSize == 2048 || blockSize == 4096
    ensures Doubling(i) % blockSize == 0
  {
    if i > 0 {
      DoublingSuits(blockSize, i - 1);
      var blocks := Doubling(i - 1) / blockSize;
      assert Doubling(i) == 2 * blocks * blockSize;
      BlockOf(2 * blocks * blockSize, blockSize, 2 * blocks, 2 * blocks + 1);
    }
  }
}
