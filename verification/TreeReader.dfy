// The ext4 file reader: positioned short reads through the extent list, proved against the
// sparse logical file.
module TreeReaders {
  import opened Basics
  import opened Sources
  import opened ExtentFile
  import opened SequentialReads

  datatype ReadError =
    | ZeroBlockSize | BlockTooLarge | OffsetOverflow | DeviceInterrupted | DeviceFailed | UnexpectedEof

  type Result<+T> = Basics.Result<T, ReadError>

  datatype SeekFrom = Start(offset: U64) | Current(diff: int) | End(diff: int)

  datatype Location = Location(fileOffset: nat, diskOffset: nat, bytes: nat)

  // ---------------------------------------------------------------- facts about one extent

  lemma FindPartActual(extents: seq<Extent>, block: U32, e: Extent)
    requires WellFormed(extents) && e in extents && e.initialized && Holds(e, block)
    ensures FindPart(block, extents) == Actual(e)
  {
    FindPartMeans(block, extents);
    BackingUnique(extents, block, e);
    var found := FindPart(block, extents);
    if found.Actual? {
      BackingUnique(extents, block, found.extent);
    }
  }

  lemma MultipleOf(a: nat, b: nat)
    requires b > 0
    ensures a * b % b == 0 && a * b / b == a
  {
    BlockOf(a * b, b, a, a + 1);
  }

  /** Positions from which a large enough buffer never meets the faulty hole arm mid-block. */
  predicate Steady(extents: seq<Extent>, blockSize: nat, p: nat)
    requires blockSize > 0
  {
    p % blockSize == 0 || (p / blockSize <= U32_MAX && FindPart(p / blockSize, extents).Actual?)
  }

  lemma SteadyIsSafe(extents: seq<Extent>, blockSize: nat, p: nat, want: nat, left: nat)
    requires blockSize > 0 && p / blockSize <= U32_MAX && Steady(extents, blockSize, p)
    ensures HoleSafe(extents, blockSize, p, want, left)
  {
  }

  /** Reading on inside an extent, or to its end, keeps the position steady. */
  lemma SteadyInExtent(extents: seq<Extent>, blockSize: nat, e: Extent, p: nat)
    requires blockSize > 0 && WellFormed(extents) && e in extents && e.initialized
    requires e.part * blockSize <= p <= (e.part + e.len) * blockSize
    ensures Steady(extents, blockSize, p)
  {
    if p < (e.part + e.len) * blockSize {
      BlockOf(p, blockSize, e.part, e.part + e.len);
      FindPartActual(extents, p / blockSize, e);
    } else {
      MultipleOf(e.part + e.len, blockSize);
    }
  }

  /** A block-aligned read of whole blocks keeps the position steady. */
  lemma SteadyAfterHole(extents: seq<Extent>, blockSize: nat, p: nat, blocks: nat)
    requires blockSize > 0 && p % blockSize == 0
    ensures Steady(extents, blockSize, p + blocks * blockSize)
  {
    assert p == p / blockSize * blockSize;
    MulAdd(p / blockSize, blocks, blockSize);
    MultipleOf(p / blockSize + blocks, blockSize);
  }

  lemma HoleCountBounds(blocks: nat, blockSize: nat, want: nat, left: nat)
    requires blocks > 0 && blockSize > 0 && want > 0 && left > 0
    ensures 0 < HoleCount(blocks, blockSize, want, left) <= Min(want, left)
  {
    MulMono(1, blocks, blockSize);
  }

  lemma StartIsSteady(extents: seq<Extent>, blockSize: nat)
    requires blockSize > 0
    ensures Steady(extents, blockSize, 0)
  {
  }

  /** A read of whole blocks of a hole, or to the end of the file, ends on a block boundary or at the end. */
  lemma HoleAdvance(extents: seq<Extent>, blockSize: nat, len: nat, p: nat, want: nat, blocks: nat)
    requires blockSize > 0 && p <= len && p / blockSize <= U32_MAX && Suits(blockSize, len, p, want)
    requires Steady(extents, blockSize, p) && FindPart(p / blockSize, extents) == Sparse(blocks)
    ensures var n := HoleCount(blocks, blockSize, want, len - p); p + n == len || Steady(extents, blockSize, p + n)
  {
    hide FindPart;
    assert p % blockSize == 0;
    hide Steady;
    var n := HoleCount(blocks, blockSize, want, len - p);
    if n == blocks * blockSize {
      SteadyAfterHole(extents, blockSize, p, blocks);
    } else if n == want && want % blockSize == 0 {
      assert want == want / blockSize * blockSize;
      SteadyAfterHole(extents, blockSize, p, want / blockSize);
    }
  }

  /** On every disk the file starts with `limit` zero bytes. */
  ghost predicate ZeroUpTo(extents: seq<Extent>, blockSize: nat, limit: nat)
    requires blockSize > 0
  {
    forall data: seq<Byte>, p: nat :: p < limit ==> FileByte(extents, blockSize, data, p) == 0
  }

  /** On every disk that reaches so far, `n` file bytes lie contiguously at `diskOffset`. */
  ghost predicate StoredAt(extents: seq<Extent>, blockSize: nat, fileOffset: nat, diskOffset: nat, n: nat)
    requires blockSize > 0
  {
    forall data: seq<Byte> :: diskOffset + n <= |data| ==>
      FileSlice(extents, blockSize, data, fileOffset, n) == data[diskOffset..diskOffset + n]
  }

  class TreeReader {
    const disk: Source
    const len: U64
    const blockSize: U32
    const extents: seq<Extent>
    var pos: U64

    ghost predicate Valid()
      reads this`pos
    {
      pos <= len && WellFormed(extents)
    }

    constructor (disk: Source, blockSize: U32, size: U64, extents: seq<Extent>)
      requires WellFormed(extents)
      ensures Valid() && pos == 0
      ensures this.disk == disk && this.blockSize == blockSize && len == size && this.extents == extents
    {
      this.disk, this.blockSize, len, this.extents := disk, blockSize, size, extents;
      pos := 0;
    }

    /** The device holds every byte that an initialized extent promises below the end of file. */
    ghost predicate Readable() {
      && blockSize > 0 && |disk.data| <= U64_MAX
      && (len > 0 ==> (len - 1) / blockSize <= U32_MAX)
      && AllOnDisk(extents, blockSize, |disk.data|, 0, len)
    }

    /** All positions have block numbers and disk offsets within their widths. */
    ghost predicate Addressable() {
      && blockSize > 0 && (len > 0 ==> (len - 1) / blockSize <= U32_MAX)
      && AllOnDisk(extents, blockSize, U64_MAX + 1, 0, len)
    }

    lemma ReadableIsAddressable()
      ensures Readable() ==> Addressable()
    {
      if Readable() {
        var size := U64_MAX + 1;
        forall p: nat | p < len ensures OnDisk(extents, blockSize, size, p) {
          assert OnDisk(extents, blockSize, |disk.data|, p);
        }
      }
    }

    /** The byte at `p` is looked up and no initialized extent holds it. */
    ghost predicate InHole(p: nat) {
      blockSize > 0 && p / blockSize <= U32_MAX && FindPart(p / blockSize, extents).Sparse?
    }

    /** The part of the contract that both arms of a read share. */
    twostate predicate Delivers(buf: array<Byte>, from: nat, to: nat, new r: Result<nat>)
      requires from <= to <= buf.Length
      reads this`pos, disk`plan, buf
    {
      && pos <= len
      && buf[..from] == old(buf[..from])
      && (r.Err? ==> pos == old(pos) && buf[..] == old(buf[..]))
      && (r.Ok? ==>
            && r.value <= Min(to - from, len - old(pos)) && pos == old(pos) + r.value
            && buf[from + r.value..] == old(buf[from + r.value..]))
      && (disk.plan == old(disk.plan) || (old(disk.plan) != [] && disk.plan == old(disk.plan)[1..]))
      && (r == Err(DeviceInterrupted) ==> |disk.plan| < |old(disk.plan)|)
      && (r == Err(DeviceFailed) ==> Fault in old(disk.plan))
    }

    /** How many bytes of the extent remain from the position on, and where they lie on disk. */
    method Locate(e: Extent) returns (remaining: nat, offset: nat)
      requires Valid() && pos < len && blockSize > 0
      requires e in extents && e.initialized && Holds(e, pos / blockSize)
      ensures remaining > 0 && e.part * blockSize <= pos && pos + remaining == (e.part + e.len) * blockSize
      ensures offset == DiskOffset(e, blockSize, pos)
      ensures Readable() ==> offset < |disk.data| <= U64_MAX
      ensures offset < |disk.data| <==> OnDisk(extents, blockSize, |disk.data|, pos)
      ensures Addressable() ==> offset <= U64_MAX
    {
      hide FindPart, Backing, WellFormed, OnDisk, DiskOffset;
      var wantedBlock := pos / blockSize;
      var readOfThisBlock := pos % blockSize;
      var throughExtent := blockSize * (wantedBlock - e.part) + readOfThisBlock;
      PlaceInExtent(extents, e, blockSize, pos, |disk.data|);
      remaining := e.len * blockSize - throughExtent;
      offset := e.start * blockSize + throughExtent;
      PlaceInExtent(extents, e, blockSize, pos, U64_MAX + 1);
      assert Readable() ==> OnDisk(extents, blockSize, |disk.data|, pos);
      assert Addressable() ==> OnDisk(extents, blockSize, U64_MAX + 1, pos);
    }

    /** The file's bytes from `p` on, inside an extent; none only if its byte there is not on disk. */
    ghost predicate FromExtent(e: Extent, p: nat, bytes: seq<Byte>) {
      && blockSize > 0 && bytes == FileSlice(extents, blockSize, disk.data, p, |bytes|)
      && e.part * blockSize <= p && p + |bytes| <= (e.part + e.len) * blockSize
      && AllOnDisk(extents, blockSize, |disk.data|, p, p + |bytes|)
      && (bytes == [] ==> !OnDisk(extents, blockSize, |disk.data|, p))
    }

    lemma ServesExtent(e: Extent, p: nat, remaining: nat, n: nat)
      requires blockSize > 0 && WellFormed(extents) && e in extents && e.initialized
      requires e.part * blockSize <= p && p + remaining == (e.part + e.len) * blockSize && n <= remaining
      requires n > 0 ==> 0 <= DiskOffset(e, blockSize, p) && DiskOffset(e, blockSize, p) + n <= |disk.data|
      requires n == 0 ==> !OnDisk(extents, blockSize, |disk.data|, p)
      ensures n == 0 ==> FromExtent(e, p, [])
      ensures n > 0 ==> FromExtent(e, p, disk.data[DiskOffset(e, blockSize, p)..DiskOffset(e, blockSize, p) + n])
    {
      hide WellFormed, OnDisk, AllOnDisk, FileSlice;
      ActualServes(extents, blockSize, disk.data, p, n, e);
      ActualOnDisk(extents, blockSize, |disk.data|, p, n, e);
      assert |FileSlice(extents, blockSize, disk.data, p, n)| == n;
    }

    /** The arm of a read inside an extent: as much as the device delivers of it. */
    method ReadExtent(buf: array<Byte>, from: nat, to: nat, e: Extent) returns (r: Result<nat>)
      requires Valid() && from < to <= buf.Length && pos < len && blockSize > 0
      requires e in extents && e.initialized && Holds(e, pos / blockSize)
      modifies this`pos, disk`pos, disk`plan, buf
      ensures Delivers(buf, from, to, r)
      ensures r.Ok? ==> FromExtent(e, old(pos), buf[from..from + r.value])
      ensures Readable() && Fault !in old(disk.plan) ==> r == Err(DeviceInterrupted) || (r.Ok? && r.value > 0)
      ensures Addressable() && Fault !in old(disk.plan) ==> r == Err(DeviceInterrupted) || r.Ok?
    {
      hide FindPart, Backing, FileSlice, WellFormed, Readable, Addressable, DiskOffset, Holds, OnDisk, AllOnDisk, FromExtent;
      var remaining, offset := Locate(e);
      var toRead := Min(Min(remaining, to - from), len - pos);
      if offset > U64_MAX {
        return Err(OffsetOverflow);
      }
      disk.Seek(offset);
      var read := disk.Read(buf, from, from + toRead);
      match read
      case Interrupted => r := Err(DeviceInterrupted);
      case Failed => r := Err(DeviceFailed);
      case Count(n) =>
        ServesExtent(e, pos, remaining, n);
        assert n == 0 ==> buf[from..from + n] == [];
        pos := pos + n;
        r := Ok(n);
    }

    /** The arm of a read in a hole: zeros, counted in whole blocks from the start of the block. */
    method ReadHole(buf: array<Byte>, from: nat, to: nat, blocks: nat) returns (r: Result<nat>)
      requires Valid() && from < to <= buf.Length && pos < len && blockSize > 0 && pos / blockSize <= U32_MAX
      requires FindPart(pos / blockSize, extents) == Sparse(blocks) && blocks > 0
      modifies this`pos, buf
      ensures Delivers(buf, from, to, r)
      ensures r.Ok? && r.value == HoleCount(blocks, blockSize, to - from, len - old(pos)) > 0
      ensures buf[from..from + r.value] == Served(Sparse(blocks), blockSize, disk.data, old(pos), r.value)
      ensures HoleSafe(extents, blockSize, old(pos), to - from, len - old(pos)) ==>
                && buf[from..from + r.value] == FileSlice(extents, blockSize, disk.data, old(pos), r.value)
                && AllOnDisk(extents, blockSize, |disk.data|, old(pos), pos)
    {
      hide FindPart, Backing, FileSlice, HoleSafe, WellFormed, AllOnDisk, HoleCount, DiskOffset;
      HoleCountBounds(blocks, blockSize, to - from, len - pos);
      var read := HoleCount(blocks, blockSize, to - from, len - pos);
      forall k | from <= k < from + read {
        buf[k] := 0;
      }
      assert buf[from..from + read] == Served(Sparse(blocks), blockSize, disk.data, pos, read);
      if HoleSafe(extents, blockSize, pos, to - from, len - pos) {
        HoleSafeServes(extents, blockSize, disk.data, pos, to - from, len - pos);
        HoleSafeOnDisk(extents, blockSize, |disk.data|, pos, to - from, len - pos);
      }
      pos := pos + read;
      r := Ok(read);
    }

    /**
     * One read into `buf[from..to]`. In a hole it delivers zeros; the bytes it delivers are the
     * file's bytes whenever `HoleSafe` holds; outside the delivered range the buffer is untouched.
     */
    method Read(buf: array<Byte>, from: nat, to: nat) returns (r: Result<nat>)
      requires Valid() && from <= to <= buf.Length
      modifies this`pos, disk`pos, disk`plan, buf
      ensures Valid() && Delivers(buf, from, to, r)
      ensures from == to || old(pos) == len ==> r == Ok(0)
      ensures r.Ok? && r.value > 0 ==>
                && blockSize > 0 && old(pos) / blockSize <= U32_MAX
                && var found := FindPart(old(pos) / blockSize, extents);
                   && (found.Sparse? ==>
                         && r.value == HoleCount(found.blocks, blockSize, to - from, len - old(pos))
                         && buf[from..from + r.value] == Served(Sparse(found.blocks), blockSize, disk.data, old(pos), r.value))
                   && (found.Actual? ==>
                         && found.extent in extents && found.extent.initialized
                         && found.extent.part * blockSize <= old(pos)
                         && pos <= (found.extent.part + found.extent.len) * blockSize)
                   && (HoleSafe(extents, blockSize, old(pos), to - from, len - old(pos)) ==>
                         && buf[from..from + r.value] == FileSlice(extents, blockSize, disk.data, old(pos), r.value)
                         && AllOnDisk(extents, blockSize, |disk.data|, old(pos), pos))
      ensures from < to && old(pos) < len && r == Ok(0) ==> blockSize > 0 && !OnDisk(extents, blockSize, |disk.data|, old(pos))
      ensures from < to && old(pos) < len && InHole(old(pos)) ==> r.Ok? && r.value > 0
      ensures from < to && old(pos) < len && Readable() && Fault !in old(disk.plan) ==>
                r == Err(DeviceInterrupted) || (r.Ok? && r.value > 0)
      ensures from < to && old(pos) < len && Addressable() && Fault !in old(disk.plan) ==> r == Err(DeviceInterrupted) || r.Ok?
    {
      hide FindPart, Backing, FileSlice, HoleSafe, OnDisk, AllOnDisk;
      if from == to || pos == len {
        return Ok(0);
      }
      if blockSize == 0 {
        return Err(ZeroBlockSize);
      }
      var wantedBlock := pos / blockSize;
      if wantedBlock > U32_MAX {
        if Readable() || Addressable() { BlockBelow(pos, len - 1, blockSize); }
        return Err(BlockTooLarge);
      }
      FindPartMeans(wantedBlock, extents);
      match FindPart(wantedBlock, extents)
      case Actual(extent) =>
        r := ReadExtent(buf, from, to, extent);
      case Sparse(blocks) =>
        r := ReadHole(buf, from, to, blocks);
    }

    /** The index of the first initialized extent that starts inside the file. */
    method FirstDataExtent() returns (k: nat)
      requires Valid()
      ensures k <= |extents|
      ensures k < |extents| ==> extents[k].initialized && extents[k].part * blockSize < len
      ensures forall j :: 0 <= j < k && extents[j].initialized ==> extents[j].part * blockSize >= len
    {
      k := 0;
      while k < |extents|
        invariant k <= |extents|
        invariant forall j :: 0 <= j < k && extents[j].initialized ==> extents[j].part * blockSize >= len
      {
        var e := extents[k];
        assert e.len > 0;
        if e.initialized && e.len > 0 && e.part * blockSize < len {
          return;
        }
        k := k + 1;
      }
    }

    /** Where the data of the first such extent lies, cut at the end of the file. */
    method FirstExtentLocation() returns (r: Result<Option<Location>>)
      requires Valid()
      ensures r.Err? ==> r.error == OffsetOverflow && exists e <- extents :: e.start * blockSize > U64_MAX
      ensures r == Ok(None) && blockSize > 0 ==> ZeroUpTo(extents, blockSize, len)
      ensures r.Ok? && r.value.Some? && blockSize > 0 ==>
                var at := r.value.value;
                && 0 < at.bytes && at.fileOffset + at.bytes <= len
                && ZeroUpTo(extents, blockSize, at.fileOffset)
                && StoredAt(extents, blockSize, at.fileOffset, at.diskOffset, at.bytes)
    {
      hide ZeroUpTo, StoredAt;
      var k := FirstDataExtent();
      if k == |extents| {
        if blockSize > 0 {
          ZeroBefore(extents, blockSize, k, len, len);
        }
        return Ok(None);
      }
      var e := extents[k];
      var fileOffset, diskOffset := e.part * blockSize, e.start * blockSize;
      if diskOffset > U64_MAX {
        return Err(OffsetOverflow);
      }
      var bytes := Min(e.len * blockSize, len - fileOffset);
      if blockSize > 0 {
        MulMono(1, e.len, blockSize);
        ZeroBefore(extents, blockSize, k, len, fileOffset);
        ExtentStored(extents, blockSize, e, bytes);
      }
      r := Ok(Some(Location(fileOffset, diskOffset, bytes)));
    }

    /** Seeking is confined to the file; a position outside it is refused. */
    method Seek(target: SeekFrom) returns (r: Option<U64>)
      requires Valid()
      modifies this`pos
      ensures Valid()
      ensures var requested := match target
                case Start(offset) => offset
                case Current(diff) => old(pos) + diff
                case End(diff) => len + diff;
              && (r.Some? <==> 0 <= requested <= len)
              && (r.Some? ==> pos == requested == r.value)
              && (r.None? ==> pos == old(pos))
    {
      var requested := match target
        case Start(offset) => offset
        case Current(diff) => pos + diff
        case End(diff) => len + diff;
      if requested < 0 || requested > len {
        return None;
      }
      pos := requested;
      r := Some(pos);
    }

    /**
     * Loading a whole file: the buffer always reaches to the end of the file, so the hole arm is
     * never met in the middle of a block and the result is the file, for every device schedule.
     */
    method LoadAll() returns (r: Result<seq<Byte>>)
      requires Valid() && pos == 0
      modifies this`pos, disk`pos, disk`plan
      ensures r.Ok? ==> |r.value| == len
      ensures r.Ok? && len > 0 ==> blockSize > 0 && r.value == FileSlice(extents, blockSize, disk.data, 0, len)
      ensures Readable() && Fault !in old(disk.plan) ==> r.Ok?
    {
      hide FindPart, Backing, WellFormed, HoleSafe, Steady, HoleCount, FileSlice, OnDisk, AllOnDisk;
      var buf := new Byte[len];
      while pos < len
        invariant Valid()
        invariant pos > 0 ==>
                    && blockSize > 0 && buf[..pos] == FileSlice(extents, blockSize, disk.data, 0, pos)
                    && (pos == len || Steady(extents, blockSize, pos))
        invariant Fault !in old(disk.plan) ==> Fault !in disk.plan
        decreases len - pos, |disk.plan|
      {
        ghost var p, before := pos, buf[..pos];
        var read := Read(buf, pos, len);
        match read
        case Err(DeviceInterrupted) =>
        case Err(error) => return Err(error);
        case Ok(n) =>
          if n == 0 {
            return Err(UnexpectedEof);
          }
          Advance(p, len - p, n);
          assert buf[..pos] == before + buf[p..pos] by { assert buf[..p] == before; }
          FileSliceConcat(extents, blockSize, disk.data, 0, p, n);
          assert before == FileSlice(extents, blockSize, disk.data, 0, p);
      }
      assert buf[..pos] == buf[..];
      r := Ok(buf[..]);
    }

    /** A read of whole blocks, or to the end of the file, that starts steady is safe and ends steady. */
    lemma Advance(p: nat, want: nat, n: nat)
      requires WellFormed(extents) && blockSize > 0 && p + n <= len && p / blockSize <= U32_MAX && n > 0
      requires Suits(blockSize, len, p, want) && (p == 0 || Steady(extents, blockSize, p))
      requires var found := FindPart(p / blockSize, extents);
               && (found.Sparse? ==> n == HoleCount(found.blocks, blockSize, want, len - p))
               && (found.Actual? ==>
                     && found.extent in extents && found.extent.initialized
                     && found.extent.part * blockSize <= p && p + n <= (found.extent.part + found.extent.len) * blockSize)
      ensures HoleSafe(extents, blockSize, p, want, len - p)
      ensures p + n == len || Steady(extents, blockSize, p + n)
    {
      hide FindPart, Backing, WellFormed, HoleSafe, HoleCount, Steady, Suits;
      StartIsSteady(extents, blockSize);
      SteadyIsSafe(extents, blockSize, p, want, len - p);
      match FindPart(p / blockSize, extents)
      case Actual(e) => SteadyInExtent(extents, blockSize, e, p + n);
      case Sparse(blocks) => HoleAdvance(extents, blockSize, len, p, want, blocks);
    }

    /**
     * Reading on until a read delivers nothing, the `i`-th time into a buffer of `want(i)` bytes, as
     * the library's `read_to_end` does with buffers of its own choice. For every device schedule the
     * result is what the reads put together. With buffers of whole blocks, or up to the end of the
     * file, that is the file, whole exactly if all of it is on disk, and else shorter without an error.
     */
    method ReadToEnd(want: nat -> nat) returns (r: Result<seq<Byte>>, ghost pieces: seq<Piece>)
      requires Valid() && pos == 0 && forall i :: want(i) > 0
      modifies this`pos, disk`pos, disk`plan
      ensures r.Ok? && len > 0 ==>
                && blockSize > 0 && Traced(extents, blockSize, len, want, pieces)
                && r.value == Assembled(extents, blockSize, disk.data, pieces)
                && |r.value| == ReadTo(pieces) <= len
                && (|r.value| < len ==> !OnDisk(extents, blockSize, |disk.data|, |r.value|))
      ensures r.Ok? && len > 0 && AllSafe(extents, blockSize, len, pieces) ==>
                && r.value == FileSlice(extents, blockSize, disk.data, 0, |r.value|)
                && AllOnDisk(extents, blockSize, |disk.data|, 0, |r.value|)
                && (|r.value| == len <==> AllOnDisk(extents, blockSize, |disk.data|, 0, len))
      ensures r.Ok? && len > 0 && (forall i, p: nat :: Suits(blockSize, len, p, want(i))) ==>
                AllSafe(extents, blockSize, len, pieces)
      ensures Addressable() && Fault !in old(disk.plan) ==> r.Ok?
      ensures Readable() && Fault !in old(disk.plan) ==> r.Ok? && (len > 0 ==> |r.value| == len)
    {
      hide FindPart, Backing, WellFormed, HoleSafe, Steady, HoleCount, FileSlice, OnDisk, AllOnDisk, IsRead, Gathered,
           SafeSoFar, AllSafe, PieceBytes, Assembled, Traced, ReadTo, Readable, Addressable;
      var data: seq<Byte> := [];
      var i, reading := 0, true;
      pieces := [];
      ghost var suits := forall k, p: nat :: blockSize > 0 ==> Suits(blockSize, len, p, want(k));
      NothingGathered(want);
      ReadableIsAddressable();
      while reading
        invariant Valid() && i == |pieces| && Gathered(want, pieces, data, pos) && SafeSoFar(pieces, pos, suits)
        invariant !reading ==> pos == len || (blockSize > 0 && !OnDisk(extents, blockSize, |disk.data|, pos))
        invariant !reading && Readable() && Fault !in old(disk.plan) ==> pos == len
        invariant Fault !in old(disk.plan) ==> Fault !in disk.plan
        decreases reading, len - pos, |disk.plan|
      {
        ghost var p := pos;
        var buf := new Byte[want(i)];
        var read := Read(buf, 0, buf.Length);
        match read
        case Err(DeviceInterrupted) =>
        case Err(error) => return Err(error), pieces;
        case Ok(n) =>
          if n == 0 {
            reading := false;
          } else {
            ghost var piece := Piece(p, buf.Length, n);
            Gather(want, pieces, data, piece, buf[0..n]);
            SafeStep(want, pieces, piece, suits);
            assert buf[..n] == buf[0..n];
            data := data + buf[..n];
            pieces := pieces + [piece];
            i := i + 1;
          }
      }
      GatheredMeans(want, pieces, data, pos, suits);
      r := Ok(data);
    }

    /** What was read up to `p`. */
    ghost predicate Gathered(want: nat -> nat, pieces: seq<Piece>, data: seq<Byte>, p: nat) {
      && (p == 0 || blockSize > 0)
      && (blockSize > 0 ==>
            && Traced(extents, blockSize, len, want, pieces) && ReadTo(pieces) == p == |data| <= len
            && data == Assembled(extents, blockSize, disk.data, pieces))
      && (blockSize == 0 ==> data == [])
    }

    ghost predicate SafeSoFar(pieces: seq<Piece>, p: nat, suits: bool) {
      blockSize > 0 ==>
        && (AllSafe(extents, blockSize, len, pieces) ==> AllOnDisk(extents, blockSize, |disk.data|, 0, p))
        && (suits ==> AllSafe(extents, blockSize, len, pieces) && (p == 0 || p == len || Steady(extents, blockSize, p)))
    }

    lemma NothingGathered(want: nat -> nat)
      ensures Gathered(want, [], [], 0) && forall suits :: SafeSoFar([], 0, suits)
    {
      if blockSize > 0 {
        NothingAssembled(extents, blockSize, disk.data);
      }
    }

    /** What `Read` says about one read that delivers something. */
    ghost predicate Delivered(piece: Piece, bytes: seq<Byte>) {
      && blockSize > 0 && piece.at / blockSize <= U32_MAX && 0 < piece.n <= piece.want && piece.at + piece.n <= len
      && |bytes| == piece.n
      && var found := FindPart(piece.at / blockSize, extents);
         && (found.Sparse? ==>
               && piece.n == HoleCount(found.blocks, blockSize, piece.want, len - piece.at)
               && bytes == Served(Sparse(found.blocks), blockSize, disk.data, piece.at, piece.n))
         && (found.Actual? ==>
               && found.extent in extents && found.extent.initialized && found.extent.part * blockSize <= piece.at
               && piece.at + piece.n <= (found.extent.part + found.extent.len) * blockSize)
         && (HoleSafe(extents, blockSize, piece.at, piece.want, len - piece.at) ==>
               && bytes == FileSlice(extents, blockSize, disk.data, piece.at, piece.n)
               && AllOnDisk(extents, blockSize, |disk.data|, piece.at, piece.at + piece.n))
    }

    lemma Gather(want: nat -> nat, pieces: seq<Piece>, data: seq<Byte>, piece: Piece, bytes: seq<Byte>)
      requires Gathered(want, pieces, data, piece.at) && Delivered(piece, bytes) && piece.want == want(|pieces|)
      ensures Gathered(want, pieces + [piece], data + bytes, piece.at + piece.n)
    {
      hide FindPart, FileSlice, HoleCount, Traced, Assembled, ReadTo, AllOnDisk;
      assert bytes == PieceBytes(extents, blockSize, disk.data, piece);
      TracedMore(extents, blockSize, len, want, pieces, piece);
      AssembledMore(extents, blockSize, disk.data, pieces, piece);
    }

    lemma SafeStep(want: nat -> nat, pieces: seq<Piece>, piece: Piece, suits: bool)
      requires WellFormed(extents) && SafeSoFar(pieces, piece.at, suits) && exists bytes :: Delivered(piece, bytes)
      requires suits ==> Suits(blockSize, len, piece.at, piece.want)
      ensures SafeSoFar(pieces + [piece], piece.at + piece.n, suits)
    {
      hide FindPart, FileSlice, HoleCount, WellFormed, HoleSafe, Steady, OnDisk;
      var all := pieces + [piece];
      assert forall q <- pieces :: q in all;
      assert piece in all;
      assert AllSafe(extents, blockSize, len, all) ==> PieceSafe(extents, blockSize, len, piece);
      if suits {
        Advance(piece.at, piece.want, piece.n);
      }
    }

    lemma GatheredMeans(want: nat -> nat, pieces: seq<Piece>, data: seq<Byte>, p: nat, suits: bool)
      requires WellFormed(extents) && Gathered(want, pieces, data, p) && SafeSoFar(pieces, p, suits) && p <= len
      requires p == len || (blockSize > 0 && !OnDisk(extents, blockSize, |disk.data|, p))
      ensures len > 0 ==>
                && blockSize > 0 && Traced(extents, blockSize, len, want, pieces)
                && data == Assembled(extents, blockSize, disk.data, pieces) && |data| == ReadTo(pieces) == p
                && (AllSafe(extents, blockSize, len, pieces) ==>
                      && data == FileSlice(extents, blockSize, disk.data, 0, p)
                      && AllOnDisk(extents, blockSize, |disk.data|, 0, p)
                      && (p == len <==> AllOnDisk(extents, blockSize, |disk.data|, 0, len)))
                && (suits ==> AllSafe(extents, blockSize, len, pieces))
    {
      hide FindPart, FileSlice, WellFormed, Traced, Assembled, ReadTo, AllSafe, OnDisk, Steady;
      if len > 0 && AllSafe(extents, blockSize, len, pieces) {
        SafeServes(extents, blockSize, len, disk.data, want, pieces);
      }
    }
  }

  /** A read of 6 bytes at offset 2 of a hole of one 4-byte block delivers zeros for two bytes of real data. */
  method MidBlockHoleRead(reader: TreeReader, buf: array<Byte>) returns (r: Result<nat>)
    requires reader.Valid() && reader.blockSize == 4 && reader.extents == [Extent(1, 5, 1, true)]
    requires reader.pos == 2 && reader.len == 8 && buf.Length == 6
    requires |reader.disk.data| >= 24 && reader.disk.data[20] != 0 && reader.disk.data[21] != 0
    modifies reader`pos, reader.disk`pos, reader.disk`plan, buf
    ensures r == Ok(4) && buf[..4] == [0, 0, 0, 0]
    ensures FileSlice(reader.extents, 4, reader.disk.data, 2, 4) == [0, 0, reader.disk.data[20], reader.disk.data[21]]
  {
    ghost var data := reader.disk.data;
    MidBlockHole(data);
    r := reader.Read(buf, 0, 6);
    assert buf[0..4] == buf[..4];
  }

  /** A file of two 64 KiB blocks, the first of them a hole, the second stored in block 5 of the disk. */
  ghost predicate HoleThenBlock(reader: TreeReader)
    reads reader
  {
    && reader.Valid() && reader.pos == 0 && reader.len == 131072
    && reader.blockSize == 65536 && reader.extents == [Extent(1, 5, 1, true)]
  }

  /**
   * Read into buffers that start with 8 KiB and double, the fourth read of that file starts inside
   * the hole and zeroes real data, although the whole file is on disk and no read fails.
   */
  method LargeBlockRead(reader: TreeReader) returns (r: Result<seq<Byte>>)
    requires HoleThenBlock(reader) && Fault !in reader.disk.plan
    requires 393216 <= |reader.disk.data| <= U64_MAX && reader.disk.data[327680] != 0
    modifies reader`pos, reader.disk`pos, reader.disk`plan
    ensures r.Ok? && |r.value| == reader.len && forall k :: 65536 <= k < 122880 ==> r.value[k] == 0
    ensures FileByte(reader.extents, reader.blockSize, reader.disk.data, 65536) != 0
  {
    hide FileSlice, HoleSafe, Traced, Assembled, ReadTo, IsRead, HoleCount;
    ghost var pieces;
    SecondBlock(reader.disk.data);
    r, pieces := reader.ReadToEnd(Doubling);
    FourthRead(reader.disk.data, pieces);
  }

  lemma SecondBlock(data: seq<Byte>)
    requires |data| >= 393216
    ensures AllOnDisk([Extent(1, 5, 1, true)], 65536, |data|, 0, 131072)
    ensures FileByte([Extent(1, 5, 1, true)], 65536, data, 65536) == data[327680]
  {
    var extents := [Extent(1, 5, 1, true)];
    forall p: nat | p < 131072 ensures OnDisk(extents, 65536, |data|, p) {
      assert extents[1..] == [];
      assert p / 65536 == 0 ==> Backing(extents, p / 65536) == None;
    }
    assert Backing(extents, 1) == Some(extents[0]);
  }

  /** The reads go 8, 16, 32 and 64 KiB forward, the last of them past the hole. */
  lemma FourthRead(data: seq<Byte>, pieces: seq<Piece>)
    requires Traced([Extent(1, 5, 1, true)], 65536, 131072, Doubling, pieces) && ReadTo(pieces) == 131072
    ensures var all := Assembled([Extent(1, 5, 1, true)], 65536, data, pieces);
            |all| == 131072 && forall k :: 65536 <= k < 122880 ==> all[k] == 0
  {
    hide Traced, Assembled, ReadTo, PieceBytes;
    var extents := [Extent(1, 5, 1, true)];
    assert Doubling(3) == 65536;
    assert ReadTo(pieces[..0]) == 0 by { NothingAssembled(extents, 65536, data); assert pieces[..0] == []; }
    InHole(pieces, 0);
    InHole(pieces, 1);
    InHole(pieces, 2);
    InHole(pieces, 3);
    AssembledAt(extents, 65536, 131072, data, Doubling, pieces, 3);
    var all := Assembled(extents, 65536, data, pieces);
    ZeroPiece(data, pieces[3]);
    forall k | 65536 <= k < 122880 ensures all[k] == 0 {
      assert all[57344..122880][k - 57344] == all[k];
    }
  }

  lemma ZeroPiece(data: seq<Byte>, piece: Piece)
    requires piece.at < 65536
    ensures forall i :: 0 <= i < piece.n ==> PieceBytes([Extent(1, 5, 1, true)], 65536, data, piece)[i] == 0
  {
  }

  lemma InHole(pieces: seq<Piece>, k: nat)
    requires Traced([Extent(1, 5, 1, true)], 65536, 131072, Doubling, pieces) && ReadTo(pieces) == 131072
    requires k <= |pieces| && ReadTo(pieces[..k]) < 65536
    ensures k < |pieces| && pieces[k].at == ReadTo(pieces[..k]) && pieces[k].n == Min(Min(65536, Doubling(k)), 131072 - pieces[k].at)
    ensures ReadTo(pieces[..k + 1]) == pieces[k].at + pieces[k].n
  {
    hide Doubling, IsRead;
    assert pieces[..|pieces|] == pieces;
    if k < |pieces| {
      assert pieces[..k + 1][k] == pieces[k];
      HoleLength(pieces[k]);
    }
  }

  lemma HoleLength(piece: Piece)
    requires IsRead([Extent(1, 5, 1, true)], 65536, 131072, piece) && piece.at < 65536
    ensures piece.n == Min(Min(65536, piece.want), 131072 - piece.at)
  {
    assert piece.at / 65536 == 0;
    assert FindPart(0, [Extent(1, 5, 1, true)]) == Sparse(1);
  }

  /** Of a file whose only block lies behind the end of the image nothing is read, and no error is reported. */
  method ShortImageRead(reader: TreeReader) returns (r: Result<seq<Byte>>)
    requires reader.Valid() && reader.pos == 0 && reader.len == 4 && reader.blockSize == 4
    requires reader.extents == [Extent(0, 5, 1, true)] && |reader.disk.data| == 20
    modifies reader`pos, reader.disk`pos, reader.disk`plan
    ensures r.Ok? ==> r.value == []
    ensures Fault !in old(reader.disk.plan) ==> r == Ok([])
  {
    hide FileSlice, HoleSafe, Traced, Assembled, ReadTo, IsRead, HoleCount, Suits;
    ghost var pieces;
    forall i, p: nat ensures Suits(4, 4, p, Doubling(i)) {
      DoublingSuffices(i);
    }
    BehindTheEnd();
    r, pieces := reader.ReadToEnd(Doubling);
  }

  lemma {:induction false} DoublingSuffices(i: nat)
    ensures Doubling(i) >= 8192 && forall p: nat :: Suits(4, 4, p, Doubling(i))
  {
    if i > 0 {
      DoublingSuffices(i - 1);
    }
  }

  lemma BehindTheEnd()
    ensures AllOnDisk([Extent(0, 5, 1, true)], 4, U64_MAX + 1, 0, 4) && !OnDisk([Extent(0, 5, 1, true)], 4, 20, 0)
  {
    var extents := [Extent(0, 5, 1, true)];
    var size := U64_MAX + 1;
    forall p: nat | p < 4 ensures OnDisk(extents, 4, size, p) {
      assert p / 4 == 0 && Backing(extents, 0) == Some(extents[0]);
    }
  }

  /** If the initialized extents before the `k`-th start past `len`, the file is zero up to it. */
  lemma ZeroBefore(extents: seq<Extent>, blockSize: nat, k: nat, len: nat, limit: nat)
    requires blockSize > 0 && WellFormed(extents) && k <= |extents| && limit <= len
    requires forall j :: 0 <= j < k && extents[j].initialized ==> extents[j].part * blockSize >= len
    requires k < |extents| ==> limit <= extents[k].part * blockSize
    ensures ZeroUpTo(extents, blockSize, limit)
  {
    forall data: seq<Byte>, p: nat | p < limit ensures FileByte(extents, blockSize, data, p) == 0 {
      var backing := Backing(extents, p / blockSize);
      if backing.Some? {
        var j :| 0 <= j < |extents| && extents[j] == backing.value;
        ExtentArithmetic(extents[j], blockSize, p);
        if j > k {
          MulMono(extents[k].part, extents[j].part, blockSize);
        }
      }
    }
  }

  lemma ExtentStored(extents: seq<Extent>, blockSize: nat, e: Extent, n: nat)
    requires blockSize > 0 && WellFormed(extents) && e in extents && e.initialized && n <= e.len * blockSize
    ensures StoredAt(extents, blockSize, e.part * blockSize, e.start * blockSize, n)
  {
    MulAdd(e.part, e.len, blockSize);
    forall data: seq<Byte> | e.start * blockSize + n <= |data|
      ensures FileSlice(extents, blockSize, data, e.part * blockSize, n) == data[e.start * blockSize..e.start * blockSize + n]
    {
      ActualServes(extents, blockSize, data, e.part * blockSize, n, e);
    }
  }

  lemma ExtentArithmetic(e: Extent, blockSize: nat, p: nat)
    requires blockSize > 0 && Holds(e, p / blockSize)
    ensures e.part * blockSize <= p < (e.part + e.len) * blockSize
    ensures blockSize * (p / blockSize - e.part) + p % blockSize == p - e.part * blockSize
    ensures (e.part + e.len) * blockSize == e.part * blockSize + e.len * blockSize
  {
    var block := p / blockSize;
    MulAdd(e.part, block - e.part, blockSize);
    MulMono(e.part, block, blockSize);
    MulMono(block + 1, e.part + e.len, blockSize);
    MulAdd(e.part, e.len, blockSize);
  }

  /** Where byte `p` of the file lies when `e` holds its block. */
  lemma PlaceInExtent(extents: seq<Extent>, e: Extent, blockSize: nat, p: nat, size: nat)
    requires blockSize > 0 && Holds(e, p / blockSize) && WellFormed(extents) && e in extents && e.initialized
    ensures var through := blockSize * (p / blockSize - e.part) + p % blockSize;
            && 0 <= through < e.len * blockSize && e.part * blockSize + through == p
            && p + (e.len * blockSize - through) == (e.part + e.len) * blockSize
            && DiskOffset(e, blockSize, p) == e.start * blockSize + through
    ensures OnDisk(extents, blockSize, size, p) <==> DiskOffset(e, blockSize, p) < size
  {
    ExtentArithmetic(e, blockSize, p);
    BackingUnique(extents, p / blockSize, e);
  }

  lemma BlockBelow(p: nat, last: nat, blockSize: nat)
    requires blockSize > 0 && p <= last
    ensures p / blockSize <= last / blockSize
  {
    BlockOf(p, blockSize, 0, last / blockSize + 1);
  }
}
