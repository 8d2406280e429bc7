// The EWF reader: validation, decoding, cached random access with a serial and a parallel path,
// and verification, proved against the flat image.
module EwfReaders {
  import opened Basics
  import opened Sources
  import opened Adler
  import opened EwfImage
  import opened EwfCache

  const PARALLEL_BYTES: nat := 64 * 1024

  datatype SeekFrom = Start(offset: U64) | End(diff: int) | Current(diff: int)

  /** What verification computes: the hashes of the media and whether they match the stored ones. */
  datatype VerifyResult = VerifyResult(md5: seq<Byte>, sha1: Option<seq<Byte>>, md5Match: Option<bool>, sha1Match: Option<bool>)

  // ---------------------------------------------------------------- validation

  /** The checks made once when an image is opened; they accept exactly the valid layouts. */
  method ValidateChunkLayout(image: Image) returns (error: Option<EwfError>)
    ensures error.None? <==> image.LayoutOk()
  {
    if image.chunkSize == 0 {
      return Some(InvalidChunkSize);
    }
    var capacity := |image.chunks| * image.chunkSize;
    if capacity > U64_MAX {
      return Some(CapacityOverflow);
    }
    if image.totalSize > capacity {
      return Some(NotCovered);
    }
    var expectedChunks := (image.totalSize + image.chunkSize - 1) / image.chunkSize;
    CeilingCovers(image);
    if |image.chunks| != expectedChunks {
      return Some(WrongChunkCount);
    }
    if image.MaxStoredSize() > U64_MAX {
      return Some(StoredLimitOverflow);
    }
    for id := 0 to |image.chunks|
      invariant forall chunk <- image.chunks[..id] :: image.ChunkOk(chunk)
    {
      var chunk := image.chunks[id];
      error := CheckChunk(image, chunk);
      assert chunk in image.chunks && image.chunks[..id + 1] == image.chunks[..id] + [chunk];
      if error.Some? {
        return;
      }
    }
    assert image.chunks[..|image.chunks|] == image.chunks;
    error := None;
  }

  method CheckChunk(image: Image, chunk: Chunk) returns (error: Option<EwfError>)
    requires image.chunkSize > 0
    ensures error.None? <==> image.ChunkOk(chunk)
  {
    if chunk.encoding.Pattern? {
      return None;
    }
    if chunk.segment >= |image.segments| {
      return Some(MissingSegment);
    }
    if chunk.size == 0 {
      return Some(ZeroStoredSize);
    }
    if chunk.size > image.MaxStoredSize() {
      return Some(StoredTooLarge);
    }
    if chunk.encoding.Raw? {
      var checksumBytes := if chunk.checksummed then 4 else 0;
      if chunk.size < checksumBytes {
        return Some(ShorterThanChecksum);
      }
      if chunk.size - checksumBytes > image.chunkSize {
        return Some(RawTooLarge);
      }
    }
    if chunk.offset + chunk.size > |image.segments[chunk.segment]| {
      return Some(PastSegmentEnd);
    }
    error := None;
  }

  /** The rounded-up quotient is the number of chunks exactly if the last one starts inside. */
  lemma CeilingCovers(image: Image)
    requires image.chunkSize > 0 && image.totalSize <= |image.chunks| * image.chunkSize
    ensures |image.chunks| == (image.totalSize + image.chunkSize - 1) / image.chunkSize
       <==> (|image.chunks| > 0 ==> (|image.chunks| - 1) * image.chunkSize < image.totalSize)
  {
    var d, n, t := image.chunkSize, |image.chunks|, image.totalSize;
    var c := (t + d - 1) / d;
    assert c * d <= t + d - 1 < c * d + d;
    if n > 0 {
      assert (n - 1) * d == n * d - d;
      if (n - 1) * d < t {
        Split(t + d - 1, d, n, t - (n - 1) * d - 1);
      }
    } else {
      Split(t + d - 1, d, 0, d - 1);
    }
  }

  // ---------------------------------------------------------------- decoding

  /** Fills a page from a decompressor over short reads, then asks for one byte more. */
  method DecodeCompressedChunk(image: Image, stream: Stream, required: nat) returns (r: EwfResult<seq<Byte>>)
    requires required <= image.chunkSize
    ensures r == image.Inflated(stream, required)
  {
    var page := new Byte[image.chunkSize](_ => 0);
    var total := 0;
    while total < page.Length
      invariant total <= page.Length && total <= |stream.bytes|
      invariant page[..total] == stream.bytes[..total]
      invariant forall k :: total <= k < page.Length ==> page[k] == 0
      decreases page.Length - total
    {
      if total == |stream.bytes| {
        if stream.fails {
          return Err(CorruptStream);
        }
        break;
      }
      var n :| 1 <= n && total + n <= page.Length && total + n <= |stream.bytes|;
      ghost var before := page[..total];
      forall k | total <= k < total + n {
        page[k] := stream.bytes[k];
      }
      assert page[..total] == before;
      total := total + n;
    }
    if total < required {
      return Err(DecodesShort);
    }
    if total == page.Length {
      if total < |stream.bytes| {
        return Err(ExpandsTooFar);
      }
      if stream.fails {
        return Err(CorruptStream);
      }
    }
    assert page[..] == stream.bytes + image.Zeros(page.Length - total);
    r := Ok(page[..]);
  }

  class EwfReader {
    const image: Image
    const capacity: nat
    var cache: Cache
    var position: U64

    ghost predicate Valid()
      reads this`cache
    {
      image.LayoutOk() && capacity > 0 && Coherent(image, capacity, cache)
    }

    /** A requested cache of zero chunks still holds one. */
    constructor (image: Image, cacheSize: nat)
      requires image.LayoutOk()
      ensures Valid() && this.image == image && position == 0 && cache == [] && capacity == Max(cacheSize, 1)
    {
      this.image := image;
      capacity := Max(cacheSize, 1);
      cache, position := [], 0;
    }

    /** Decodes a chunk without the cache. */
    method DecompressChunk(id: nat) returns (r: EwfResult<Page>)
      requires image.chunkSize > 0
      ensures r == image.Page(id)
    {
      if id >= |image.chunks| {
        return Err(NoSuchChunk);
      }
      var chunk := image.chunks[id];
      if chunk.segment >= |image.segments| {
        return Err(MissingSegment);
      }
      var required := image.Required(id);
      if chunk.encoding.Pattern? {
        return Ok(image.Filled(chunk.encoding.fill));
      }
      var stored := Window(image.segments[chunk.segment], chunk.offset, chunk.offset + chunk.size);
      if |stored| < chunk.size {
        return Err(ShortRead);
      }
      if !chunk.encoding.Raw? {
        r := DecodeCompressedChunk(image, image.codec(chunk.encoding, stored), required);
        return;
      }
      var data := stored;
      if chunk.checksummed {
        if |stored| < 4 {
          return Err(ShorterThanChecksum);
        }
        var split := |stored| - 4;
        var computed := Adler32(stored[..split]);
        if Le(stored, split, 4) != computed {
          return Err(AdlerMismatch);
        }
        data := stored[..split];
      } else {
        assert stored[..|stored|] == stored;
      }
      if |data| < required || |data| > image.chunkSize {
        return Err(RawShort);
      }
      r := Ok(data + image.Zeros(image.chunkSize - |data|));
    }

    /** Serves a chunk from the cache or decodes and caches it; the answer is the page either way. */
    method ReadChunk(id: nat) returns (r: EwfResult<Page>)
      requires Valid()
      modifies this`cache
      ensures Valid() && r == image.Page(id)
    {
      hide Coherent, Lookup, Touched, Inserted;
      var hit := Lookup(cache, id);
      if hit.Some? {
        TouchedCoherent(image, capacity, cache, id);
        cache := Touched(cache, id, hit.value);
        return Ok(hit.value);
      }
      r := DecompressChunk(id);
      if r.Ok? {
        InsertedCoherent(image, capacity, cache, id, r.value);
        cache := Inserted(cache, capacity, id, r.value);
      }
    }

    /** The serial path: chunk by chunk through the cache. */
    method ReadSerial(buf: array<Byte>, offset: U64, readable: nat) returns (r: EwfResult<nat>)
      requires Valid() && 0 < readable == Min(buf.Length, SatSub(image.totalSize, offset))
      modifies this`cache, buf
      ensures Valid() && Reads(image, old(buf[..]), buf[..], offset, readable, r)
    {
      hide Coherent, Filled, Reads, Image.IdOf, Image.Within, PieceStart;
      var bufIdx, off := 0, offset;
      NothingRead(image, buf[..], offset);
      while true
        invariant Valid() && off == offset + bufIdx && bufIdx <= readable && buf.Length == |old(buf[..])|
        invariant Filled(image, old(buf[..]), buf[..], offset, bufIdx) && image.Decodable(offset, bufIdx)
        decreases readable - bufIdx
      {
        var remainingImage := SatSub(image.totalSize, off);
        var remainingBuf := buf.Length - bufIdx;
        var inChunk := image.chunkSize - image.Within(off);
        var toRead := Min(Min(inChunk, remainingImage), remainingBuf);
        if toRead == 0 {
          break;
        }
        var id, pageOffset := image.IdOf(off), image.Within(off);
        var page := ReadChunk(id);
        InRange(image, offset, readable, off);
        if page.Err? {
          ReadFails(image, old(buf[..]), buf[..], offset, readable, bufIdx, id);
          return Err(page.error);
        }
        CopyInto(buf, bufIdx, page.value, pageOffset, toRead, image, old(buf[..]), offset, id);
        off := off + toRead;  // at most the media size, so this cannot overflow
        bufIdx := bufIdx + toRead;
      }
      ReadSucceeds(image, old(buf[..]), buf[..], offset, readable);
      r := Ok(bufIdx);
    }

    /** The parallel path: all chunks are decoded in any order, then copied in logical order. */
    method ReadParallel(buf: array<Byte>, offset: U64, readable: nat) returns (r: EwfResult<nat>)
      requires Valid() && 0 < readable == Min(buf.Length, SatSub(image.totalSize, offset))
      modifies this`cache, buf
      ensures Valid() && Reads(image, old(buf[..]), buf[..], offset, readable, r)
    {
      hide Coherent, Filled, Reads, Image.IdOf, Image.Within, PieceStart;
      var first, last := image.IdOf(offset), image.IdOf(offset + readable - 1);
      NothingRead(image, buf[..], offset);
      var pages, failed := DecodeAll(first, last);
      if failed.Some? {
        ReadFails(image, old(buf[..]), buf[..], offset, readable, 0, failed.value.0);
        return Err(failed.value.1);
      }
      CopyPages(buf, offset, readable, pages);
      ReadSucceeds(image, old(buf[..]), buf[..], offset, readable);
      r := Ok(readable);
    }

    /** The pages of all chunks of a read, copied into the buffer in logical order. */
    method CopyPages(buf: array<Byte>, offset: U64, readable: nat, pages: map<nat, Page>)
      requires Valid() && 0 < readable == Min(buf.Length, SatSub(image.totalSize, offset))
      requires forall id :: image.IdOf(offset) <= id <= image.IdOf(offset + readable - 1) ==>
                 id in pages && image.Page(id) == Ok(pages[id])
      modifies buf
      ensures Filled(image, old(buf[..]), buf[..], offset, readable) && image.Decodable(offset, readable)
    {
      hide Coherent, Filled, Image.IdOf, Image.Within, PieceStart;
      var first, last := image.IdOf(offset), image.IdOf(offset + readable - 1);
      NothingRead(image, buf[..], offset);
      var id := first;
      ghost var done := 0;
      InRange(image, offset, readable, offset);
      PieceBounds(image, offset, readable, first);
      while id <= last
        invariant first <= id <= last + 1 && Valid() && buf.Length == |old(buf[..])|
        invariant done == PieceStart(image, offset, readable, id)
        invariant Filled(image, old(buf[..]), buf[..], offset, done) && image.Decodable(offset, done)
      {
        var chunkStart := id * image.chunkSize;
        PieceBounds(image, offset, readable, id);
        var copyStart := Max(offset, chunkStart);
        var copyEnd := Min(offset + readable, chunkStart + image.chunkSize);
        CopyInto(buf, copyStart - offset, pages[id], copyStart - chunkStart, copyEnd - copyStart,
                 image, old(buf[..]), offset, id);
        done := done + (copyEnd - copyStart);
        id := id + 1;
      }
      PieceBounds(image, offset, readable, last);
    }

    /**
     * The same with the single steps of any number of threads interleaved: if every chunk of the
     * read was served to some thread in some run on a shared cache, the buffer gets the flat image.
     */
    method ReadFromRun(buf: array<Byte>, offset: U64, readable: nat, pages: map<nat, Page>,
                       ghost capacity: nat, ghost actions: seq<Action>, ghost threads: map<nat, nat>)
      requires Valid() && 0 < readable == Min(buf.Length, SatSub(image.totalSize, offset)) && capacity > 0
      requires forall id :: image.IdOf(offset) <= id <= image.IdOf(offset + readable - 1) ==>
                 && id in pages && id in threads
                 && Phase(Run(image, capacity, State([], map[]), actions), threads[id]) == Finished(id, Ok(pages[id]))
      modifies buf
      ensures Filled(image, old(buf[..]), buf[..], offset, readable)
    {
      hide Coherent, Filled, Run;
      EveryInterleaving(image, capacity, actions);
      CopyPages(buf, offset, readable, pages);
    }

    /** Decodes a range of chunks in an arbitrary order, or reports one that fails. */
    method DecodeAll(first: nat, last: nat) returns (pages: map<nat, Page>, failed: Option<(nat, EwfError)>)
      requires Valid()
      modifies this`cache
      ensures Valid()
      ensures failed.None? ==> forall id :: first <= id <= last ==> id in pages && image.Page(id) == Ok(pages[id])
      ensures failed.Some? ==> first <= failed.value.0 <= last && image.Page(failed.value.0) == Err(failed.value.1)
    {
      hide Coherent;
      pages, failed := map[], None;
      var pending := Ids(first, last);
      while pending != {}
        invariant Valid() && pending <= Ids(first, last)
        invariant forall id <- Ids(first, last) - pending :: id in pages && image.Page(id) == Ok(pages[id])
      {
        var id :| id in pending;
        var page := ReadChunk(id);
        if page.Err? {
          failed := Some((id, page.error));
          return;
        }
        pages := pages[id := page.value];
        pending := pending - {id};
      }
    }

    /**
     * A positioned read. It returns as many bytes as the media still has, and they are the flat
     * image's; it fails exactly if a chunk it touches cannot be decoded, with that chunk's error.
     */
    method ReadAt(buf: array<Byte>, offset: U64) returns (r: EwfResult<nat>)
      requires Valid() && buf.Length <= U64_MAX
      modifies this`cache, buf
      ensures Valid()
      ensures var readable := Min(buf.Length, SatSub(image.totalSize, offset));
              && (readable == 0 ==> r == Ok(0))
              && Reads(image, old(buf[..]), buf[..], offset, readable, r)
    {
      hide Coherent, Filled, Reads, Image.IdOf, Image.Within;
      var readable := Min(SatSub(image.totalSize, offset), buf.Length);
      if readable == 0 {
        NothingRead(image, buf[..], offset);
        ReadSucceeds(image, buf[..], buf[..], offset, 0);
        return Ok(0);
      }
      var firstChunk, lastChunk := image.IdOf(offset), image.IdOf(offset + readable - 1);
      InRange(image, offset, readable, offset);
      if lastChunk - firstChunk + 1 > 1 && readable >= PARALLEL_BYTES {
        r := ReadParallel(buf, offset, readable);
      } else {
        r := ReadSerial(buf, offset, readable);
      }
    }

    /** The cursor-based read: a positioned read that moves the position by what it delivered. */
    method Read(buf: array<Byte>) returns (r: EwfResult<nat>)
      requires Valid() && buf.Length <= U64_MAX
      modifies this`cache, this`position, buf
      ensures Valid()
      ensures Reads(image, old(buf[..]), buf[..], old(position), Min(buf.Length, SatSub(image.totalSize, old(position))), r)
      ensures position == old(position) + if r.Ok? then r.value else 0
    {
      hide Coherent, Filled, Image.Decodable;
      r := ReadAt(buf, position);
      if r.Ok? {
        position := position + r.value;
      }
    }

    /** Seeking may leave the media but not the 64-bit range. */
    method Seek(target: SeekFrom) returns (r: Option<U64>)
      requires Valid()
      modifies this`position
      ensures var requested := match target
                case Start(offset) => offset
                case End(diff) => image.totalSize + diff
                case Current(diff) => old(position) + diff;
              && (r.Some? <==> 0 <= requested <= U64_MAX)
              && (r.Some? ==> position == requested == r.value)
              && (r.None? ==> position == old(position))
    {
      var requested := match target
        case Start(offset) => offset
        case End(diff) => image.totalSize + diff
        case Current(diff) => position + diff;
      if requested < 0 || requested > U64_MAX {
        return None;
      }
      position := requested;
      r := Some(position);
    }

    /** Decodes one batch of chunks without the cache, keeping their order. */
    method DecodeBatch(start: nat, end: nat) returns (pages: seq<Page>, failed: Option<(nat, EwfError)>)
      requires Valid() && start <= end
      ensures failed.None? ==> |pages| == end - start && forall id :: start <= id < end ==> image.Page(id) == Ok(pages[id - start])
      ensures failed.Some? ==> start <= failed.value.0 < end && image.Page(failed.value.0) == Err(failed.value.1)
    {
      pages, failed := [], None;
      hide Image.Page;
      for id := start to end
        invariant |pages| == id - start && forall k :: start <= k < id ==> image.Page(k) == Ok(pages[k - start])
      {
        var page := DecompressChunk(id);
        if page.Err? {
          failed := Some((id, page.error));
          return;
        }
        pages := pages + [page.value];
      }
    }

    /**
     * Verification feeds the hashers the flat image, whatever the batch size, and fails exactly
     * if some chunk cannot be decoded. A hasher is the sequence of bytes it was given.
     */
    method Verify(batch: nat, storedMd5: Option<seq<Byte>>, storedSha1: Option<seq<Byte>>,
                  md5: seq<Byte> -> seq<Byte>, sha1: seq<Byte> -> seq<Byte>) returns (r: EwfResult<VerifyResult>)
      requires Valid() && batch > 0
      ensures r.Ok? <==> forall id :: 0 <= id < |image.chunks| ==> image.Page(id).Ok?
      ensures r.Err? ==> exists id :: 0 <= id < |image.chunks| && image.Page(id) == Err(r.error)
      ensures r.Ok? ==>
                var flat := image.Flat(0, image.totalSize);
                && r.value.md5 == md5(flat)
                && r.value.sha1 == (if storedSha1.Some? then Some(sha1(flat)) else None)
                && r.value.md5Match == (if storedMd5.Some? then Some(storedMd5.value == md5(flat)) else None)
                && r.value.sha1Match == (if storedSha1.Some? then Some(storedSha1.value == sha1(flat)) else None)
    {
      hide Image.Flat, Image.IdOf, Image.Within, Image.Page, MediaBefore;
      MediaCovered(image);
      var hashed := 0;
      var fed: seq<Byte> := [];
      var start := 0;
      FlatNone(image);
      while start < |image.chunks|
        invariant start <= |image.chunks| && fed == image.Flat(0, hashed)
        invariant hashed == MediaBefore(image, start)
        invariant forall id :: 0 <= id < start ==> image.Page(id).Ok?
      {
        var end := Min(start + batch, |image.chunks|);
        var pages, failed := DecodeBatch(start, end);
        if failed.Some? {
          return Err(failed.value.1);
        }
        for i := 0 to |pages|
          invariant fed == image.Flat(0, hashed)
          invariant hashed == MediaBefore(image, start + i)
        {
          var remaining := SatSub(image.totalSize, hashed);
          var take := Min(|pages[i]|, remaining);
          FeedPage(image, start + i, pages[i]);
          fed := fed + pages[i][..take];
          hashed := hashed + take;
        }
        start := end;
      }
      var sha1Sum := if storedSha1.Some? then Some(sha1(fed)) else None;
      r := Ok(VerifyResult(md5(fed), sha1Sum,
                           if storedMd5.Some? then Some(storedMd5.value == md5(fed)) else None,
                           if storedSha1.Some? then Some(storedSha1.value == sha1(fed)) else None));
    }
  }

  lemma FlatNone(image: Image)
    requires image.chunkSize > 0
    ensures image.Flat(0, 0) == []
  {
  }

  /** How many bytes of the media lie in the chunks before `id`. */
  function MediaBefore(image: Image, id: nat): nat {
    Min(id * image.chunkSize, image.totalSize)
  }

  lemma MediaCovered(image: Image)
    requires image.LayoutOk()
    ensures MediaBefore(image, 0) == 0 && MediaBefore(image, |image.chunks|) == image.totalSize
  {
  }

  /** The next page, cut at the end of the media, continues the flat image. */
  lemma FeedPage(image: Image, id: nat, page: Page)
    requires image.LayoutOk() && id < |image.chunks| && image.Page(id) == Ok(page)
    ensures var hashed := MediaBefore(image, id);
            var take := Min(|page|, SatSub(image.totalSize, hashed));
            && image.Flat(0, hashed) + page[..take] == image.Flat(0, hashed + take)
            && hashed + take == MediaBefore(image, id + 1)
  {
    hide Image.Page;
    PageLength(image, id);
    ChunkInside(image, id);
    var hashed := MediaBefore(image, id);
    StepUp(id, id + 1, image.chunkSize);
    var take := Min(|page|, image.totalSize - hashed);
    var flat := image.Flat(0, hashed + take);
    forall i | 0 <= i < take ensures flat[hashed + i] == page[i] {
      DivideOnce(image, id, i);
    }
    assert image.Flat(0, hashed) == flat[..hashed];
    assert page[..take] == flat[hashed..];
  }

  lemma PageLength(image: Image, id: nat)
    ensures image.Page(id).Ok? ==> |image.Page(id).value| == image.chunkSize
  {
  }

  /** The chunk ids of a range. */
  function Ids(first: nat, last: nat): (ids: set<nat>)
    ensures forall id: nat :: id in ids <==> first <= id <= last
    decreases SatSub(last + 1, first)
  {
    if first > last then {} else {first} + Ids(first + 1, last)
  }

  // ---------------------------------------------------------------- what a read must do

  /** `n` bytes of the image are in the buffer and the rest of it is as before. */
  ghost predicate Filled(image: Image, was: seq<Byte>, now: seq<Byte>, offset: nat, n: nat)
    requires image.chunkSize > 0
  {
    && n <= |was| == |now|
    && now[..n] == image.Flat(offset, n) && now[n..] == was[n..]
  }

  ghost predicate Reads(image: Image, was: seq<Byte>, now: seq<Byte>, offset: nat, n: nat, r: EwfResult<nat>)
    requires image.chunkSize > 0
  {
    && n <= |was| == |now| && now[n..] == was[n..]
    && (r.Ok? ==> r.value == n && Filled(image, was, now, offset, n))
    && (r.Ok? <==> image.Decodable(offset, n))
    && (r.Err? ==> n > 0 && exists id :: image.IdOf(offset) <= id <= image.IdOf(offset + n - 1)
                                         && image.Page(id) == Err(r.error))
  }

  lemma NothingRead(image: Image, was: seq<Byte>, offset: nat)
    requires image.chunkSize > 0
    ensures Filled(image, was, was, offset, 0) && image.Decodable(offset, 0)
  {
  }

  lemma ReadSucceeds(image: Image, was: seq<Byte>, now: seq<Byte>, offset: nat, n: nat)
    requires image.chunkSize > 0 && Filled(image, was, now, offset, n) && image.Decodable(offset, n)
    ensures Reads(image, was, now, offset, n, Ok(n))
  {
  }

  lemma ReadFails(image: Image, was: seq<Byte>, now: seq<Byte>, offset: nat, n: nat, done: nat, id: nat)
    requires image.chunkSize > 0 && Filled(image, was, now, offset, done) && done <= n <= |was| && n > 0
    requires image.Page(id).Err? && image.IdOf(offset) <= id <= image.IdOf(offset + n - 1)
    ensures Reads(image, was, now, offset, n, Err(image.Page(id).error))
  {
    assert now[n..] == now[done..][n - done..] && was[n..] == was[done..][n - done..];
  }

  lemma IdMono(image: Image, a: nat, b: nat)
    requires image.chunkSize > 0 && a <= b
    ensures image.IdOf(a) <= image.IdOf(b)
  {
    var p, q, d := image.IdOf(a), image.IdOf(b), image.chunkSize;
    assert a == p * d + image.Within(a) && b == q * d + image.Within(b) && (q + 1) * d == q * d + d;
    if q < p {
      Product(q + 1, p, d);
    }
  }

  lemma InRange(image: Image, offset: nat, n: nat, off: nat)
    requires image.chunkSize > 0 && offset <= off < offset + n
    ensures image.IdOf(offset) <= image.IdOf(off) <= image.IdOf(offset + n - 1)
    ensures off == image.IdOf(off) * image.chunkSize + image.Within(off)
  {
    IdMono(image, offset, off);
    IdMono(image, off, offset + n - 1);
  }

  /** Where in the buffer the piece of chunk `id` belongs. */
  function PieceStart(image: Image, offset: nat, n: nat, id: nat): nat {
    Min(n, SatSub(id * image.chunkSize, offset))
  }

  /** The pieces of consecutive chunks follow each other and fill the read exactly. */
  lemma PieceBounds(image: Image, offset: nat, n: nat, id: nat)
    requires image.LayoutOk() && n > 0 && offset + n <= image.totalSize
    requires image.IdOf(offset) <= id <= image.IdOf(offset + n - 1)
    ensures var start := id * image.chunkSize;
            var from, to := Max(offset, start), Min(offset + n, start + image.chunkSize);
            && from < to && start + image.chunkSize <= U64_MAX
            && from - offset == PieceStart(image, offset, n, id)
            && to - offset == PieceStart(image, offset, n, id + 1)
    ensures id == image.IdOf(offset + n - 1) ==> PieceStart(image, offset, n, id + 1) == n
  {
    hide Image.IdOf, Image.Within;
    var d, first, last := image.chunkSize, image.IdOf(offset), image.IdOf(offset + n - 1);
    OffsetHasChunk(image, offset);
    OffsetHasChunk(image, offset + n - 1);
    ChunkInside(image, id);
    StepUp(first, id, d);
    StepUp(id, last, d);
    PieceArithmetic(id * d, first * d, last * d, d, offset, n, id, first, last);
  }

  lemma StepUp(a: nat, b: nat, d: nat)
    requires a <= b
    ensures a < b ==> a * d + d <= b * d
    ensures (a + 1) * d == a * d + d
  {
    assert (a + 1) * d == a * d + d;
    if a < b {
      Product(a + 1, b, d);
    }
  }

  /** `PieceBounds` with the products named: `s`, `f` and `l` are where chunks start. */
  lemma PieceArithmetic(s: int, f: int, l: int, d: nat, offset: nat, n: nat, id: nat, first: nat, last: nat)
    requires s == id * d && f == first * d && l == last * d && first <= id <= last && n > 0
    requires f <= offset < f + d && l <= offset + n - 1 < l + d
    requires (id > first ==> f + d <= s) && (id < last ==> s + d <= l)
    ensures var from, to := Max(offset, s), Min(offset + n, s + d);
            && from < to
            && from - offset == Min(n, SatSub(s, offset))
            && to - offset == Min(n, SatSub(s + d, offset))
    ensures id == last ==> Min(n, SatSub(s + d, offset)) == n
    ensures s + d == (id + 1) * d
  {
  }

  /** Adding a piece of one more decoded page extends both what is read and what is decoded. */
  lemma AddPiece(image: Image, was: seq<Byte>, before: seq<Byte>, now: seq<Byte>, offset: nat, done: nat,
                 page: Page, id: nat, pageOffset: nat, count: nat)
    requires image.chunkSize > 0 && image.Page(id) == Ok(page) && count > 0 && pageOffset + count <= image.chunkSize
    requires offset + done == id * image.chunkSize + pageOffset
    requires Filled(image, was, before, offset, done) && image.Decodable(offset, done)
    requires |now| == |before| && done + count <= |now| && now[..done] == before[..done]
    requires now[done..done + count] == page[pageOffset..pageOffset + count] && now[done + count..] == before[done + count..]
    ensures Filled(image, was, now, offset, done + count) && image.Decodable(offset, done + count)
  {
    var flat := image.Flat(offset, done + count);
    forall i | 0 <= i < done + count ensures now[..done + count][i] == flat[i] {
      if i < done {
        assert now[..done][i] == image.Flat(offset, done)[i];
      } else {
        DivideOnce(image, id, pageOffset + (i - done));
        assert now[done..done + count][i - done] == now[i];
      }
    }
    assert before[done + count..] == before[done..][count..] && was[done + count..] == was[done..][count..];
    DecodedOneMore(image, offset, done, id, pageOffset, count);
  }

  lemma DecodedOneMore(image: Image, offset: nat, done: nat, id: nat, pageOffset: nat, count: nat)
    requires image.chunkSize > 0 && image.Page(id).Ok? && count > 0 && pageOffset + count <= image.chunkSize
    requires offset + done == id * image.chunkSize + pageOffset && image.Decodable(offset, done)
    ensures image.Decodable(offset, done + count)
  {
    DivideOnce(image, id, pageOffset + count - 1);
    DivideOnce(image, id, pageOffset);
    forall j | image.IdOf(offset) <= j < id ensures image.Page(j).Ok? {
      var d := image.chunkSize;
      DivideOnce(image, id - 1, d - 1);
      StepUp(id - 1, id, d);
      if done > 0 {
        IdMono(image, id * d - 1, offset + done - 1);
      }
    }
  }

  /** Copies a piece of a page into the caller's buffer. */
  method CopyInto(buf: array<Byte>, at: nat, page: Page, pageOffset: nat, count: nat,
                  ghost image: Image, ghost was: seq<Byte>, ghost offset: nat, ghost id: nat)
    requires image.chunkSize > 0 && image.Page(id) == Ok(page) && count > 0 && pageOffset + count <= image.chunkSize
    requires offset + at == id * image.chunkSize + pageOffset && at + count <= buf.Length
    requires Filled(image, was, buf[..], offset, at) && image.Decodable(offset, at)
    modifies buf
    ensures Filled(image, was, buf[..], offset, at + count) && image.Decodable(offset, at + count)
  {
    hide Filled;
    ghost var before := buf[..];
    forall k | at <= k < at + count {
      buf[k] := page[pageOffset + k - at];
    }
    assert buf[..][at..at + count] == page[pageOffset..pageOffset + count];
    AddPiece(image, was, before, buf[..], offset, at, page, id, pageOffset, count);
  }
}
