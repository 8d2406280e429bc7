// EWF chunk tables: how one chunk decodes, what a validated layout guarantees, and the flat image
// that the pages of all chunks make up.
module EwfImage {
  import opened Basics
  import opened Sources
  import opened Adler

  type Fill = s: seq<Byte> | |s| == 8 witness [0, 0, 0, 0, 0, 0, 0, 0]

  datatype Encoding = Raw | Zlib | Bzip2 | Pattern(fill: Fill)

  datatype Chunk = Chunk(segment: nat, encoding: Encoding, checksummed: bool, offset: U64, size: U64)

  datatype EwfError =
    | InvalidChunkSize | CapacityOverflow | NotCovered | WrongChunkCount | StoredLimitOverflow
    | MissingSegment | ZeroStoredSize | StoredTooLarge | ShorterThanChecksum | RawTooLarge | RangeOverflow
    | PastSegmentEnd | NoSuchChunk | ShortRead | CorruptStream | ExpandsTooFar | DecodesShort | AdlerMismatch
    | RawShort

  type EwfResult<+T> = Basics.Result<T, EwfError>

  /** What a decompressor delivers for some stored bytes, and whether it then fails or ends. */
  datatype Stream = Stream(bytes: seq<Byte>, fails: bool)

  datatype Image = Image(
    segments: seq<seq<Byte>>,
    chunks: seq<Chunk>,
    chunkSize: U64,
    totalSize: U64,
    codec: (Encoding, seq<Byte>) -> Stream)
  {
    /** The chunk that a media offset belongs to, and the offset within its page. */
    function IdOf(offset: nat): (id: nat)
      requires chunkSize > 0
    {
      offset / chunkSize
    }

    function Within(offset: nat): (w: nat)
      requires chunkSize > 0
      ensures w < chunkSize
    {
      offset % chunkSize
    }

    /** How many bytes of a chunk's page the image needs. */
    function Required(id: nat): nat {
      Min(SatSub(totalSize, id * chunkSize), chunkSize)
    }

    function Zeros(n: nat): seq<Byte> {
      seq<Byte>(n, _ => 0)
    }

    /** The page that a pattern chunk stands for. */
    function Filled(fill: Fill): (page: seq<Byte>)
      ensures |page| == chunkSize
    {
      seq<Byte>(chunkSize, i requires i >= 0 => fill[i % 8])
    }

    /** A decompressed chunk: it must reach the required length and not exceed the page. */
    function Inflated(stream: Stream, required: nat): EwfResult<seq<Byte>> {
      if |stream.bytes| > chunkSize then Err(ExpandsTooFar)
      else if stream.fails then Err(CorruptStream)
      else if |stream.bytes| < required then Err(DecodesShort)
      else Ok(stream.bytes + Zeros(chunkSize - |stream.bytes|))
    }

    /** A raw chunk: its checksum, if it carries one, must match and is not part of the data. */
    function Unwrapped(stored: seq<Byte>, checksummed: bool, required: nat): EwfResult<seq<Byte>> {
      if checksummed && |stored| < 4 then Err(ShorterThanChecksum)
      else
        var split := if checksummed then |stored| - 4 else |stored|;
        if checksummed && Le(stored, split, 4) != Checksum(stored[..split]) then Err(AdlerMismatch)
        else if split < required || split > chunkSize then Err(RawShort)
        else Ok(stored[..split] + Zeros(chunkSize - split))
    }

    /** The decoded page of a chunk: a function of the chunk's id alone. */
    function Page(id: nat): (r: EwfResult<seq<Byte>>)
      ensures r.Ok? ==> |r.value| == chunkSize
    {
      if id >= |chunks| then Err(NoSuchChunk)
      else
        var chunk := chunks[id];
        if chunk.segment >= |segments| then Err(MissingSegment)
        else if chunk.encoding.Pattern? then Ok(Filled(chunk.encoding.fill))
        else
          var stored := Window(segments[chunk.segment], chunk.offset, chunk.offset + chunk.size);
          if |stored| < chunk.size then Err(ShortRead)
          else if chunk.encoding.Raw? then Unwrapped(stored, chunk.checksummed, Required(id))
          else Inflated(codec(chunk.encoding, stored), Required(id))
    }

    // -------------------------------------------------------------- validated layouts

    function MaxStoredSize(): nat {
      chunkSize + Max(chunkSize / 8, 1024 * 1024)
    }

    /** What is checked of one chunk before the image is opened. */
    predicate ChunkOk(chunk: Chunk) {
      chunk.encoding.Pattern? ||
      (&& chunk.segment < |segments|
       && 0 < chunk.size <= MaxStoredSize()
       && (chunk.encoding.Raw? ==> (if chunk.checksummed then 4 else 0) <= chunk.size <= chunkSize + (if chunk.checksummed then 4 else 0))
       && chunk.offset + chunk.size <= |segments[chunk.segment]|)
    }

    /** The media is covered exactly: the last chunk starts before its end, and reaches it. */
    predicate LayoutOk() {
      && chunkSize > 0
      && |chunks| * chunkSize <= U64_MAX && MaxStoredSize() <= U64_MAX
      && totalSize <= |chunks| * chunkSize && (|chunks| > 0 ==> (|chunks| - 1) * chunkSize < totalSize)
      && forall chunk <- chunks :: ChunkOk(chunk)
    }

    // -------------------------------------------------------------- the flat image

    /** Byte `i` of the flat image. */
    function FlatByte(i: nat): Byte
      requires chunkSize > 0
    {
      var page := Page(IdOf(i));
      if page.Ok? then page.value[Within(i)] else 0
    }

    function Flat(from: nat, n: nat): (s: seq<Byte>)
      requires chunkSize > 0
      ensures |s| == n
      ensures forall i :: 0 <= i < n ==> s[i] == FlatByte(from + i)
    {
      seq<Byte>(n, i requires i >= 0 => FlatByte(from + i))
    }

    /** The chunks that `n` bytes at `from` touch can all be decoded. */
    ghost predicate Decodable(from: nat, n: nat)
      requires chunkSize > 0
    {
      n > 0 ==> forall id :: IdOf(from) <= id <= IdOf(from + n - 1) ==> Page(id).Ok?
    }

    /** All decoded pages one after the other. */
    function Pages(count: nat): (s: seq<Byte>)
      ensures |s| == count * chunkSize
    {
      if count == 0 then []
      else
        var page := Page(count - 1);
        Pages(count - 1) + if page.Ok? then page.value else Zeros(chunkSize)
    }
  }

  // ---------------------------------------------------------------- facts

  lemma DivideOnce(image: Image, id: nat, within: nat)
    requires within < image.chunkSize
    ensures image.IdOf(id * image.chunkSize + within) == id
    ensures image.Within(id * image.chunkSize + within) == within
  {
    Split(id * image.chunkSize + within, image.chunkSize, id, within);
  }

  /** Division with remainder is unique. */
  lemma Split(x: nat, d: nat, q: nat, r: nat)
    requires d > 0 && x == q * d + r && r < d
    ensures x / d == q && x % d == r
  {
    var q', r' := x / d, x % d;
    assert x == q' * d + r';
    assert (q' + 1) * d == q' * d + d && (q + 1) * d == q * d + d;
    if q' < q {
      Product(q' + 1, q, d);
    } else if q < q' {
      Product(q + 1, q', d);
    }
  }

  lemma Product(a: nat, b: nat, d: nat)
    requires a <= b
    ensures a * d <= b * d
  {
  }

  /** The flat image is all decoded pages concatenated and cut at the media size. */
  lemma {:induction false} FlatIsPages(image: Image, count: nat)
    requires image.chunkSize > 0
    ensures image.Flat(0, count * image.chunkSize) == image.Pages(count)
  {
    hide Image.Page, Image.IdOf, Image.Within;
    var d := image.chunkSize;
    if count > 0 {
      FlatIsPages(image, count - 1);
      assert count * d == (count - 1) * d + d;
      var flat, pages := image.Flat(0, count * d), image.Pages(count);
      forall i | 0 <= i < count * d ensures flat[i] == pages[i] {
        if i < (count - 1) * d {
          assert flat[i] == image.Flat(0, (count - 1) * d)[i];
        } else {
          DivideOnce(image, count - 1, i - (count - 1) * d);
        }
      }
    }
  }

  /** In a validated layout every chunk starts inside the media, and all but the last are needed whole. */
  lemma ChunkInside(image: Image, id: nat)
    requires image.LayoutOk() && id < |image.chunks|
    ensures id * image.chunkSize < image.totalSize && (id + 1) * image.chunkSize <= U64_MAX
    ensures 0 < image.Required(id) && (id + 1 < |image.chunks| ==> image.Required(id) == image.chunkSize)
  {
    var d := image.chunkSize;
    Product(id, |image.chunks| - 1, d);
    Product(id + 1, |image.chunks|, d);
    assert (id + 1) * d == id * d + d;
    if id + 1 < |image.chunks| {
      Product(id + 1, |image.chunks| - 1, d);
    }
  }

  /** An offset inside the media belongs to a chunk of the table. */
  lemma OffsetHasChunk(image: Image, offset: nat)
    requires image.LayoutOk() && offset < image.totalSize
    ensures image.IdOf(offset) < |image.chunks|
    ensures offset == image.IdOf(offset) * image.chunkSize + image.Within(offset)
  {
    var d, q := image.chunkSize, offset / image.chunkSize;
    assert offset == q * d + offset % d;
    if q >= |image.chunks| {
      Product(|image.chunks|, q, d);
    }
  }

  /**
   * After validation a chunk can only fail for what it stores: its stream, its checksum, or too
   * little data. Short reads, missing segments and oversized raw data cannot happen any more.
   */
  lemma OnlyContentFails(image: Image, id: nat)
    requires image.LayoutOk() && id < |image.chunks|
    requires !image.chunks[id].encoding.Pattern?
    ensures var page := image.Page(id);
            page.Err? ==> page.error in {CorruptStream, ExpandsTooFar, DecodesShort, AdlerMismatch, RawShort}
    ensures image.chunks[id].encoding.Raw? && image.Page(id) == Err(RawShort) ==>
              image.chunks[id].size < image.Required(id) + if image.chunks[id].checksummed then 4 else 0
  {
    assert image.ChunkOk(image.chunks[id]);
  }
}
