// What the decoded image is in terms of the stored bytes: an image that stores given media, in raw,
// pattern or compressed chunks of any size, reads as that media, and every readable image does.
module EwfMedia {
  import opened Basics
  import opened Sources
  import opened Adler
  import opened EwfImage
  import opened EwfReaders

  /** The bytes of a chunk in its segment, if they are all there. */
  predicate InSegment(image: Image, chunk: Chunk) {
    chunk.segment < |image.segments| && chunk.offset + chunk.size <= |image.segments[chunk.segment]|
  }

  /** A raw chunk stores its data as it is, and behind it the checksum if it carries one. */
  predicate HoldsRaw(image: Image, chunk: Chunk, data: seq<Byte>) {
    && InSegment(image, chunk)
    && var segment := image.segments[chunk.segment];
       && chunk.size == |data| + (if chunk.checksummed then 4 else 0)
       && (forall i :: 0 <= i < |data| ==> data[i] == segment[chunk.offset + i])
       && (chunk.checksummed ==> Word(segment, chunk.offset + |data|) == Checksum(data))
  }

  /** A compressed chunk stores something that the codec makes the data of. */
  predicate HoldsCompressed(image: Image, chunk: Chunk, data: seq<Byte>) {
    && InSegment(image, chunk)
    && image.codec(chunk.encoding, image.segments[chunk.segment][chunk.offset..chunk.offset + chunk.size]) == Stream(data, false)
  }

  /** A pattern chunk stands for its eight bytes over and over. */
  predicate HoldsPattern(image: Image, chunk: Chunk, data: seq<Byte>)
    requires chunk.encoding.Pattern?
  {
    && chunk.segment < |image.segments| && |data| == image.chunkSize
    && forall i :: 0 <= i < |data| ==> data[i] == chunk.encoding.fill[i % 8]
  }

  predicate Holds(image: Image, id: nat, data: seq<Byte>) {
    && id < |image.chunks| && |data| <= image.chunkSize
    && var chunk := image.chunks[id];
       match chunk.encoding
       case Raw => HoldsRaw(image, chunk, data)
       case Pattern(_) => HoldsPattern(image, chunk, data)
       case _ => HoldsCompressed(image, chunk, data)
  }

  /** A piece begins with the part of the media that starts at `from`, one chunk or up to the end. */
  predicate IsPart(chunkSize: nat, media: seq<Byte>, from: nat, piece: seq<Byte>) {
    from < |media| ==>
      var n := Min(chunkSize, |media| - from); n <= |piece| && piece[..n] == media[from..from + n]
  }

  /** The chunks hold these pieces, which make up the media. */
  predicate Stores(image: Image, media: seq<Byte>, pieces: seq<seq<Byte>>) {
    && image.chunkSize > 0 && image.totalSize == |media| <= |pieces| * image.chunkSize
    && forall id :: 0 <= id < |pieces| ==>
         Holds(image, id, pieces[id]) && IsPart(image.chunkSize, media, id * image.chunkSize, pieces[id])
  }

  // ---------------------------------------------------------------- one chunk

  /** A chunk that holds enough data decodes to it, with zeros behind. */
  lemma HeldIsDecoded(image: Image, id: nat, data: seq<Byte>)
    requires Holds(image, id, data) && |data| >= image.Required(id)
    ensures var page := image.Page(id);
            && page.Ok? && |page.value| == image.chunkSize
            && forall i :: 0 <= i < image.chunkSize ==> page.value[i] == if i < |data| then data[i] else 0
  {
    hide Le, Checksum;
    var chunk := image.chunks[id];
    if !chunk.encoding.Pattern? {
      var segment := image.segments[chunk.segment];
      var stored := Window(segment, chunk.offset, chunk.offset + chunk.size);
      assert stored == segment[chunk.offset..chunk.offset + chunk.size];
      if chunk.encoding.Raw? {
        assert stored[..|data|] == data;
        if chunk.checksummed {
          FieldsAreNumbers(stored, |data|);
        }
      }
    }
  }

  /** A chunk that decodes holds data of the required length. */
  lemma DecodedIsHeld(image: Image, id: nat) returns (data: seq<Byte>)
    requires image.LayoutOk() && image.Page(id).Ok?
    ensures Holds(image, id, data) && |data| >= image.Required(id)
  {
    hide Image.LayoutOk;
    var chunk := image.chunks[id];
    ChunkIsOk(image, id);
    if chunk.encoding.Pattern? {
      data := image.Filled(chunk.encoding.fill);
    } else {
      var segment := image.segments[chunk.segment];
      var stored := Window(segment, chunk.offset, chunk.offset + chunk.size);
      assert stored == segment[chunk.offset..chunk.offset + chunk.size];
      if chunk.encoding.Raw? {
        data := RawIsHeld(image, chunk, stored, image.Required(id));
      } else {
        data := image.codec(chunk.encoding, stored).bytes;
      }
    }
  }

  lemma ChunkIsOk(image: Image, id: nat)
    requires image.LayoutOk() && id < |image.chunks|
    ensures image.ChunkOk(image.chunks[id])
  {
  }

  lemma RawIsHeld(image: Image, chunk: Chunk, stored: seq<Byte>, required: nat) returns (data: seq<Byte>)
    requires InSegment(image, chunk) && stored == image.segments[chunk.segment][chunk.offset..chunk.offset + chunk.size]
    requires image.Unwrapped(stored, chunk.checksummed, required).Ok?
    ensures HoldsRaw(image, chunk, data) && required <= |data| <= image.chunkSize
  {
    hide Le, Checksum;
    data := stored[..if chunk.checksummed then |stored| - 4 else |stored|];
    if chunk.checksummed {
      FieldsAreNumbers(stored, |data|);
    }
  }

  /** A raw chunk whose stored checksum is not that of its data is refused. */
  lemma WrongChecksumIsRefused(image: Image, id: nat, data: seq<Byte>)
    requires id < |image.chunks| && InSegment(image, image.chunks[id])
    requires var chunk := image.chunks[id]; chunk.encoding.Raw? && chunk.checksummed && chunk.size == |data| + 4
    requires var chunk := image.chunks[id]; var segment := image.segments[chunk.segment];
             && (forall i :: 0 <= i < |data| ==> data[i] == segment[chunk.offset + i])
             && Word(segment, chunk.offset + |data|) != Checksum(data)
    ensures image.Page(id) == Err(AdlerMismatch)
  {
    hide Le, Checksum;
    var chunk := image.chunks[id];
    var segment := image.segments[chunk.segment];
    var stored := Window(segment, chunk.offset, chunk.offset + chunk.size);
    assert stored == segment[chunk.offset..chunk.offset + chunk.size];
    assert stored[..|data|] == data;
    FieldsAreNumbers(stored, |data|);
  }

  // ---------------------------------------------------------------- the whole media

  /** The image is the media it stores, and all of it can be decoded. */
  lemma StoredIsFlat(image: Image, media: seq<Byte>, pieces: seq<seq<Byte>>, from: nat, n: nat)
    requires Stores(image, media, pieces) && from + n <= |media|
    ensures image.Flat(from, n) == media[from..from + n] && image.Decodable(from, n)
  {
    hide Holds, Image.Page;
    var d := image.chunkSize;
    var flat := image.Flat(from, n);
    forall i | 0 <= i < n ensures flat[i] == media[from..from + n][i] {
      StoredByte(image, media, pieces, from + i);
    }
    if n > 0 {
      forall id | image.IdOf(from) <= id <= image.IdOf(from + n - 1) ensures image.Page(id).Ok? {
        IsStored(image, media, pieces, from + n - 1, id);
      }
    }
  }

  /** Every chunk up to that of a media byte decodes. */
  lemma IsStored(image: Image, media: seq<Byte>, pieces: seq<seq<Byte>>, offset: nat, id: nat)
    requires Stores(image, media, pieces) && offset < |media| && id <= image.IdOf(offset)
    ensures id < |pieces| && image.Page(id).Ok?
  {
    hide Holds, Image.Page;
    var d, last := image.chunkSize, image.IdOf(offset);
    assert offset == last * d + offset % d;
    if last >= |pieces| {
      Product(|pieces|, last, d);
    }
    Product(id, last, d);
    Enough(image, media, pieces, id);
    HeldIsDecoded(image, id, pieces[id]);
  }

  lemma Enough(image: Image, media: seq<Byte>, pieces: seq<seq<Byte>>, id: nat)
    requires Stores(image, media, pieces) && id < |pieces|
    ensures |pieces[id]| >= image.Required(id)
  {
    hide Holds;
  }

  lemma PartByte(chunkSize: nat, media: seq<Byte>, from: nat, piece: seq<Byte>, i: nat)
    requires IsPart(chunkSize, media, from, piece) && i < chunkSize && from + i < |media|
    ensures i < |piece| && piece[i] == media[from + i]
  {
    var n := Min(chunkSize, |media| - from);
    assert piece[..n][i] == media[from..from + n][i];
  }

  lemma StoredByte(image: Image, media: seq<Byte>, pieces: seq<seq<Byte>>, offset: nat)
    requires Stores(image, media, pieces) && offset < |media|
    ensures image.FlatByte(offset) == media[offset]
  {
    hide Holds, Image.Page, Image.IdOf, Image.Within, IsPart;
    var d, id, i := image.chunkSize, image.IdOf(offset), image.Within(offset);
    InRange(image, offset, 1, offset);
    IsStored(image, media, pieces, offset, id);
    Enough(image, media, pieces, id);
    HeldIsDecoded(image, id, pieces[id]);
    PartByte(d, media, id * d, pieces[id], i);
  }

  /** And a validated image whose chunks all decode stores what it reads as. */
  lemma FlatIsStored(image: Image) returns (pieces: seq<seq<Byte>>)
    requires image.LayoutOk() && image.Decodable(0, image.totalSize)
    ensures |pieces| == |image.chunks| && Stores(image, image.Flat(0, image.totalSize), pieces)
  {
    hide Holds, Image.Page;
    pieces := [];
    var d, media := image.chunkSize, image.Flat(0, image.totalSize);
    while |pieces| < |image.chunks|
      invariant |pieces| <= |image.chunks|
      invariant forall id :: 0 <= id < |pieces| ==> Holds(image, id, pieces[id]) && |pieces[id]| >= image.Required(id)
    {
      AllDecodable(image, |pieces|);
      var data := DecodedIsHeld(image, |pieces|);
      pieces := pieces + [data];
    }
    forall id | 0 <= id < |pieces| ensures IsPart(d, media, id * d, pieces[id]) {
      HeldIsPart(image, id, pieces[id]);
    }
  }

  lemma HeldIsPart(image: Image, id: nat, data: seq<Byte>)
    requires image.chunkSize > 0 && Holds(image, id, data) && |data| >= image.Required(id)
    ensures IsPart(image.chunkSize, image.Flat(0, image.totalSize), id * image.chunkSize, data)
  {
    hide Holds, Image.Page;
    var d, media, from := image.chunkSize, image.Flat(0, image.totalSize), id * image.chunkSize;
    if from < |media| {
      HeldIsDecoded(image, id, data);
      var n := Min(d, |media| - from);
      forall i | 0 <= i < n ensures data[..n][i] == media[from..from + n][i] {
        DivideOnce(image, id, i);
      }
    }
  }

  lemma AllDecodable(image: Image, id: nat)
    requires image.LayoutOk() && image.Decodable(0, image.totalSize) && id < |image.chunks|
    ensures image.Page(id).Ok?
  {
    hide Image.Page, Image.IdOf, Image.Within, Image.LayoutOk;
    ChunkInside(image, id);
    HasChunks(image);
    DivideOnce(image, id, 0);
    IdMono(image, 0, id * image.chunkSize);
    IdMono(image, id * image.chunkSize, image.totalSize - 1);
  }

  lemma HasChunks(image: Image)
    requires image.LayoutOk()
    ensures image.chunkSize > 0
  {
  }

  /** An image that stores its media in just enough raw chunks passes the validation. */
  lemma RawImageIsValid(image: Image, media: seq<Byte>, pieces: seq<seq<Byte>>)
    requires Stores(image, media, pieces) && |pieces| == |image.chunks|
    requires forall id :: 0 <= id < |pieces| ==>
               pieces[id] != [] && image.chunks[id].encoding.Raw? && id * image.chunkSize < |media|
    requires |pieces| * image.chunkSize <= U64_MAX && image.chunkSize + Max(image.chunkSize / 8, 0x10_0000) <= U64_MAX
    ensures image.LayoutOk()
  {
    forall chunk <- image.chunks ensures image.ChunkOk(chunk) {
      var id :| 0 <= id < |image.chunks| && image.chunks[id] == chunk;
      assert Holds(image, id, pieces[id]);
    }
  }

  /** A chunk that stores nothing, too much, or bytes that its segment does not have makes the image invalid. */
  lemma BadChunkIsRefused(image: Image, chunk: Chunk)
    requires chunk in image.chunks && !chunk.encoding.Pattern?
    requires || chunk.segment >= |image.segments| || !InSegment(image, chunk) || chunk.size == 0
             || chunk.size > image.chunkSize + Max(image.chunkSize / 8, 0x10_0000)
             || (chunk.encoding.Raw? && chunk.checksummed && !(4 <= chunk.size <= image.chunkSize + 4))
             || (chunk.encoding.Raw? && !chunk.checksummed && chunk.size > image.chunkSize)
    ensures !image.LayoutOk()
  {
    assert image.LayoutOk() ==> image.ChunkOk(chunk);
  }

  // ---------------------------------------------------------------- reading it

  /** A read of an image delivers the media that the image stores. */
  method ReadStored(reader: EwfReader, buf: array<Byte>, offset: U64, ghost media: seq<Byte>, ghost pieces: seq<seq<Byte>>)
    returns (r: EwfResult<nat>)
    requires reader.Valid() && buf.Length <= U64_MAX && Stores(reader.image, media, pieces)
    modifies reader`cache, buf
    ensures reader.Valid()
    ensures var n := Min(buf.Length, SatSub(|media|, offset));
            && r == Ok(n) && buf[n..] == old(buf[n..])
            && forall i :: 0 <= i < n ==> buf[i] == media[offset + i]
  {
    hide EwfReader.Valid, Stores, Image.Flat, Image.Page, Image.Decodable;
    ghost var n := Min(buf.Length, SatSub(|media|, offset));
    SameSize(reader.image, media, pieces);
    if n > 0 {
      StoredIsFlat(reader.image, media, pieces, offset, n);
    }
    r := reader.ReadAt(buf, offset);
    forall i | 0 <= i < n ensures buf[i] == media[offset + i] {
      assert buf[..n][i] == media[offset..offset + n][i];
    }
  }

  lemma SameSize(image: Image, media: seq<Byte>, pieces: seq<seq<Byte>>)
    requires Stores(image, media, pieces)
    ensures image.chunkSize > 0 && image.totalSize == |media|
  {
  }

  /** Verification hashes the media that the image stores. */
  method VerifyStored(reader: EwfReader, batch: nat, storedMd5: Option<seq<Byte>>, md5: seq<Byte> -> seq<Byte>,
                      ghost media: seq<Byte>, ghost pieces: seq<seq<Byte>>) returns (r: EwfResult<VerifyResult>)
    requires reader.Valid() && batch > 0 && Stores(reader.image, media, pieces)
    ensures r.Ok? ==> r.value.md5 == md5(media)
    ensures r.Ok? && storedMd5.Some? ==> r.value.md5Match == Some(storedMd5.value == md5(media))
    ensures r.Ok?
  {
    hide Stores, Image.Flat, Image.Page;
    SameSize(reader.image, media, pieces);
    StoredIsFlat(reader.image, media, pieces, 0, |media|);
    assert media[0..0 + |media|] == media;
    forall id | 0 <= id < |reader.image.chunks| ensures reader.image.Page(id).Ok? {
      AllDecodable(reader.image, id);
    }
    r := reader.Verify(batch, storedMd5, None, md5, md5);
  }
}
