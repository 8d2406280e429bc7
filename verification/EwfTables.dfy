// Building the flat chunk table: version 1 offset tables with back-filled sizes, matched to the
// sectors section that owns their data, and version 2 sector tables.
module EwfTables {
  import opened Basics
  import opened EwfImage

  const MAX_TABLE_ENTRIES: nat := 4_000_000
  const MAX_CHUNK_COUNT: nat := 64_000_000

  datatype TableError =
    | TooManyEntries | TooManyChunks | OffsetOverflow | NotIncreasing | OutsideSectors | AmbiguousSectors
    | WrongFirstChunk | PatternWithData | CompressedWithChecksum | CompressedEmpty | NoCompressionMethod

  type TableResult<+T> = Basics.Result<T, TableError>

  type Range = (U64, U64)

  // ---------------------------------------------------------------- sectors of a table

  predicate Owns(range: Range, first: nat, last: nat) {
    range.0 <= first && last < range.1
  }

  function Owners(ranges: seq<Range>, first: nat, last: nat): seq<Range> {
    if ranges == [] then []
    else (if Owns(ranges[0], first, last) then [ranges[0]] else []) + Owners(ranges[1..], first, last)
  }

  /** The one sectors range that holds all chunks of a table, if the segment has sectors at all. */
  function V1TableSectorsRange(offsets: seq<U64>, ranges: seq<Range>): TableResult<Option<Range>> {
    if offsets == [] || ranges == [] then Ok(None)
    else
      var owners := Owners(ranges, offsets[0], offsets[|offsets| - 1]);
      if owners == [] then Err(OutsideSectors)
      else if |owners| > 1 then Err(AmbiguousSectors)
      else Ok(Some(owners[0]))
  }

  lemma {:induction false} OwnersCount(ranges: seq<Range>, first: nat, last: nat, i: nat, j: nat)
    requires i < j < |ranges| && Owns(ranges[i], first, last) && Owns(ranges[j], first, last)
    ensures |Owners(ranges, first, last)| >= 2
  {
    if i == 0 {
      OwnerExists(ranges[1..], first, last, j - 1);
    } else {
      OwnersCount(ranges[1..], first, last, i - 1, j - 1);
    }
  }

  lemma {:induction false} OwnerExists(ranges: seq<Range>, first: nat, last: nat, i: nat)
    requires i < |ranges| && Owns(ranges[i], first, last)
    ensures |Owners(ranges, first, last)| >= 1
    ensures (forall k :: 0 <= k < |ranges| && k != i ==> !Owns(ranges[k], first, last)) ==>
              Owners(ranges, first, last) == [ranges[i]]
  {
    if i == 0 {
      NoOwners(ranges[1..], first, last);
    } else {
      OwnerExists(ranges[1..], first, last, i - 1);
    }
  }

  lemma {:induction false} NoOwners(ranges: seq<Range>, first: nat, last: nat)
    ensures (forall k :: 0 <= k < |ranges| ==> !Owns(ranges[k], first, last)) <==> Owners(ranges, first, last) == []
  {
    if ranges != [] {
      NoOwners(ranges[1..], first, last);
      if Owners(ranges, first, last) == [] {
        forall k | 0 <= k < |ranges| ensures !Owns(ranges[k], first, last) {
          assert k > 0 ==> ranges[k] == ranges[1..][k - 1];
        }
      } else {
        assert exists k :: 0 <= k < |ranges| && Owns(ranges[k], first, last) by {
          if !Owns(ranges[0], first, last) {
            var k :| 0 <= k < |ranges[1..]| && Owns(ranges[1..][k], first, last);
            assert Owns(ranges[k + 1], first, last);
          }
        }
      }
    }
  }

  lemma {:induction false} OwnersOwn(ranges: seq<Range>, first: nat, last: nat)
    ensures forall r <- Owners(ranges, first, last) :: r in ranges && Owns(r, first, last)
  {
    if ranges != [] {
      OwnersOwn(ranges[1..], first, last);
    }
  }

  /** Position `i` and no other holds a range that owns the table. */
  ghost predicate OnlyOwner(ranges: seq<Range>, i: nat, first: nat, last: nat) {
    i < |ranges| && forall k :: 0 <= k < |ranges| ==> (ranges[k].0 <= first && last < ranges[k].1 <==> k == i)
  }

  /** A range is selected exactly if one position holds it and no other holds the whole table; none is an error. */
  lemma SelectedRangeIsUnique(offsets: seq<U64>, ranges: seq<Range>, range: Range)
    requires offsets != [] && ranges != []
    ensures V1TableSectorsRange(offsets, ranges) == Ok(Some(range)) <==>
            exists i: nat :: OnlyOwner(ranges, i, offsets[0], offsets[|offsets| - 1]) && ranges[i] == range
    ensures V1TableSectorsRange(offsets, ranges) == Err(OutsideSectors) <==>
            forall k :: 0 <= k < |ranges| ==> ranges[k].0 > offsets[0] || offsets[|offsets| - 1] >= ranges[k].1
  {
    var first, last := offsets[0], offsets[|offsets| - 1];
    NoOwners(ranges, first, last);
    forall i: nat, k: nat | i < k < |ranges| && Owns(ranges[i], first, last) && Owns(ranges[k], first, last)
      ensures |Owners(ranges, first, last)| >= 2
    {
      OwnersCount(ranges, first, last, i, k);
    }
    forall i: nat | OnlyOwner(ranges, i, first, last) ensures Owners(ranges, first, last) == [ranges[i]] {
      OwnerExists(ranges, first, last, i);
    }
    hide Owners;
    if V1TableSectorsRange(offsets, ranges) == Ok(Some(range)) {
      OwnersOwn(ranges, first, last);
      assert Owners(ranges, first, last)[0] == range;
      var i :| 0 <= i < |ranges| && ranges[i] == range;
      assert OnlyOwner(ranges, i, first, last);
    }
  }

  // ---------------------------------------------------------------- version 1 tables

  datatype TableEntry = TableEntry(compressed: bool, chunkOffset: nat)

  predicate Increasing(offsets: seq<U64>) {
    forall i, j :: 0 <= i < j < |offsets| ==> offsets[i] < offsets[j]
  }

  /** The entries' absolute offsets fit 64 bits and strictly increase. */
  predicate Ordered(entries: seq<TableEntry>, base: U64) {
    && (forall i :: 0 <= i < |entries| ==> entries[i].chunkOffset + base <= U64_MAX)
    && (forall i :: 0 < i < |entries| ==> entries[i - 1].chunkOffset < entries[i].chunkOffset)
  }

  function Absolute(entries: seq<TableEntry>, base: U64): seq<U64>
    requires Ordered(entries, base)
  {
    seq(|entries|, i requires 0 <= i < |entries| => entries[i].chunkOffset + base)
  }

  /** The stored size of entry `i`: up to the next offset, or the end of the sectors data. */
  function StoredSize(entries: seq<TableEntry>, offsets: seq<U64>, range: Option<Range>, chunkSize: nat, i: nat): int
    requires i < |entries| == |offsets|
  {
    if !entries[i].compressed then chunkSize
    else if i + 1 < |offsets| then offsets[i + 1] - offsets[i]
    else if range.Some? then range.value.1 - offsets[i]
    else chunkSize
  }

  /** Entry `i` of a version 1 table as a chunk. */
  predicate IsV1Chunk(chunk: Chunk, entries: seq<TableEntry>, offsets: seq<U64>, range: Option<Range>,
                      segment: nat, chunkSize: nat, i: nat)
    requires i < |entries| == |offsets|
  {
    && chunk.segment == segment && chunk.offset == offsets[i] && !chunk.checksummed
    && chunk.encoding == (if entries[i].compressed then Zlib else Raw)
    && chunk.size == StoredSize(entries, offsets, range, chunkSize, i)
  }

  /** A table's entries as the chunks they add. */
  ghost predicate Appended(chunks: seq<Chunk>, entries: seq<TableEntry>, offsets: seq<U64>, range: Option<Range>,
                           segment: nat, chunkSize: nat)
  {
    && |chunks| == |entries| == |offsets|
    && forall i :: 0 <= i < |chunks| ==> IsV1Chunk(chunks[i], entries, offsets, range, segment, chunkSize, i)
  }

  class ChunkTable {
    var chunks: seq<Chunk>

    constructor ()
      ensures chunks == []
    {
      chunks := [];
    }

    /** The absolute offsets of a table's entries, which must strictly increase. */
    method AbsoluteOffsets(entries: seq<TableEntry>, base: U64) returns (r: TableResult<seq<U64>>)
      ensures r.Ok? ==>
                && |r.value| == |entries| && Increasing(r.value)
                && forall i :: 0 <= i < |entries| ==> r.value[i] == entries[i].chunkOffset + base <= U64_MAX
      ensures if Ordered(entries, base) then r == Ok(Absolute(entries, base)) else r.Err?
    {
      var offsets: seq<U64> := [];
      for i := 0 to |entries|
        invariant |offsets| == i && Increasing(offsets)
        invariant forall k :: 0 <= k < i ==> offsets[k] == entries[k].chunkOffset + base <= U64_MAX
        invariant forall k :: 0 < k < i ==> entries[k - 1].chunkOffset < entries[k].chunkOffset
      {
        var offset := entries[i].chunkOffset + base;
        if offset > U64_MAX {
          return Err(OffsetOverflow);
        }
        if i > 0 && offset <= offsets[i - 1] {
          return Err(NotIncreasing);
        }
        offsets := offsets + [offset];
      }
      assert Ordered(entries, base);
      assert offsets == Absolute(entries, base);
      r := Ok(offsets);
    }

    /**
     * Appends one version 1 table. Each compressed entry gets the bytes up to the next entry, the
     * last one those up to the end of its sectors; no chunk of an earlier table changes.
     */
    method AppendV1Table(entries: seq<TableEntry>, base: U64, ranges: seq<Range>, segment: nat, chunkSize: U64)
      returns (error: Option<TableError>, ghost offsets: seq<U64>, ghost range: Option<Range>)
      modifies this`chunks
      ensures old(chunks) <= chunks
      ensures error.Some? ==> chunks == old(chunks)
      ensures error.None? <==>
                && |entries| <= 4_000_000 && |old(chunks)| + |entries| <= 64_000_000 && Ordered(entries, base)
                && V1TableSectorsRange(Absolute(entries, base), ranges).Ok?
      ensures error.None? ==>
                && |chunks| == |old(chunks)| + |entries| <= MAX_CHUNK_COUNT && |offsets| == |entries| && Increasing(offsets)
                && V1TableSectorsRange(offsets, ranges) == Ok(range)
                && (forall i :: 0 <= i < |entries| ==> offsets[i] == entries[i].chunkOffset + base)
                && Appended(chunks[|old(chunks)|..], entries, offsets, range, segment, chunkSize)
    {
      offsets, range := [], None;
      if |entries| > MAX_TABLE_ENTRIES {
        return Some(TooManyEntries), offsets, range;
      }
      if |chunks| + |entries| > MAX_CHUNK_COUNT {
        return Some(TooManyChunks), offsets, range;
      }
      var parsed := AbsoluteOffsets(entries, base);
      if parsed.Err? {
        return Some(parsed.error), offsets, range;
      }
      var table := parsed.value;
      var sectors := V1TableSectorsRange(table, ranges);
      if sectors.Err? {
        return Some(sectors.error), offsets, range;
      }
      offsets, range := table, sectors.value;
      var first := |chunks|;
      PushEntries(entries, table, segment, chunkSize);
      if sectors.value.Some? && |chunks| > first {
        OwnersOwn(ranges, table[0], table[|table| - 1]);
        assert sectors.value.value in Owners(ranges, table[0], table[|table| - 1]);
        BackFill(first, sectors.value.value, entries, table, segment, chunkSize);
      }
      error := None;
    }

    /** Pushes the entries; each push fixes the size of a compressed chunk before it. */
    method PushEntries(entries: seq<TableEntry>, offsets: seq<U64>, segment: nat, chunkSize: U64)
      requires |entries| == |offsets| && Increasing(offsets)
      modifies this`chunks
      ensures old(chunks) <= chunks && Appended(chunks[|old(chunks)|..], entries, offsets, None, segment, chunkSize)
    {
      hide Appended;
      var first := |chunks|;
      NoEntries(segment, chunkSize);
      assert chunks[first..] == [] && entries[..0] == [] && offsets[..0] == [];
      for i := 0 to |entries|
        invariant first <= |chunks| && old(chunks) <= chunks
        invariant Appended(chunks[first..], entries[..i], offsets[..i], None, segment, chunkSize)
      {
        ghost var before := chunks;
        assert i > 0 ==> offsets[i - 1] < offsets[i];
        PushStep(chunks[first..], entries, offsets, segment, chunkSize, i);
        if i > 0 {
          var previous := chunks[|chunks| - 1];
          if !previous.encoding.Raw? {
            chunks := chunks[|chunks| - 1 := previous.(size := offsets[i] - offsets[i - 1])];
          }
        }
        chunks := chunks + [Chunk(segment, if entries[i].compressed then Zlib else Raw, false, offsets[i], chunkSize)];
        assert chunks[first..] == Pushed(before[first..], entries, offsets, segment, chunkSize, i);
      }
      assert entries[..|entries|] == entries && offsets[..|entries|] == offsets;
    }

    /** The size of a final compressed chunk runs to the end of the sectors data. */
    method BackFill(first: nat, range: Range, ghost entries: seq<TableEntry>, ghost offsets: seq<U64>,
                    ghost segment: nat, ghost chunkSize: U64)
      requires first < |chunks| && Appended(chunks[first..], entries, offsets, None, segment, chunkSize)
      requires offsets[|offsets| - 1] < range.1
      modifies this`chunks
      ensures |chunks| == |old(chunks)| && chunks[..first] == old(chunks[..first])
      ensures Appended(chunks[first..], entries, offsets, Some(range), segment, chunkSize)
    {
      var last := chunks[|chunks| - 1];
      assert chunks[first..][|chunks| - first - 1] == last;
      if !last.encoding.Raw? {
        assert range.1 > last.offset;  // so neither check on the final chunk can fail
        chunks := chunks[|chunks| - 1 := last.(size := range.1 - last.offset)];
      }
      assert forall k :: 0 <= k < |chunks| - first ==> chunks[first..][k] == chunks[first + k];
    }

    /** Appends one version 2 sector table, which must continue the chunk numbering. */
    method AppendEwf2Chunks(firstChunk: nat, entries: seq<SectorEntry>, segment: nat, compression: Compression)
      returns (error: Option<TableError>)
      modifies this`chunks
      ensures old(chunks) <= chunks
      ensures error.None? <==>
                && firstChunk == |old(chunks)| && |old(chunks)| + |entries| <= MAX_CHUNK_COUNT
                && forall e <- entries :: SectorChunk(e, segment, compression).Ok?
      ensures error.None? ==>
                && |chunks| == firstChunk + |entries|
                && forall i :: 0 <= i < |entries| ==> Ok(chunks[firstChunk + i]) == SectorChunk(entries[i], segment, compression)
    {
      if firstChunk != |chunks| {
        return Some(WrongFirstChunk);
      }
      if |chunks| + |entries| > MAX_CHUNK_COUNT {
        return Some(TooManyChunks);
      }
      for i := 0 to |entries|
        invariant |chunks| == firstChunk + i && old(chunks) <= chunks
        invariant forall k :: 0 <= k < i ==> Ok(chunks[firstChunk + k]) == SectorChunk(entries[k], segment, compression)
      {
        var chunk := SectorChunk(entries[i], segment, compression);
        if chunk.Err? {
          assert entries[i] in entries;
          return Some(chunk.error);
        }
        chunks := chunks + [chunk.value];
      }
      error := None;
    }
  }

  /** The chunks of a table after entry `i` is pushed. */
  function Pushed(added: seq<Chunk>, entries: seq<TableEntry>, offsets: seq<U64>, segment: nat, chunkSize: U64, i: nat): seq<Chunk>
    requires |added| == i < |entries| == |offsets| && Increasing(offsets)
  {
    assert i > 0 ==> offsets[i - 1] < offsets[i];
    var patched :=
      if i > 0 && !added[i - 1].encoding.Raw? then added[i - 1 := added[i - 1].(size := offsets[i] - offsets[i - 1])] else added;
    patched + [Chunk(segment, if entries[i].compressed then Zlib else Raw, false, offsets[i], chunkSize)]
  }

  lemma PushStep(added: seq<Chunk>, entries: seq<TableEntry>, offsets: seq<U64>, segment: nat, chunkSize: U64, i: nat)
    requires i < |entries| == |offsets| && Increasing(offsets)
    requires Appended(added, entries[..i], offsets[..i], None, segment, chunkSize)
    ensures |added| == i
    ensures Appended(Pushed(added, entries, offsets, segment, chunkSize, i), entries[..i + 1], offsets[..i + 1], None, segment, chunkSize)
  {
  }

  lemma NoEntries(segment: nat, chunkSize: nat)
    ensures Appended([], [], [], None, segment, chunkSize)
  {
  }

  // ---------------------------------------------------------------- version 2 tables

  datatype Compression = NoCompression | ZlibCompression | Bzip2Compression

  /** A sector table entry with its flags decoded. */
  datatype SectorEntry = SectorEntry(patternFill: bool, compressed: bool, checksummed: bool, dataOffset: U64, dataSize: U32)

  /** The chunk of a version 2 entry; a pattern chunk stores its eight bytes in the offset field. */
  function SectorChunk(entry: SectorEntry, segment: nat, compression: Compression): (r: TableResult<Chunk>)
    ensures r.Ok? ==> r.value.segment == segment && r.value.offset == entry.dataOffset && r.value.size == entry.dataSize
    ensures r.Ok? && r.value.encoding.Pattern? ==> |r.value.encoding.fill| == 8 && entry.dataSize == 0
    ensures r.Ok? && (r.value.encoding.Zlib? || r.value.encoding.Bzip2?) ==> r.value.size > 0 && !r.value.checksummed
  {
    if entry.patternFill then
      if entry.dataSize != 0 then Err(PatternWithData)
      else Ok(Chunk(segment, Pattern(ToLe(entry.dataOffset, 8)), false, entry.dataOffset, 0))
    else if entry.compressed then
      if entry.checksummed then Err(CompressedWithChecksum)
      else if entry.dataSize == 0 then Err(CompressedEmpty)
      else
        match compression
        case ZlibCompression => Ok(Chunk(segment, Zlib, false, entry.dataOffset, entry.dataSize))
        case Bzip2Compression => Ok(Chunk(segment, Bzip2, false, entry.dataOffset, entry.dataSize))
        case NoCompression => Err(NoCompressionMethod)
    else Ok(Chunk(segment, Raw, entry.checksummed, entry.dataOffset, entry.dataSize))
  }

  /** Which entries are accepted, and what they become; the bytes of a pattern are those of the offset field. */
  lemma SectorChunkMeans(entry: SectorEntry, segment: nat, compression: Compression)
    ensures var r := SectorChunk(entry, segment, compression);
            if entry.patternFill then
              && (r.Ok? <==> entry.dataSize == 0)
              && (r.Ok? ==> r.value.encoding.Pattern? && !r.value.checksummed && Long(r.value.encoding.fill, 0) == entry.dataOffset)
            else if entry.compressed then
              && (r.Ok? <==> !entry.checksummed && entry.dataSize > 0 && compression != NoCompression)
              && (r.Ok? ==> r.value.encoding == if compression == ZlibCompression then Zlib else Bzip2)
            else r.Ok? && r.value.encoding == Raw && r.value.checksummed == entry.checksummed
    ensures var r := SectorChunk(entry, segment, compression);
            r.Ok? ==> r.value.segment == segment && r.value.offset == entry.dataOffset && r.value.size == entry.dataSize
  {
    hide ToLe, Le, Long;
    var fill := ToLe(entry.dataOffset, 8);
    LongRoundTrip(entry.dataOffset);
  }

  lemma LongRoundTrip(n: U64)
    ensures Long(ToLe(n, 8), 0) == n
  {
    hide ToLe, Le;
    var bytes := ToLe(n, 8);
    assert bytes[0..0 + 8] == bytes;
    EightBytesHold();
    LeRoundTrip(bytes, 0, n, 8);
    FieldsAreNumbers(bytes, 0);
  }

  lemma EightBytesHold()
    ensures Pow256(8) == U64_MAX + 1
  {
    assert Pow256(8) == 256 * 256 * 256 * 256 * Pow256(4);
    assert Pow256(4) == 256 * 256 * 256 * 256 * Pow256(0);
  }

  /** The stored bytes of entry `i`. */
  function StoredEnd(entries: seq<TableEntry>, offsets: seq<U64>, range: Option<Range>, chunkSize: nat, i: nat): int
    requires i < |entries| == |offsets|
  {
    offsets[i] + StoredSize(entries, offsets, range, chunkSize, i)
  }

  /**
   * For a table matched to sectors [a, b), the stored ranges of its compressed entries are not
   * empty, lie inside [a, b), and none reaches into any later entry.
   */
  lemma V1RangesDisjoint(entries: seq<TableEntry>, offsets: seq<U64>, ranges: seq<Range>, range: Range, chunkSize: nat, i: nat)
    requires i < |entries| == |offsets| && Increasing(offsets) && entries[i].compressed
    requires V1TableSectorsRange(offsets, ranges) == Ok(Some(range))
    ensures range.0 <= offsets[i] < StoredEnd(entries, offsets, Some(range), chunkSize, i) <= range.1
    ensures i + 1 == |entries| ==> StoredEnd(entries, offsets, Some(range), chunkSize, i) == range.1
    ensures i + 1 < |entries| ==> StoredEnd(entries, offsets, Some(range), chunkSize, i) == offsets[i + 1]
    ensures forall j :: i < j < |entries| ==> StoredEnd(entries, offsets, Some(range), chunkSize, i) <= offsets[j]
  {
    OwnersOwn(ranges, offsets[0], offsets[|offsets| - 1]);
    var owners := Owners(ranges, offsets[0], offsets[|offsets| - 1]);
    assert range in owners;
  }
}
