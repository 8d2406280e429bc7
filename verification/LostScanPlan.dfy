// Which sectors the chunked lost-partition scan classifies, for every chunk size, and when that
// is all of them. The plan depends only on the chunk size and the gap, never on the data.
module LostScanPlan {
  import opened Basics

  const SECTOR_SIZE: int := 512
  const HEADER_SIZE: int := 2048
  const OVERLAP: int := HEADER_SIZE - SECTOR_SIZE

  datatype Gap = Gap(start: U64, end: U64)

  predicate Aligned(x: nat) {
    x % 512 == 0
  }

  lemma AlignedSum(a: nat, b: nat)
    requires Aligned(a) && Aligned(b)
    ensures Aligned(a + b)
  {
  }

  lemma AlignedDifference(a: nat, b: nat)
    requires Aligned(a) && Aligned(b) && a <= b
    ensures Aligned(b - a)
  {
  }

  /** The largest aligned offset at or below `x`. */
  function AlignDown(x: nat): (down: nat)
    ensures Aligned(down) && down <= x < down + 512
  {
    x - x % 512
  }

  /** The smallest aligned offset at or above `x`. */
  function AlignUp(x: nat): (up: nat)
    ensures Aligned(up) && x <= up < x + 512 && up <= AlignDown(x) + 512
  {
    AlignDown(x + 511)
  }

  /** The sector starts in [lo, hi), ascending, for an aligned `lo`. */
  function Sectors(lo: nat, hi: nat): seq<nat> {
    seq(if hi <= lo then 0 else (hi - lo + 511) / 512, i requires i >= 0 => lo + 512 * i)
  }

  /** Every sector start of a gap: what the scan promises to classify. */
  function AllSectors(gap: Gap): seq<nat> {
    Sectors(AlignUp(gap.start), gap.end)
  }

  lemma SectorsStep(lo: nat, s: nat, hi: nat)
    requires Aligned(lo) && Aligned(s) && s < hi <= s + SECTOR_SIZE
    ensures Sectors(lo, hi) == Sectors(lo, s) + if lo <= s then [s] else []
  {
  }

  lemma SectorsSplit(lo: nat, mid: nat, hi: nat)
    requires Aligned(lo) && Aligned(mid) && lo <= mid <= hi
    ensures Sectors(lo, mid) + Sectors(mid, hi) == Sectors(lo, hi)
  {
  }

  lemma SectorsPrefix(lo: nat, hi: nat, more: nat)
    requires hi <= more
    ensures Sectors(lo, hi) <= Sectors(lo, more)
  {
  }

  lemma SectorsMembers(lo: nat, hi: nat, s: nat)
    requires Aligned(lo)
    ensures hi <= lo ==> Sectors(lo, hi) == []
    ensures s in Sectors(lo, hi) <==> Aligned(s) && lo <= s < hi
  {
    if Aligned(s) && lo <= s < hi {
      var i := (s - lo) / 512;
      assert Sectors(lo, hi)[i] == s;
    }
  }

  /** First byte the chunk at `filePos` scans: a later chunk re-reads the overlap before it. */
  function ScanStart(gap: Gap, filePos: nat): nat {
    if filePos == AlignDown(gap.start) then gap.start else SatSub(filePos, OVERLAP)
  }

  /** End of the chunk at `filePos`. */
  function ChunkEnd(chunkSize: nat, gap: Gap, filePos: nat): nat
    requires filePos < gap.end
  {
    filePos + Min(gap.end - filePos, chunkSize)
  }

  /** Sectors from here on wait for a later chunk: no full window, and the gap does not end here. */
  function Deferred(gap: Gap, bufferEnd: nat): nat {
    if bufferEnd == gap.end then gap.end else SatSub(bufferEnd, HEADER_SIZE - 1)
  }

  /** The first sector after the highest one that had a full window once a chunk is done. */
  function NextSector(first: nat, bufferEnd: nat, next: nat): (later: nat)
    ensures Aligned(next) ==> Aligned(later)
    ensures next <= later
  {
    if first + HEADER_SIZE <= bufferEnd then Max(next, AlignDown(bufferEnd - HEADER_SIZE) + SECTOR_SIZE) else next
  }

  /** The sectors classified from the chunk at `filePos` on, in order; below `next` all are done. */
  function PlanFrom(chunkSize: nat, gap: Gap, filePos: nat, next: nat): seq<nat>
    requires chunkSize >= HEADER_SIZE
    decreases SatSub(gap.end, filePos)
  {
    if filePos >= gap.end then []
    else
      var end := ChunkEnd(chunkSize, gap, filePos);
      var first := AlignUp(ScanStart(gap, filePos));
      Sectors(Max(first, next), Deferred(gap, end)) + PlanFrom(chunkSize, gap, end, NextSector(first, end, next))
  }

  function Plan(chunkSize: nat, gap: Gap): seq<nat>
    requires chunkSize >= HEADER_SIZE
  {
    if gap.end <= gap.start then [] else PlanFrom(chunkSize, gap, AlignDown(gap.start), 0)
  }

  /** What a caller can check before the scan: aligned chunks, or a gap that one chunk holds. */
  predicate Suits(chunkSize: nat, gap: Gap) {
    Aligned(chunkSize) || gap.end <= AlignDown(gap.start) + chunkSize
  }

  // ---------------------------------------------------------------- properties of the plan

  predicate Ascending(sectors: seq<nat>) {
    forall i, j :: 0 <= i < j < |sectors| ==> sectors[i] < sectors[j]
  }

  /** A chunk leaves below `NextSector` every sector it classified, unless the gap ends with it. */
  lemma ClassifiedBelowNext(gap: Gap, first: nat, end: nat, next: nat, s: nat)
    requires Aligned(first) && Aligned(next) && end != gap.end
    requires s in Sectors(Max(first, next), Deferred(gap, end))
    ensures s < NextSector(first, end, next)
  {
    SectorsMembers(Max(first, next), Deferred(gap, end), s);
  }

  lemma SectorsAscending(lo: nat, hi: nat)
    ensures Ascending(Sectors(lo, hi))
  {
  }

  lemma NothingAscending()
    ensures Ascending([])
  {
  }

  lemma AscendingConcat(a: seq<nat>, b: seq<nat>, cut: nat)
    requires Ascending(a) && Ascending(b)
    requires (forall s <- a :: s < cut) && (forall s <- b :: cut <= s)
    ensures Ascending(a + b)
  {
    forall i, j | 0 <= i < j < |a + b| ensures (a + b)[i] < (a + b)[j] {
      if i < |a| <= j {
        assert a[i] in a && b[j - |a|] in b;
      }
    }
  }

  /** From a later chunk on, nothing below `next` is classified again, whatever the chunk size. */
  lemma {:induction false} PlanFromAscending(chunkSize: nat, gap: Gap, filePos: nat, next: nat)
    requires chunkSize >= HEADER_SIZE && Aligned(next)
    requires filePos == AlignDown(gap.start) || filePos >= AlignDown(gap.start) + HEADER_SIZE
    ensures Ascending(PlanFrom(chunkSize, gap, filePos, next))
    ensures forall s <- PlanFrom(chunkSize, gap, filePos, next) :: Aligned(s) && Max(gap.start, next) <= s < gap.end
    decreases SatSub(gap.end, filePos)
  {
    hide Sectors, Ascending, NextSector, AlignUp;
    NothingAscending();
    if filePos < gap.end {
      var end := ChunkEnd(chunkSize, gap, filePos);
      var first := AlignUp(ScanStart(gap, filePos));
      var lo := Max(first, next);
      var now := Sectors(lo, Deferred(gap, end));
      var later := NextSector(first, end, next);
      assert gap.start <= first;
      SectorsAscending(lo, Deferred(gap, end));
      forall s <- now ensures Aligned(s) && Max(gap.start, next) <= s < gap.end {
        SectorsMembers(lo, Deferred(gap, end), s);
      }
      if end < gap.end {
        PlanFromAscending(chunkSize, gap, end, later);
        forall s <- now ensures s < later {
          ClassifiedBelowNext(gap, first, end, next, s);
        }
        AscendingConcat(now, PlanFrom(chunkSize, gap, end, later), later);
      } else {
        assert PlanFrom(chunkSize, gap, end, later) == [] && now + [] == now;
      }
    }
  }

  /** For every chunk size the plan is ascending, so no sector is classified twice. */
  lemma PlanAscending(chunkSize: nat, gap: Gap)
    requires chunkSize >= HEADER_SIZE
    ensures Ascending(Plan(chunkSize, gap))
    ensures forall s <- Plan(chunkSize, gap) :: s in AllSectors(gap)
  {
    hide Sectors, Ascending, PlanFrom, AlignDown;
    if gap.start >= gap.end {
      SectorsAscending(0, 0);
      SectorsMembers(0, 0, 0);
    } else {
      PlanFromAscending(chunkSize, gap, AlignDown(gap.start), 0);
      forall s <- Plan(chunkSize, gap) ensures s in AllSectors(gap) {
        SectorsMembers(AlignUp(gap.start), gap.end, s);
      }
    }
  }

  /** An aligned chunk and the plan from its re-read on make up the sectors of both. */
  lemma AlignedChunk(gap: Gap, first: nat, end: nat, next: nat)
    requires Aligned(first) && Aligned(end) && first + OVERLAP <= end && next <= end - OVERLAP
    requires HEADER_SIZE <= end < gap.end
    ensures Sectors(first, Deferred(gap, end)) + Sectors(end - OVERLAP, gap.end) == Sectors(first, gap.end)
    ensures NextSector(first, end, next) <= end - OVERLAP
  {
    SectorsSplit(first, end - OVERLAP, gap.end);
    assert Aligned(end - HEADER_SIZE);
    assert Sectors(first, Deferred(gap, end)) == Sectors(first, end - OVERLAP);
  }

  /** Where an aligned chunk after the first starts and ends. */
  lemma LaterChunk(chunkSize: nat, gap: Gap, filePos: nat, next: nat)
    requires chunkSize >= HEADER_SIZE && Aligned(chunkSize) && Aligned(filePos)
    requires AlignDown(gap.start) + HEADER_SIZE <= filePos < gap.end && next <= filePos - OVERLAP
    ensures var first, end := filePos - OVERLAP, ChunkEnd(chunkSize, gap, filePos);
            && Aligned(first) && Max(AlignUp(ScanStart(gap, filePos)), next) == first && AlignUp(ScanStart(gap, filePos)) == first
            && (end < gap.end ==>
                  Aligned(end) && AlignDown(gap.start) + HEADER_SIZE <= end && first + OVERLAP <= end && next <= end - OVERLAP)
            && filePos < end <= gap.end
  {
    AlignedDifference(OVERLAP, filePos);
    AlignedSum(filePos, chunkSize);
  }

  /** An aligned chunk after the first picks up exactly where the previous one deferred. */
  lemma {:induction false} PlanFromCovers(chunkSize: nat, gap: Gap, filePos: nat, next: nat)
    requires chunkSize >= HEADER_SIZE && Aligned(chunkSize) && Aligned(filePos)
    requires AlignDown(gap.start) + HEADER_SIZE <= filePos < gap.end
    requires next <= filePos - OVERLAP
    ensures PlanFrom(chunkSize, gap, filePos, next) == Sectors(filePos - OVERLAP, gap.end)
    decreases gap.end - filePos
  {
    hide Sectors, Aligned, AlignDown, AlignUp, ScanStart, ChunkEnd, NextSector;
    var end := ChunkEnd(chunkSize, gap, filePos);
    var first := filePos - OVERLAP;
    LaterChunk(chunkSize, gap, filePos, next);
    var rest := PlanFrom(chunkSize, gap, end, NextSector(first, end, next));
    assert PlanFrom(chunkSize, gap, filePos, next) == Sectors(first, Deferred(gap, end)) + rest;
    if end < gap.end {
      AlignedChunk(gap, first, end, next);
      PlanFromCovers(chunkSize, gap, end, NextSector(first, end, next));
    } else {
      assert rest == [];
    }
  }

  lemma PlanCovers(chunkSize: nat, gap: Gap)
    requires chunkSize >= HEADER_SIZE && Suits(chunkSize, gap)
    ensures Plan(chunkSize, gap) == AllSectors(gap)
  {
    if gap.start < gap.end {
      var start := AlignDown(gap.start);
      var end := ChunkEnd(chunkSize, gap, start);
      var first := AlignUp(gap.start);
      if end < gap.end {
        AlignedSum(start, chunkSize);
      }
      var rest := PlanFrom(chunkSize, gap, end, NextSector(first, end, 0));
      assert Plan(chunkSize, gap) == Sectors(Max(first, 0), Deferred(gap, end)) + rest;
      if end < gap.end {
        AlignedChunk(gap, first, end, 0);
        PlanFromCovers(chunkSize, gap, end, NextSector(first, end, 0));
      } else {
        assert rest == [];
      }
    }
  }

  /** The sector that a misaligned chunk size loses: partial in the first chunk, before the re-read. */
  function LostSector(chunkSize: nat, gap: Gap): nat
    requires chunkSize >= HEADER_SIZE
  {
    AlignDown(gap.start) + AlignDown(chunkSize) - OVERLAP
  }

  lemma PlanLoses(chunkSize: nat, gap: Gap)
    requires chunkSize >= HEADER_SIZE && gap.start < gap.end && !Suits(chunkSize, gap)
    ensures LostSector(chunkSize, gap) in AllSectors(gap)
    ensures LostSector(chunkSize, gap) !in Plan(chunkSize, gap)
  {
    hide Sectors, PlanFrom, Aligned, AlignDown, AlignUp, NextSector;
    var start := AlignDown(gap.start);
    var lost := LostSector(chunkSize, gap);
    var first := AlignUp(gap.start);
    var end := start + chunkSize;
    LostIsBetween(chunkSize, gap);
    PlanFirst(chunkSize, gap);
    SectorsMembers(first, gap.end, lost);
    SectorsMembers(first, Deferred(gap, end), lost);
    PlanLosesLater(chunkSize, gap, end, NextSector(first, end, 0), lost);
  }

  /** The lost sector lies after what the first chunk classifies and before what the next one re-reads. */
  lemma LostIsBetween(chunkSize: nat, gap: Gap)
    requires chunkSize >= HEADER_SIZE && gap.start < gap.end && !Suits(chunkSize, gap)
    ensures var lost, end := LostSector(chunkSize, gap), AlignDown(gap.start) + chunkSize;
            Aligned(lost) && AlignUp(gap.start) <= lost && end - (HEADER_SIZE - 1) <= lost < end - OVERLAP && end < gap.end
  {
    var start := AlignDown(gap.start);
    AlignedSum(start, AlignDown(chunkSize));
    AlignedDifference(OVERLAP, start + AlignDown(chunkSize));
  }

  lemma PlanFirst(chunkSize: nat, gap: Gap)
    requires chunkSize >= HEADER_SIZE && gap.start < gap.end && AlignDown(gap.start) + chunkSize < gap.end
    ensures var first, end := AlignUp(gap.start), AlignDown(gap.start) + chunkSize;
            Plan(chunkSize, gap)
            == Sectors(first, Deferred(gap, end)) + PlanFrom(chunkSize, gap, end, NextSector(first, end, 0))
  {
    hide Sectors, Aligned, AlignDown, AlignUp, NextSector, Deferred;
    var start := AlignDown(gap.start);
    assert start < gap.end && ChunkEnd(chunkSize, gap, start) == start + chunkSize && ScanStart(gap, start) == gap.start;
    assert Max(AlignUp(gap.start), 0) == AlignUp(gap.start);
  }

  lemma {:induction false} PlanLosesLater(chunkSize: nat, gap: Gap, filePos: nat, next: nat, lost: nat)
    requires chunkSize >= HEADER_SIZE && filePos > AlignDown(gap.start)
    requires lost < filePos - OVERLAP
    ensures lost !in PlanFrom(chunkSize, gap, filePos, next)
    decreases SatSub(gap.end, filePos)
  {
    if filePos < gap.end {
      var end := ChunkEnd(chunkSize, gap, filePos);
      PlanLosesLater(chunkSize, gap, end, NextSector(AlignUp(ScanStart(gap, filePos)), end, next), lost);
    }
  }

  /** Exactly when the chunked scan classifies every sector of a gap. */
  lemma PlanExact(chunkSize: nat, gap: Gap)
    requires chunkSize >= HEADER_SIZE && gap.start < gap.end
    ensures Plan(chunkSize, gap) == AllSectors(gap) <==> Suits(chunkSize, gap)
  {
    if Suits(chunkSize, gap) {
      PlanCovers(chunkSize, gap);
    } else {
      PlanLoses(chunkSize, gap);
    }
  }
}
