// The lost-partition scanner: overlapping chunk reads, a high-water mark and a candidate
// callback, proved against one pass over all sectors of every gap.
module LostScan {
  import opened Basics
  import opened Sources
  import opened LostScanPlan

  datatype FsHint = Ntfs | Fat | Ext | BitLocker
  datatype Candidate = Candidate(offset: nat, hint: FsHint)

  /** The callback's answer, and where it leaves the shared reader. */
  datatype Verdict = Continue | Stop | Fail
  datatype Reply = Reply(verdict: Verdict, leavesReaderAt: nat)

  datatype Outcome =
    | Completed | Stopped | CallbackFailed | ReadFailed | PrematureEof
    | ChunkTooSmall | TotalOverflow | BufferOverflow

  const BITLOCKER_FVE_SIGNATURE: seq<Byte> := [0x2D, 0x46, 0x56, 0x45, 0x2D, 0x46, 0x53, 0x2D]
  const NTFS_OEM: seq<Byte> := [0x4E, 0x54, 0x46, 0x53]

  /** ASCII upper case as the scanner does it: bit 0x20 cleared. */
  function Upper(b: Byte): Byte {
    if b / 32 % 2 == 1 then b - 32 else b
  }

  predicate ContainsFat(bytes: seq<Byte>) {
    exists i :: 0 <= i <= |bytes| - 3
                && Upper(bytes[i]) == 0x46 && Upper(bytes[i + 1]) == 0x41 && Upper(bytes[i + 2]) == 0x54
  }

  function ClassifySector(window: seq<Byte>): Option<FsHint> {
    if |window| >= 0x43A && window[0x438] == 0x53 && window[0x439] == 0xEF then Some(Ext)
    else if |window| >= 11 && window[3..11] == BITLOCKER_FVE_SIGNATURE then Some(BitLocker)
    else if |window| < 512 || window[510] != 0x55 || window[511] != 0xAA then None
    else if window[3..7] == NTFS_OEM then Some(Ntfs)
    else if ContainsFat(window[54..62]) || ContainsFat(window[82..90]) then Some(Fat)
    else None
  }

  // ---------------------------------------------------------------- the simple definition

  /** The candidate at sector `s`: its window is 2048 bytes, cut at the end of the gap. */
  function Probe(data: seq<Byte>, s: nat, gapEnd: nat): seq<Candidate> {
    match ClassifySector(Window(data, s, Min(s + HEADER_SIZE, gapEnd)))
    case Some(hint) => [Candidate(s, hint)]
    case None => []
  }

  function Candidates(data: seq<Byte>, sectors: seq<nat>, gapEnd: nat): seq<Candidate> {
    if sectors == [] then []
    else Candidates(data, sectors[..|sectors| - 1], gapEnd) + Probe(data, sectors[|sectors| - 1], gapEnd)
  }

  /** One probe per sector of every gap, in order: the meaning of a complete scan. */
  function Expected(data: seq<Byte>, gaps: seq<Gap>): seq<Candidate> {
    if gaps == [] then []
    else
      var last := gaps[|gaps| - 1];
      Expected(data, gaps[..|gaps| - 1]) + Candidates(data, AllSectors(last), last.end)
  }

  /** The candidates the chunked scan finds, for any chunk size. */
  function Planned(chunkSize: nat, data: seq<Byte>, gaps: seq<Gap>): seq<Candidate>
    requires chunkSize >= HEADER_SIZE
  {
    if gaps == [] then []
    else
      var last := gaps[|gaps| - 1];
      Planned(chunkSize, data, gaps[..|gaps| - 1]) + Candidates(data, Plan(chunkSize, last), last.end)
  }

  function TotalBytes(gaps: seq<Gap>): nat {
    if gaps == [] then 0
    else TotalBytes(gaps[..|gaps| - 1]) + SatSub(gaps[|gaps| - 1].end, gaps[|gaps| - 1].start)
  }

  predicate Covered(data: seq<Byte>, gap: Gap) {
    gap.start < gap.end ==> gap.end <= |data|
  }

  lemma {:induction false} CandidatesConcat(data: seq<Byte>, a: seq<nat>, b: seq<nat>, gapEnd: nat)
    ensures Candidates(data, a + b, gapEnd) == Candidates(data, a, gapEnd) + Candidates(data, b, gapEnd)
    decreases |b|
  {
    if b == [] {
      assert a + b == a;
    } else {
      var init := b[..|b| - 1];
      assert (a + b)[..|a + b| - 1] == a + init;
      CandidatesConcat(data, a, init, gapEnd);
    }
  }

  lemma CandidatesPrefix(data: seq<Byte>, a: seq<nat>, b: seq<nat>, gapEnd: nat)
    requires a <= b
    ensures Candidates(data, a, gapEnd) <= Candidates(data, b, gapEnd)
  {
    assert b == a + b[|a|..];
    CandidatesConcat(data, a, b[|a|..], gapEnd);
  }

  /** With suitable chunks the chunked scan finds exactly what one pass over all sectors finds. */
  lemma {:induction false} PlannedIsExpected(chunkSize: nat, data: seq<Byte>, gaps: seq<Gap>)
    requires chunkSize >= HEADER_SIZE
    requires forall gap <- gaps :: Suits(chunkSize, gap)
    ensures Planned(chunkSize, data, gaps) == Expected(data, gaps)
  {
    if gaps != [] {
      PlannedIsExpected(chunkSize, data, gaps[..|gaps| - 1]);
      PlanCovers(chunkSize, gaps[|gaps| - 1]);
    }
  }

  // ---------------------------------------------------------------- exactness over all data

  /** An image of `size` zero bytes except for a BitLocker signature in the sector at `s`. */
  function Planted(size: nat, s: nat): (data: seq<Byte>)
    ensures |data| == size
  {
    seq(size, i requires i >= 0 => if s + 3 <= i < s + 11 then BITLOCKER_FVE_SIGNATURE[i - s - 3] else 0)
  }

  lemma PlantedIsFound(size: nat, s: nat, gapEnd: nat)
    requires s + 11 <= gapEnd <= size
    ensures Probe(Planted(size, s), s, gapEnd) == [Candidate(s, BitLocker)]
  {
    var data := Planted(size, s);
    var window := Window(data, s, Min(s + HEADER_SIZE, gapEnd));
    forall i | 0 <= i < 8 ensures window[3..11][i] == BITLOCKER_FVE_SIGNATURE[i] {
      assert window[3..11][i] == window[3 + i] == data[s + 3 + i];
    }
    if |window| >= 0x43A {
      assert window[0x438] == data[s + 0x438] == 0;
    }
  }

  lemma ProbeOrigin(data: seq<Byte>, s: nat, gapEnd: nat, c: Candidate)
    ensures c in Probe(data, s, gapEnd) <==> c.offset == s && Probe(data, s, gapEnd) == [c]
  {
  }

  /** A sector with a candidate that the plan leaves out is missing from the result. */
  lemma {:induction false} CandidateOrigin(data: seq<Byte>, sectors: seq<nat>, gapEnd: nat, c: Candidate)
    ensures c in Candidates(data, sectors, gapEnd) <==> c.offset in sectors && Probe(data, c.offset, gapEnd) == [c]
  {
    hide Probe;
    if sectors != [] {
      var init, last := sectors[..|sectors| - 1], sectors[|sectors| - 1];
      CandidateOrigin(data, init, gapEnd, c);
      ProbeOrigin(data, last, gapEnd, c);
      assert sectors == init + [last];
      assert c in Candidates(data, sectors, gapEnd)
        <==> c in Candidates(data, init, gapEnd) || c in Probe(data, last, gapEnd);
    }
  }

  /**
   * For a gap, the chunk size finds every candidate on every image that covers the gap if and
   * only if it suits the gap; the documented minimum of 2048 bytes alone is not enough.
   */
  lemma ScanExact(chunkSize: nat, gap: Gap)
    requires chunkSize >= HEADER_SIZE && gap.start < gap.end
    ensures Suits(chunkSize, gap) <==>
            forall data: seq<Byte> | |data| >= gap.end ::
              Candidates(data, Plan(chunkSize, gap), gap.end) == Candidates(data, AllSectors(gap), gap.end)
  {
    if Suits(chunkSize, gap) {
      PlanCovers(chunkSize, gap);
    } else {
      var lost := LostSector(chunkSize, gap);
      var data := Planted(gap.end, lost);
      PlanLoses(chunkSize, gap);
      SectorsMembers(AlignUp(gap.start), gap.end, lost);
      assert lost + 11 <= AlignDown(gap.start) + chunkSize < gap.end;
      PlantedIsFound(gap.end, lost, gap.end);
      CandidateOrigin(data, AllSectors(gap), gap.end, Candidate(lost, BitLocker));
      CandidateOrigin(data, Plan(chunkSize, gap), gap.end, Candidate(lost, BitLocker));
    }
  }

  /** With chunks of 2049 bytes, sector 512 of a longer gap at offset 0 is never classified. */
  lemma MisalignedChunkLosesASector(gap: Gap)
    requires gap.start == 0 && gap.end > 2049
    ensures 512 in AllSectors(gap) && 512 !in Plan(2049, gap)
  {
    assert LostSector(2049, gap) == 512;
    PlanLoses(2049, gap);
  }

  // ---------------------------------------------------------------- the callback

  /**
   * The callback received `after` beyond `before`, all from `all` and in order: everything if
   * the scan completed, and nothing after the first reply that was not `Continue`.
   */
  ghost predicate Feeds(reply: seq<Candidate> -> Reply, before: seq<Candidate>, all: seq<Candidate>,
                        after: seq<Candidate>, outcome: Outcome)
  {
    && before <= after <= before + all
    && (forall k :: |before| < k < |after| ==> reply(after[..k]).verdict == Continue)
    && (outcome.Completed? ==> after == before + all)
    && (outcome.Stopped? ==> |before| < |after| && reply(after).verdict == Stop)
    && (outcome.CallbackFailed? ==> |before| < |after| && reply(after).verdict == Fail)
    && (!outcome.Stopped? && !outcome.CallbackFailed? && |before| < |after| ==> reply(after).verdict == Continue)
  }

  lemma FeedsNothing(reply: seq<Candidate> -> Reply, before: seq<Candidate>)
    ensures Feeds(reply, before, [], before, Completed)
  {
  }

  lemma FeedsThen(reply: seq<Candidate> -> Reply, before: seq<Candidate>, a: seq<Candidate>, mid: seq<Candidate>,
                  b: seq<Candidate>, after: seq<Candidate>, outcome: Outcome)
    requires Feeds(reply, before, a, mid, Completed) && Feeds(reply, mid, b, after, outcome)
    ensures Feeds(reply, before, a + b, after, outcome)
  {
    assert before + (a + b) == mid + b;
    forall k | |before| < k < |after| ensures reply(after[..k]).verdict == Continue {
      if k <= |mid| {
        assert after[..k] == mid[..k];
        assert mid[..|mid|] == mid;
      }
    }
    if mid == after {
      assert after[..|after|] == after;
    }
  }

  lemma FeedsWeaken(reply: seq<Candidate> -> Reply, before: seq<Candidate>, a: seq<Candidate>, b: seq<Candidate>,
                    after: seq<Candidate>, outcome: Outcome)
    requires Feeds(reply, before, a, after, outcome) && !outcome.Completed? && a <= b
    ensures Feeds(reply, before, b, after, outcome)
  {
    assert before + a <= before + b;
  }

  /** A scan that ends before its plan does has still followed it. */
  lemma FeedsCut(reply: seq<Candidate> -> Reply, before: seq<Candidate>, a: seq<Candidate>, b: seq<Candidate>,
                 after: seq<Candidate>)
    requires Feeds(reply, before, a, after, Completed) && a <= b
    ensures Feeds(reply, before, b, after, PrematureEof)
  {
    assert before + a <= before + b;
  }

  // ---------------------------------------------------------------- the scanner

  /** The first sector above a high-water mark. */
  function After(mark: Option<nat>): nat {
    if mark.Some? then mark.value + SECTOR_SIZE else 0
  }

  /** The highest sector below `upTo` with a full window in a buffer ending at `end`. */
  function Highest(first: nat, end: nat, upTo: nat): Option<nat> {
    if first < upTo && first + HEADER_SIZE <= end
    then Some(if upTo - SECTOR_SIZE <= end - HEADER_SIZE then SatSub(upTo, SECTOR_SIZE) else AlignDown(end - HEADER_SIZE))
    else None
  }

  /** The bump to the next sector boundary lands on `AlignUp`, below which nothing is scanned. */
  lemma Bump(x: nat, end: nat)
    ensures x + (if x % SECTOR_SIZE != 0 then SECTOR_SIZE - x % SECTOR_SIZE else 0) == AlignUp(x)
    ensures Highest(AlignUp(x), end, AlignUp(x)) == None
  {
  }

  lemma HighestDone(first: nat, end: nat, upTo: nat)
    requires end <= upTo
    ensures Highest(first, end, upTo) == Highest(first, end, end)
  {
  }

  lemma HighestStep(first: nat, end: nat, s: nat)
    requires Aligned(first) && Aligned(s) && first <= s < end
    ensures Aligned(s + SECTOR_SIZE)
    ensures Highest(first, end, s + SECTOR_SIZE)
         == if s + HEADER_SIZE <= end then Some(s) else Highest(first, end, s)
  {
    AlignedSum(s, SECTOR_SIZE);
    if first < s {
      AlignedDifference(SECTOR_SIZE, s);
    }
  }

  /** The sectors classified from a buffer that scans [from, end). */
  function ChunkSectors(gap: Gap, from: nat, end: nat, mark: Option<nat>): seq<nat> {
    Sectors(Max(AlignUp(from), After(mark)), Deferred(gap, end))
  }

  /** The candidates of the sectors from `lo` on that lie below both `s` and `deferred`. */
  function Upto(data: seq<Byte>, lo: nat, s: nat, deferred: nat, gapEnd: nat): seq<Candidate> {
    Candidates(data, Sectors(lo, Min(s, deferred)), gapEnd)
  }

  lemma UptoStep(data: seq<Byte>, lo: nat, s: nat, deferred: nat, gapEnd: nat)
    requires Aligned(lo) && Aligned(s)
    ensures Upto(data, lo, s + SECTOR_SIZE, deferred, gapEnd)
         == Upto(data, lo, s, deferred, gapEnd) + if lo <= s < deferred then Probe(data, s, gapEnd) else []
  {
    hide Probe;
    if s < deferred {
      SectorsStep(lo, s, Min(s + SECTOR_SIZE, deferred));
      if lo <= s {
        var init := Sectors(lo, s);
        assert (init + [s])[..|init + [s]| - 1] == init;
      }
    }
  }

  lemma UptoPrefix(data: seq<Byte>, lo: nat, s: nat, deferred: nat, gapEnd: nat)
    ensures Upto(data, lo, s, deferred, gapEnd) <= Candidates(data, Sectors(lo, deferred), gapEnd)
    ensures s <= lo ==> Upto(data, lo, s, deferred, gapEnd) == []
    ensures s >= deferred ==> Upto(data, lo, s, deferred, gapEnd) == Candidates(data, Sectors(lo, deferred), gapEnd)
  {
    hide Probe;
    SectorsPrefix(lo, Min(s, deferred), deferred);
    CandidatesPrefix(data, Sectors(lo, Min(s, deferred)), Sectors(lo, deferred), gapEnd);
  }

  /** A source that ends early yields a prefix of what the chunk would have given. */
  lemma ShortChunk(data: seq<Byte>, gap: Gap, from: nat, short: nat, end: nat, mark: Option<nat>)
    requires short <= end <= gap.end
    ensures Candidates(data, ChunkSectors(gap, from, short, mark), gap.end)
         <= Candidates(data, ChunkSectors(gap, from, end, mark), gap.end)
  {
    hide Candidates;
    var lo := Max(AlignUp(from), After(mark));
    SectorsPrefix(lo, Deferred(gap, short), Deferred(gap, end));
    CandidatesPrefix(data, Sectors(lo, Deferred(gap, short)), Sectors(lo, Deferred(gap, end)), gap.end);
  }

  /** Keeping the larger of two marks moves the first open sector as the plan says. */
  lemma MarkStep(first: nat, end: nat, mark: Option<nat>)
    requires Aligned(first) && (mark.Some? ==> Aligned(mark.value))
    ensures var highest := Highest(first, end, end);
            var newMark := if highest.None? || (mark.Some? && mark.value > highest.value) then mark else highest;
            After(newMark) == NextSector(first, end, After(mark)) && (newMark.Some? ==> Aligned(newMark.value))
  {
  }

  lemma CandidatesNone(data: seq<Byte>, gapEnd: nat)
    ensures Candidates(data, [], gapEnd) == []
  {
  }

  lemma PlanStep(chunkSize: nat, gap: Gap, filePos: nat, mark: Option<nat>, done: seq<nat>)
    requires chunkSize >= HEADER_SIZE && filePos < gap.end
    ensures var end := ChunkEnd(chunkSize, gap, filePos);
            var now := ChunkSectors(gap, ScanStart(gap, filePos), end, mark);
            var next := NextSector(AlignUp(ScanStart(gap, filePos)), end, After(mark));
            done + PlanFrom(chunkSize, gap, filePos, After(mark)) == (done + now) + PlanFrom(chunkSize, gap, end, next)
  {
  }

  lemma PlanEnds(chunkSize: nat, gap: Gap, filePos: nat, next: nat, done: seq<nat>)
    requires chunkSize >= HEADER_SIZE && gap.start < gap.end
    ensures Plan(chunkSize, gap) == [] + PlanFrom(chunkSize, gap, AlignDown(gap.start), 0)
    ensures filePos >= gap.end ==> done + PlanFrom(chunkSize, gap, filePos, next) == done
  {
  }

  lemma {:induction false} PlannedPrefix(chunkSize: nat, data: seq<Byte>, gaps: seq<Gap>, n: nat)
    requires chunkSize >= HEADER_SIZE && n <= |gaps|
    ensures Planned(chunkSize, data, gaps[..n]) <= Planned(chunkSize, data, gaps)
    decreases |gaps|
  {
    hide Candidates, Plan;
    if n == |gaps| {
      assert gaps[..n] == gaps;
    } else {
      var init := gaps[..|gaps| - 1];
      assert init[..n] == gaps[..n];
      PlannedPrefix(chunkSize, data, init, n);
    }
  }

  lemma {:induction false} TotalPrefix(gaps: seq<Gap>, n: nat)
    requires n <= |gaps|
    ensures TotalBytes(gaps[..n]) <= TotalBytes(gaps)
    decreases |gaps|
  {
    if n == |gaps| {
      assert gaps[..n] == gaps;
    } else {
      var init := gaps[..|gaps| - 1];
      assert init[..n] == gaps[..n];
      TotalPrefix(init, n);
    }
  }

  /** An empty gap plans no candidate. */
  lemma NoGaps(chunkSize: nat, data: seq<Byte>)
    ensures TotalBytes([]) == 0 && (chunkSize >= HEADER_SIZE ==> Planned(chunkSize, data, []) == [])
  {
  }

  lemma GapStep(chunkSize: nat, data: seq<Byte>, gaps: seq<Gap>, i: nat)
    requires chunkSize >= HEADER_SIZE && i < |gaps|
    ensures Planned(chunkSize, data, gaps[..i + 1])
         == Planned(chunkSize, data, gaps[..i]) + Candidates(data, Plan(chunkSize, gaps[i]), gaps[i].end)
    ensures TotalBytes(gaps[..i + 1]) == TotalBytes(gaps[..i]) + SatSub(gaps[i].end, gaps[i].start)
  {
    hide Candidates, Plan;
    assert gaps[..i + 1][..i] == gaps[..i];
  }

  lemma PlanNothing(chunkSize: nat, data: seq<Byte>, gaps: seq<Gap>, i: nat)
    requires chunkSize >= HEADER_SIZE && i < |gaps| && gaps[i].end <= gaps[i].start
    ensures Planned(chunkSize, data, gaps[..i + 1]) == Planned(chunkSize, data, gaps[..i])
    ensures TotalBytes(gaps[..i + 1]) == TotalBytes(gaps[..i])
  {
    assert gaps[..i + 1][..i] == gaps[..i];
    CandidatesNone(data, gaps[i].end);
  }

  /** Progress reports never fall and the last one is the running total. */
  ghost predicate Reports(progress: seq<nat>, bytesScanned: nat) {
    && (forall i, j :: 0 <= i < j < |progress| ==> progress[i] <= progress[j])
    && (progress != [] ==> progress[|progress| - 1] == bytesScanned)
  }

  lemma ReportsNothing()
    ensures Reports([], 0)
  {
  }

  class LostScanner {
    const reply: seq<Candidate> -> Reply
    var delivered: seq<Candidate>
    var bytesScanned: nat
    var progress: seq<nat>

    constructor (reply: seq<Candidate> -> Reply)
      ensures this.reply == reply && delivered == [] && bytesScanned == 0 && progress == []
    {
      this.reply := reply;
      delivered, bytesScanned, progress := [], 0, [];
    }

    /** Fills `buf[..len]` over short reads and interruptions; short only at the end of the source. */
    method ReadFull(source: Source, buf: array<Byte>, len: nat) returns (r: Option<nat>)
      requires len <= buf.Length
      modifies source`pos, source`plan, buf
      ensures Fault !in old(source.plan) ==> r.Some? && Fault !in source.plan
      ensures r.Some? ==>
                && r.value == Min(len, SatSub(|source.data|, old(source.pos)))
                && buf[..r.value] == Window(source.data, old(source.pos), old(source.pos) + r.value)
    {
      hide Window;
      var filled := 0;
      assert buf[..0] == Window(source.data, source.pos, source.pos) by { WindowEmpty(source.data, source.pos); }
      while filled < len
        invariant filled <= Min(len, SatSub(|source.data|, old(source.pos)))
        invariant source.pos == old(source.pos) + filled
        invariant buf[..filled] == Window(source.data, old(source.pos), old(source.pos) + filled)
        invariant Fault !in old(source.plan) ==> Fault !in source.plan
        decreases len - filled, |source.plan|
      {
        var read := source.Read(buf, filled, len);
        match read {
          case Count(n) =>
            if n == 0 { break; }
            WindowAppend(source.data, old(source.pos), filled, n);
            assert buf[..filled + n] == buf[..filled] + buf[filled..filled + n];
            filled := filled + n;
          case Interrupted =>
          case Failed => return None;
        }
      }
      r := Some(filled);
    }

    /** Classifies one window and offers a candidate to the callback, which may move the reader. */
    method TrySector(source: Source, window: seq<Byte>, s: nat, ghost gapEnd: nat) returns (outcome: Outcome)
      requires window == Window(source.data, s, Min(s + HEADER_SIZE, gapEnd))
      modifies source`pos, this`delivered
      ensures outcome in {Completed, Stopped, CallbackFailed}
      ensures Feeds(reply, old(delivered), Probe(source.data, s, gapEnd), delivered, outcome)
    {
      var hint := ClassifySector(window);
      if hint.None? {
        return Completed;
      }
      delivered := delivered + [Candidate(s, hint.value)];
      var answer := reply(delivered);
      source.Seek(answer.leavesReaderAt);
      outcome := match answer.verdict case Continue => Completed case Stop => Stopped case Fail => CallbackFailed;
    }

    /** One step of the inner loop: sectors up to `mark` are done, sectors from `Deferred` on wait. */
    method ScanSector(source: Source, bytes: seq<Byte>, base: nat, off: nat, gap: Gap, mark: Option<nat>)
      returns (outcome: Outcome, full: bool)
      requires gap.start <= base + off < base + |bytes| <= gap.end
      requires bytes == Window(source.data, base, base + |bytes|)
      requires Aligned(base + off) && (mark.Some? ==> Aligned(mark.value))
      modifies source`pos, this`delivered
      ensures outcome in {Completed, Stopped, CallbackFailed}
      ensures full <==> base + off + HEADER_SIZE <= base + |bytes|
      ensures var s := base + off;
              Feeds(reply, old(delivered),
                    if After(mark) <= s < Deferred(gap, base + |bytes|) then Probe(source.data, s, gap.end) else [],
                    delivered, outcome)
    {
      hide ClassifySector, Probe, Window, Feeds, Sectors, AlignUp, AlignDown;
      FeedsNothing(reply, delivered);
      var s := base + off;
      var windowEnd := Min(|bytes|, off + HEADER_SIZE);
      var window := bytes[off..windowEnd];
      full := |window| >= HEADER_SIZE;
      var alreadyDone := mark.Some? && s <= mark.value;
      var windowIsFinal := Min(base + |bytes|, gap.end) == gap.end;
      outcome := Completed;
      if !alreadyDone && (full || windowIsFinal) {
        WindowSlice(source.data, base, |bytes|, off, windowEnd);
        assert base + windowEnd == Min(s + HEADER_SIZE, gap.end);
        outcome := TrySector(source, window, s, gap.end);
      }
    }

    /**
     * Classifies the sectors of one filled buffer that starts at `base` (the inner loop of a
     * scan) and returns the highest sector that had a full window.
     */
    method ScanBuffer(source: Source, bytes: seq<Byte>, base: nat, startOff: nat, gap: Gap, mark: Option<nat>)
      returns (outcome: Outcome, highest: Option<nat>)
      requires gap.start <= base + startOff && base + |bytes| <= gap.end
      requires bytes == Window(source.data, base, base + |bytes|)
      requires mark.Some? ==> Aligned(mark.value)
      modifies source`pos, this`delivered
      ensures outcome in {Completed, Stopped, CallbackFailed}
      ensures outcome.Completed? ==> highest == Highest(AlignUp(base + startOff), base + |bytes|, base + |bytes|)
      ensures Feeds(reply, old(delivered),
                    Candidates(source.data, ChunkSectors(gap, base + startOff, base + |bytes|, mark), gap.end),
                    delivered, outcome)
    {
      hide Probe, Candidates, Sectors, Upto, Window, Feeds, Highest, AlignUp, AlignDown;
      ghost var data, first := source.data, AlignUp(base + startOff);
      ghost var lo := Max(first, After(mark));
      ghost var end, deferred := base + |bytes|, Deferred(gap, base + |bytes|);
      if mark.Some? {
        AlignedSum(mark.value, SECTOR_SIZE);
      }
      assert Aligned(lo);
      var off := startOff;
      var misalignment := (base + off) % SECTOR_SIZE;
      if misalignment != 0 {
        off := off + (SECTOR_SIZE - misalignment);
      }
      highest := None;
      outcome := Completed;
      Bump(base + startOff, end);
      FeedsNothing(reply, delivered);
      UptoPrefix(data, lo, base + off, deferred, gap.end);
      while off < |bytes|
        invariant Aligned(base + off) && first <= base + off && outcome == Completed
        invariant highest == Highest(first, end, base + off)
        invariant Feeds(reply, old(delivered), Upto(data, lo, base + off, deferred, gap.end), delivered, Completed)
      {
        var s := base + off;
        assert gap.start <= s < gap.end;  // so the skips of sectors outside the gap never apply
        ghost var before, so := delivered, Upto(data, lo, s, deferred, gap.end);
        ghost var next := Upto(data, lo, s + SECTOR_SIZE, deferred, gap.end);
        UptoStep(data, lo, s, deferred, gap.end);
        var full;
        outcome, full := ScanSector(source, bytes, base, off, gap, mark);
        FeedsThen(reply, old(delivered), so, before,
                  if lo <= s < deferred then Probe(data, s, gap.end) else [], delivered, outcome);
        if outcome != Completed {
          UptoPrefix(data, lo, s + SECTOR_SIZE, deferred, gap.end);
          FeedsWeaken(reply, old(delivered), next, Candidates(data, Sectors(lo, deferred), gap.end), delivered, outcome);
          return;
        }
        if full {
          highest := Some(s);
        }
        HighestStep(first, end, s);
        assert base + (off + SECTOR_SIZE) == s + SECTOR_SIZE;
        off := off + SECTOR_SIZE;
      }
      HighestDone(first, end, base + off);
      UptoPrefix(data, lo, base + off, deferred, gap.end);
    }

    /** Reads one chunk; every chunk of a gap after the first backs up by the overlap. */
    method FillChunk(source: Source, buf: array<Byte>, gap: Gap, chunkSize: nat, filePos: nat)
      returns (read: Option<nat>, readStart: nat, readLen: nat, startOff: nat)
      requires chunkSize >= HEADER_SIZE && buf.Length == chunkSize + OVERLAP
      requires gap.start < gap.end && AlignDown(gap.start) <= filePos < gap.end
      requires filePos == AlignDown(gap.start) || filePos >= AlignDown(gap.start) + HEADER_SIZE
      modifies source`pos, source`plan, buf
      ensures Fault !in old(source.plan) ==> read.Some? && Fault !in source.plan
      ensures readStart <= filePos && readStart + startOff == ScanStart(gap, filePos) >= gap.start
      ensures readStart + readLen == ChunkEnd(chunkSize, gap, filePos) > Max(filePos, gap.start)
      ensures read.Some? ==>
                && read.value == Min(readLen, SatSub(|source.data|, readStart)) && read.value <= buf.Length
                && buf[..read.value] == Window(source.data, readStart, readStart + read.value)
    {
      hide Window, Sectors;
      var wantNew := Min(gap.end - filePos, chunkSize);
      var alignedStart := gap.start / SECTOR_SIZE * SECTOR_SIZE;
      assert alignedStart == AlignDown(gap.start);
      var isFirst := filePos == alignedStart;
      readStart, readLen := filePos, Min(wantNew, buf.Length);
      if !isFirst {
        readStart, readLen := SatSub(filePos, OVERLAP), Min(wantNew + OVERLAP, buf.Length);
      }
      startOff := if isFirst then SatSub(gap.start, readStart) else 0;
      source.Seek(readStart);
      read := ReadFull(source, buf, readLen);
    }

    /** Counts the new bytes of a chunk that lie in the gap, and reports the running total. */
    method Report(filledEnd: nat, requestedEnd: nat, progressStart: nat)
      requires progressStart < requestedEnd && Reports(progress, bytesScanned)
      modifies this`bytesScanned, this`progress
      ensures Reports(progress, bytesScanned) && old(progress) <= progress
      ensures old(bytesScanned) <= bytesScanned <= old(bytesScanned) + requestedEnd - progressStart
      ensures bytesScanned == old(bytesScanned) + requestedEnd - progressStart <==> filledEnd >= requestedEnd
    {
      bytesScanned := bytesScanned + SatSub(Min(filledEnd, requestedEnd), progressStart);
      progress := progress + [bytesScanned];
    }

    /** One chunk of a gap: read with overlap, classify, move the mark, count and report. */
    method ScanChunk(source: Source, buf: array<Byte>, gap: Gap, chunkSize: nat, filePos: nat, mark: Option<nat>)
      returns (outcome: Outcome, newMark: Option<nat>)
      requires chunkSize >= HEADER_SIZE && buf.Length == chunkSize + OVERLAP
      requires gap.start < gap.end && AlignDown(gap.start) <= filePos < gap.end
      requires filePos == AlignDown(gap.start) || filePos >= AlignDown(gap.start) + HEADER_SIZE
      requires mark.Some? ==> Aligned(mark.value)
      requires Reports(progress, bytesScanned)
      modifies source`pos, source`plan, buf, this`delivered, this`bytesScanned, this`progress
      ensures Fault !in old(source.plan) ==> !outcome.ReadFailed? && Fault !in source.plan
      ensures outcome in {Completed, Stopped, CallbackFailed, ReadFailed, PrematureEof}
      ensures Feeds(reply, old(delivered),
                    Candidates(source.data, ChunkSectors(gap, ScanStart(gap, filePos), ChunkEnd(chunkSize, gap, filePos), mark),
                               gap.end),
                    delivered, outcome)
      ensures outcome.Completed? ==>
                && ChunkEnd(chunkSize, gap, filePos) <= |source.data|
                && After(newMark) == NextSector(AlignUp(ScanStart(gap, filePos)), ChunkEnd(chunkSize, gap, filePos), After(mark))
                && (newMark.Some? ==> Aligned(newMark.value))
      ensures outcome.PrematureEof? ==> gap.end > |source.data|
      ensures Reports(progress, bytesScanned) && old(progress) <= progress
      ensures var most := old(bytesScanned) + ChunkEnd(chunkSize, gap, filePos) - Max(filePos, gap.start);
              && old(bytesScanned) <= bytesScanned <= most
              && (outcome.Completed? ==> bytesScanned == most)
              && (outcome.PrematureEof? ==> bytesScanned < most)
    {
      hide Feeds, Candidates, Sectors, Highest, AlignUp, AlignDown, Reports, NextSector, Window, ChunkSectors, ScanStart;
      newMark := mark;
      var read, readStart, readLen, startOff := FillChunk(source, buf, gap, chunkSize, filePos);
      ghost var end, from := ChunkEnd(chunkSize, gap, filePos), readStart + startOff;
      ghost var planned := Candidates(source.data, ChunkSectors(gap, from, end, mark), gap.end);
      if read.None? {
        FeedsNothing(reply, delivered);
        FeedsWeaken(reply, delivered, [], planned, delivered, ReadFailed);
        return ReadFailed, mark;
      }
      var filledEnd := readStart + read.value;
      ghost var found := Candidates(source.data, ChunkSectors(gap, from, filledEnd, mark), gap.end);
      ShortChunk(source.data, gap, from, filledEnd, end, mark);
      var highest;
      outcome, highest := ScanBuffer(source, buf[..read.value], readStart, startOff, gap, mark);
      if outcome != Completed {
        FeedsWeaken(reply, old(delivered), found, planned, delivered, outcome);
        return;
      }
      if highest.Some? {
        newMark := if mark.Some? && mark.value > highest.value then mark else highest;
      }
      MarkStep(AlignUp(from), filledEnd, mark);
      var requestedEnd := filePos + Min(gap.end - filePos, chunkSize);
      Report(filledEnd, requestedEnd, Max(filePos, gap.start));
      if read.value < readLen {
        outcome := PrematureEof;
        FeedsCut(reply, old(delivered), found, planned, delivered);
      }
    }

    /** The chunk loop of one gap. */
    method ScanGap(source: Source, buf: array<Byte>, gap: Gap, chunkSize: nat) returns (outcome: Outcome)
      requires chunkSize >= HEADER_SIZE && buf.Length == chunkSize + OVERLAP
      requires gap.start < gap.end && Reports(progress, bytesScanned)
      modifies source`pos, source`plan, buf, this`delivered, this`bytesScanned, this`progress
      ensures Fault !in old(source.plan) ==> !outcome.ReadFailed? && Fault !in source.plan
      ensures outcome in {Completed, Stopped, CallbackFailed, ReadFailed, PrematureEof}
      ensures outcome.Completed? ==> gap.end <= |source.data|
      ensures outcome.PrematureEof? ==> gap.end > |source.data|
      ensures Feeds(reply, old(delivered), Candidates(source.data, Plan(chunkSize, gap), gap.end), delivered, outcome)
      ensures Reports(progress, bytesScanned) && old(progress) <= progress
      ensures old(bytesScanned) <= bytesScanned <= old(bytesScanned) + (gap.end - gap.start)
      ensures outcome.Completed? ==> bytesScanned == old(bytesScanned) + (gap.end - gap.start)
      ensures outcome.PrematureEof? ==> bytesScanned < old(bytesScanned) + (gap.end - gap.start)
    {
      hide Feeds, Candidates, Sectors, Reports, AlignUp, NextSector, Plan, PlanFrom, ChunkSectors, ScanStart;
      var filePos := AlignDown(gap.start);
      var mark: Option<nat> := None;
      ghost var done: seq<nat> := [];
      FeedsNothing(reply, delivered);
      CandidatesNone(source.data, gap.end);
      PlanEnds(chunkSize, gap, gap.end, 0, []);
      while filePos < gap.end
        invariant AlignDown(gap.start) <= filePos <= gap.end
        invariant filePos == AlignDown(gap.start) || filePos >= Min(gap.end, AlignDown(gap.start) + HEADER_SIZE)
        invariant mark.Some? ==> Aligned(mark.value)
        invariant Plan(chunkSize, gap) == done + PlanFrom(chunkSize, gap, filePos, After(mark))
        invariant Feeds(reply, old(delivered), Candidates(source.data, done, gap.end), delivered, Completed)
        invariant Reports(progress, bytesScanned) && old(progress) <= progress
        invariant bytesScanned == old(bytesScanned) + (Max(filePos, gap.start) - gap.start)
        invariant Fault !in old(source.plan) ==> Fault !in source.plan
        invariant filePos == AlignDown(gap.start) || filePos <= |source.data|
      {
        ghost var before, was := delivered, mark;
        ghost var now := ChunkSectors(gap, ScanStart(gap, filePos), ChunkEnd(chunkSize, gap, filePos), mark);
        outcome, mark := ScanChunk(source, buf, gap, chunkSize, filePos, mark);
        CandidatesConcat(source.data, done, now, gap.end);
        FeedsThen(reply, old(delivered), Candidates(source.data, done, gap.end), before,
                  Candidates(source.data, now, gap.end), delivered, outcome);
        PlanStep(chunkSize, gap, filePos, was, done);
        if outcome != Completed {
          CandidatesPrefix(source.data, done + now, Plan(chunkSize, gap), gap.end);
          FeedsWeaken(reply, old(delivered), Candidates(source.data, done + now, gap.end),
                      Candidates(source.data, Plan(chunkSize, gap), gap.end), delivered, outcome);
          return;
        }
        done := done + now;
        filePos := filePos + Min(gap.end - filePos, chunkSize);
      }
      outcome := Completed;
      PlanEnds(chunkSize, gap, filePos, After(mark), done);
    }

    /** The exact denominator of the progress reports, unless it exceeds a 64-bit word. */
    method SumGaps(gaps: seq<Gap>) returns (total: Option<U64>)
      ensures total.None? <==> TotalBytes(gaps) > U64_MAX
      ensures total.Some? ==> total.value == TotalBytes(gaps)
    {
      var sum := 0;
      for i := 0 to |gaps|
        invariant sum == TotalBytes(gaps[..i]) <= U64_MAX
      {
        assert gaps[..i + 1][..i] == gaps[..i];
        TotalPrefix(gaps, i + 1);
        sum := sum + SatSub(gaps[i].end, gaps[i].start);
        if sum > U64_MAX {
          return None;
        }
      }
      assert gaps[..|gaps|] == gaps;
      total := Some(sum);
    }

    /**
     * The whole scan. For every source, short-read schedule, callback and chunk size, the
     * callback sees a prefix of the planned candidates, and all of them if the scan completes;
     * with chunks that suit every gap these are exactly the candidates of a pass over all sectors.
     */
    method ScanGaps(source: Source, gaps: seq<Gap>, chunkSize: U64) returns (outcome: Outcome)
      requires delivered == [] && bytesScanned == 0 && progress == []
      modifies source`pos, source`plan, this`delivered, this`bytesScanned, this`progress
      ensures chunkSize < HEADER_SIZE <==> outcome.ChunkTooSmall?
      ensures outcome.ChunkTooSmall? || outcome.TotalOverflow? || outcome.BufferOverflow? ==> delivered == []
      ensures outcome.TotalOverflow? <==> chunkSize >= HEADER_SIZE && TotalBytes(gaps) > U64_MAX
      ensures outcome.BufferOverflow? <==>
                chunkSize >= HEADER_SIZE && TotalBytes(gaps) <= U64_MAX && chunkSize + OVERLAP > U64_MAX
      ensures Fault !in old(source.plan) ==> !outcome.ReadFailed?
      ensures outcome.Completed? ==> forall gap <- gaps :: Covered(source.data, gap)
      ensures outcome.PrematureEof? ==> exists gap <- gaps :: !Covered(source.data, gap)
      ensures chunkSize >= HEADER_SIZE ==>
                Feeds(reply, [], Planned(chunkSize, source.data, gaps), delivered, outcome)
      ensures chunkSize >= HEADER_SIZE && (forall gap <- gaps :: Suits(chunkSize, gap)) ==>
                Feeds(reply, [], Expected(source.data, gaps), delivered, outcome)
      ensures Reports(progress, bytesScanned) && bytesScanned <= TotalBytes(gaps)
      ensures outcome.Completed? ==> bytesScanned == TotalBytes(gaps)
      ensures outcome.PrematureEof? ==> bytesScanned < TotalBytes(gaps)
    {
      hide Feeds, Candidates, Sectors, AlignDown, Plan, Reports, Expected, Suits, Planned, TotalBytes;
      ReportsNothing();
      NoGaps(chunkSize, source.data);
      if chunkSize < HEADER_SIZE {
        return ChunkTooSmall;
      }
      FeedsNothing(reply, []);
      PlannedPrefix(chunkSize, source.data, gaps, 0);
      if (forall gap <- gaps :: Suits(chunkSize, gap)) {
        PlannedIsExpected(chunkSize, source.data, gaps);
      }
      var total := SumGaps(gaps);
      if total.None? {
        FeedsWeaken(reply, [], [], Planned(chunkSize, source.data, gaps), delivered, TotalOverflow);
        return TotalOverflow;
      }
      if chunkSize + OVERLAP > U64_MAX {
        FeedsWeaken(reply, [], [], Planned(chunkSize, source.data, gaps), delivered, BufferOverflow);
        return BufferOverflow;
      }
      var buf := new Byte[chunkSize + OVERLAP];
      for i := 0 to |gaps|
        invariant Feeds(reply, [], Planned(chunkSize, source.data, gaps[..i]), delivered, Completed)
        invariant Reports(progress, bytesScanned) && bytesScanned == TotalBytes(gaps[..i])
        invariant Fault !in old(source.plan) ==> Fault !in source.plan
        invariant forall gap <- gaps[..i] :: Covered(source.data, gap)
      {
        GapStep(chunkSize, source.data, gaps, i);
        TotalPrefix(gaps, i + 1);
        if gaps[i].end <= gaps[i].start {
          PlanNothing(chunkSize, source.data, gaps, i);
          continue;
        }
        ghost var before := delivered;
        outcome := ScanGap(source, buf, gaps[i], chunkSize);
        FeedsThen(reply, [], Planned(chunkSize, source.data, gaps[..i]), before,
                  Candidates(source.data, Plan(chunkSize, gaps[i]), gaps[i].end), delivered, outcome);
        if outcome != Completed {
          PlannedPrefix(chunkSize, source.data, gaps, i + 1);
          FeedsWeaken(reply, [], Planned(chunkSize, source.data, gaps[..i + 1]),
                      Planned(chunkSize, source.data, gaps), delivered, outcome);
          assert outcome.PrematureEof? ==> !Covered(source.data, gaps[i]);
          return;
        }
      }
      assert gaps[..|gaps|] == gaps;
      outcome := Completed;
    }
  }
}
