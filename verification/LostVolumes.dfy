// Which volumes the lost-partition scan reports: for each kind exactly the sectors whose bytes say so,
// in the classifier's order of precedence.
module LostVolumes {
  import opened Basics
  import opened Sources
  import opened LostScanPlan
  import opened LostScan

  /** The bytes at `at`, before `end`, are this text. */
  predicate TextAt(data: seq<Byte>, end: nat, at: nat, text: string) {
    at + |text| <= end <= |data| && forall i :: 0 <= i < |text| ==> data[at + i] == text[i] as int
  }

  /** The same in upper or lower case. */
  predicate LetterAt(data: seq<Byte>, end: nat, at: nat, upper: char, lower: char) {
    at < end <= |data| && (data[at] == upper as int || data[at] == lower as int)
  }

  predicate FatAt(data: seq<Byte>, end: nat, s: nat, i: nat) {
    LetterAt(data, end, s + i, 'F', 'f') && LetterAt(data, end, s + i + 1, 'A', 'a') && LetterAt(data, end, s + i + 2, 'T', 't')
  }

  /** The magic number of an ext superblock, which starts 1024 bytes behind the sector. */
  predicate IsExt(data: seq<Byte>, s: nat, end: nat) {
    s + 1024 + 58 <= end <= |data| && data[s + 1024 + 56] == 0x53 && data[s + 1024 + 57] == 0xEF
  }

  predicate IsBitLocker(data: seq<Byte>, s: nat, end: nat) {
    TextAt(data, end, s + 3, "-FVE-FS-")
  }

  predicate IsBootSector(data: seq<Byte>, s: nat, end: nat) {
    s + 512 <= end <= |data| && data[s + 510] == 0x55 && data[s + 511] == 0xAA
  }

  predicate IsNtfs(data: seq<Byte>, s: nat, end: nat) {
    IsBootSector(data, s, end) && TextAt(data, end, s + 3, "NTFS")
  }

  /** The type string of a FAT12 or FAT16 boot sector, or that of FAT32, contains FAT. */
  predicate IsFat(data: seq<Byte>, s: nat, end: nat) {
    && IsBootSector(data, s, end)
    && exists i: nat :: 54 <= i <= 87 && (i <= 59 || i >= 82) && FatAt(data, end, s, i)
  }

  /** What the sector at `s` says it is, in the order of precedence. */
  function HintAt(data: seq<Byte>, s: nat, end: nat): Option<FsHint> {
    if IsExt(data, s, end) then Some(Ext)
    else if IsBitLocker(data, s, end) then Some(BitLocker)
    else if IsNtfs(data, s, end) then Some(Ntfs)
    else if IsFat(data, s, end) then Some(Fat)
    else None
  }

  // ---------------------------------------------------------------- one sector

  lemma UpperIsLetter(b: Byte)
    ensures Upper(b) == 0x46 <==> b == 'F' as int || b == 'f' as int
    ensures Upper(b) == 0x41 <==> b == 'A' as int || b == 'a' as int
    ensures Upper(b) == 0x54 <==> b == 'T' as int || b == 't' as int
  {
  }

  predicate LettersAt(bytes: seq<Byte>, i: nat)
    requires i + 3 <= |bytes|
  {
    Upper(bytes[i]) == 0x46 && Upper(bytes[i + 1]) == 0x41 && Upper(bytes[i + 2]) == 0x54
  }

  lemma SameLetters(data: seq<Byte>, s: nat, end: nat, from: nat, k: nat)
    requires s + from + 8 <= end <= |data| && k <= 5
    ensures LettersAt(data[s..end][from..from + 8], k) <==> FatAt(data, end, s, from + k)
  {
    hide Upper;
    var bytes := data[s..end][from..from + 8];
    assert bytes[k] == data[s + (from + k)] && bytes[k + 1] == data[s + (from + k) + 1] && bytes[k + 2] == data[s + (from + k) + 2];
    UpperIsLetter(bytes[k]);
    UpperIsLetter(bytes[k + 1]);
    UpperIsLetter(bytes[k + 2]);
  }

  lemma ContainsLetters(bytes: seq<Byte>)
    requires |bytes| == 8
    ensures ContainsFat(bytes) <==> exists k: nat :: k <= 5 && LettersAt(bytes, k)
  {
    hide Upper;
    if ContainsFat(bytes) {
      var i :| 0 <= i <= |bytes| - 3 && Upper(bytes[i]) == 0x46 && Upper(bytes[i + 1]) == 0x41 && Upper(bytes[i + 2]) == 0x54;
      assert LettersAt(bytes, i);
    }
  }

  /** Eight bytes of a window contain the letters exactly if they start at one of six places. */
  lemma ContainsMeans(data: seq<Byte>, s: nat, end: nat, from: nat)
    requires s + from + 8 <= end <= |data|
    ensures ContainsFat(data[s..end][from..from + 8]) <==> exists i: nat :: from <= i <= from + 5 && FatAt(data, end, s, i)
  {
    hide ContainsFat, LettersAt, FatAt;
    var bytes := data[s..end][from..from + 8];
    ContainsLetters(bytes);
    if k: nat :| k <= 5 && LettersAt(bytes, k) {
      SameLetters(data, s, end, from, k);
    }
    if i: nat :| from <= i <= from + 5 && FatAt(data, end, s, i) {
      SameLetters(data, s, end, from, i - from);
    }
  }

  lemma TextMeans(data: seq<Byte>, s: nat, end: nat)
    requires s <= end <= |data|
    ensures end - s >= 11 ==> (data[s..end][3..11] == BITLOCKER_FVE_SIGNATURE <==> IsBitLocker(data, s, end))
    ensures end - s < 11 ==> !IsBitLocker(data, s, end)
    ensures end - s >= 7 ==> (data[s..end][3..7] == NTFS_OEM <==> TextAt(data, end, s + 3, "NTFS"))
  {
    if end - s >= 7 {
      var bytes := data[s..end][3..7];
      assert forall i :: 0 <= i < 4 ==> bytes[i] == data[s + 3 + i] && NTFS_OEM[i] == "NTFS"[i] as int;
    }
    if end - s >= 11 {
      var bytes := data[s..end][3..11];
      assert forall i :: 0 <= i < 8 ==> bytes[i] == data[s + 3 + i] && BITLOCKER_FVE_SIGNATURE[i] == "-FVE-FS-"[i] as int;
    }
  }

  /** A window is classified as the bytes of its sector say. */
  lemma ClassifyMeans(data: seq<Byte>, s: nat, end: nat)
    requires s <= end <= |data|
    ensures ClassifySector(data[s..end]) == HintAt(data, s, end)
  {
    hide ContainsFat, FatAt, TextAt;
    TextMeans(data, s, end);
    if end - s >= 512 {
      FatMeans(data, s, end);
    }
  }

  lemma FatMeans(data: seq<Byte>, s: nat, end: nat)
    requires s + 512 <= end <= |data|
    ensures ContainsFat(data[s..end][54..62]) || ContainsFat(data[s..end][82..90]) <==>
              exists i: nat :: 54 <= i <= 87 && (i <= 59 || i >= 82) && FatAt(data, end, s, i)
  {
    hide ContainsFat, FatAt;
    ContainsMeans(data, s, end, 54);
    ContainsMeans(data, s, end, 82);
  }

  /** The end of what is known of a sector: 2048 bytes of it, within the gap and the image. */
  function Known(data: seq<Byte>, s: nat, gapEnd: nat): nat {
    Min(|data|, Min(gapEnd, s + 2048))
  }

  /** The scan reports a sector exactly as what its bytes say it is, and not at all if they say nothing. */
  lemma ProbeExact(data: seq<Byte>, s: nat, gapEnd: nat, hint: FsHint)
    ensures Candidate(s, hint) in Probe(data, s, gapEnd) <==> HintAt(data, s, Known(data, s, gapEnd)) == Some(hint)
    ensures Probe(data, s, gapEnd) == [] <==> HintAt(data, s, Known(data, s, gapEnd)) == None
  {
    hide ClassifySector;
    var end := Known(data, s, gapEnd);
    if s <= end {
      assert Window(data, s, Min(s + HEADER_SIZE, gapEnd)) == data[s..end];
      ClassifyMeans(data, s, end);
    } else {
      assert Window(data, s, Min(s + HEADER_SIZE, gapEnd)) == data[0..0 + 0];
      NothingThere();
    }
  }

  lemma NothingThere()
    ensures ClassifySector([]) == None
  {
  }

  // ---------------------------------------------------------------- the whole scan

  /** A volume of this kind starts at sector `s` of some gap. */
  ghost predicate IsThere(data: seq<Byte>, gaps: seq<Gap>, s: nat, hint: FsHint) {
    exists gap <- gaps :: InGap(gap, s) && HintAt(data, s, Known(data, s, gap.end)) == Some(hint)
  }

  predicate InGap(gap: Gap, s: nat) {
    s % 512 == 0 && gap.start <= s < gap.end
  }

  lemma InGapMeans(gap: Gap, s: nat)
    ensures s in AllSectors(gap) <==> InGap(gap, s)
  {
    hide Sectors;
    SectorsMembers(AlignUp(gap.start), gap.end, s);
    if s % 512 == 0 && gap.start <= s {
      assert AlignUp(gap.start) <= s;
    }
  }

  /** One pass over all sectors finds exactly the volumes that are there. */
  lemma {:induction false} ExpectedIsThere(data: seq<Byte>, gaps: seq<Gap>, s: nat, hint: FsHint)
    ensures Candidate(s, hint) in Expected(data, gaps) <==> IsThere(data, gaps, s, hint)
  {
    hide HintAt, Probe, InGap;
    if gaps != [] {
      var init, last := gaps[..|gaps| - 1], gaps[|gaps| - 1];
      ExpectedIsThere(data, init, s, hint);
      CandidateOrigin(data, AllSectors(last), last.end, Candidate(s, hint));
      ProbeOrigin(data, s, last.end, Candidate(s, hint));
      ProbeExact(data, s, last.end, hint);
      InGapMeans(last, s);
      assert gaps == init + [last];
    }
  }

  /**
   * A completed scan with suitable chunks has reported exactly the volumes that start at a sector
   * of a gap, over every short-read schedule; one that was stopped has reported only such.
   */
  method FindVolumes(scanner: LostScanner, source: Source, gaps: seq<Gap>, chunkSize: U64) returns (outcome: Outcome)
    requires scanner.delivered == [] && scanner.bytesScanned == 0 && scanner.progress == []
    requires chunkSize >= 2048 && forall gap <- gaps :: Suits(chunkSize, gap)
    modifies source`pos, source`plan, scanner`delivered, scanner`bytesScanned, scanner`progress
    ensures forall c <- scanner.delivered :: IsThere(source.data, gaps, c.offset, c.hint)
    ensures outcome.Completed? ==>
              forall s: nat, hint :: IsThere(source.data, gaps, s, hint) ==> Candidate(s, hint) in scanner.delivered
  {
    hide Expected, Planned, IsThere, Suits;
    outcome := scanner.ScanGaps(source, gaps, chunkSize);
    forall s: nat, hint
      ensures Candidate(s, hint) in Expected(source.data, gaps) <==> IsThere(source.data, gaps, s, hint)
    {
      ExpectedIsThere(source.data, gaps, s, hint);
    }
    assert scanner.delivered <= [] + Expected(source.data, gaps);
  }
}
