// What carving means: one left-to-right greedy pass over the header hits of the whole scan scope,
// and its properties: nothing starts inside a measured file, every hit is accounted for, and a
// file limit only cuts the list short.
module CarveSpec {
  import opened Basics
  import opened Sources
  import opened FooterSearch
  import opened Signatures

  datatype Basis =
    | NoData | FooterFound | FooterMissing | DeclaredSize | DeclaredTooLarge | NoEndRule | ProtectiveLimit

  datatype CarvedLength = CarvedLength(length: nat, basis: Basis, definitive: bool, protectiveLimitHit: bool)

  /** What a carve job is about: the decoded image, its declared size, and the examiner's limits. */
  datatype Job = Job(data: seq<Byte>, decodedSize: U64, maxScanBytes: nat, maxFiles: nat, unknownLengthLimit: nat)
  {
    /** Zero means unlimited. */
    function ScanLimit(): nat {
      if maxScanBytes == 0 then decodedSize else Min(maxScanBytes, decodedSize)
    }

    function Scope(): seq<Byte> {
      Window(data, 0, ScanLimit())
    }
  }

  datatype Entry = Entry(offset: nat, format: Format, carved: CarvedLength)

  /** The footer of a format and how many bytes follow it. */
  function FooterRule(format: Format): Option<(seq<Byte>, nat)> {
    match format
    case Jpeg => Some(([0xFF, 0xD9], 0))
    case Png => Some(([0x49, 0x45, 0x4E, 0x44], 4))
    case Gif => Some(([0x00, 0x3B], 0))
    case Pdf => Some(([0x25, 0x25, 0x45, 0x4F, 0x46], 0))
    case _ => None
  }

  /** The fallback for formats without an end rule: everything up to a protective limit. */
  function UnknownLength(delivered: seq<Byte>, format: Format, available: nat, limit: nat): CarvedLength {
    var readLimit := Min(available, Max(limit, |Header(format)|));
    var bytesRead := Min(readLimit, |delivered|);
    var hit := bytesRead == readLimit && readLimit < available;
    CarvedLength(bytesRead, if hit then ProtectiveLimit else NoEndRule, false, hit)
  }

  /** The length of the file whose header is at `start`, from the bytes the scope still offers. */
  function LengthOf(data: seq<Byte>, start: nat, format: Format, available: nat, limit: nat): CarvedLength {
    var delivered := Window(data, start, start + available);
    if available == 0 then CarvedLength(0, NoData, false, false)
    else
      match FooterRule(format)
      case Some((footer, trailing)) =>
        (match Found(delivered, footer, trailing)
         case Some(length) => CarvedLength(length, FooterFound, true, false)
         case None => CarvedLength(|delivered|, FooterMissing, false, false))
      case None =>
        if format == Bmp && |delivered| >= 6 && Le(delivered, 2, 4) >= |Header(format)| then
          var declared := Le(delivered, 2, 4);
          if declared <= available then CarvedLength(declared, DeclaredSize, true, false)
          else CarvedLength(available, DeclaredTooLarge, false, false)
        else UnknownLength(delivered, format, available, limit)
  }

  // ---------------------------------------------------------------- the greedy pass

  datatype Scan = Scan(entries: seq<Entry>, next: nat, stopped: bool)

  const START: Scan := Scan([], 0, false)

  /** One header hit: skipped inside an earlier entry, else carved; the file limit stops the pass. */
  function Consider(job: Job, st: Scan, hit: Match): Scan {
    if st.stopped || hit.start < st.next then st
    else
      var carved := LengthOf(job.data, hit.start, hit.format, SatSub(job.ScanLimit(), hit.start), job.unknownLengthLimit);
      if carved.length < |Header(hit.format)| then st
      else
        var entries := st.entries + [Entry(hit.start, hit.format, carved)];
        var span := if carved.definitive then carved.length else |Header(hit.format)|;
        Scan(entries, Min(hit.start + span, U64_MAX), job.maxFiles != 0 && |entries| >= job.maxFiles)
  }

  function Greedy(job: Job, st: Scan, hits: seq<Match>): Scan {
    if hits == [] then st else Consider(job, Greedy(job, st, hits[..|hits| - 1]), hits[|hits| - 1])
  }

  /** The meaning of a carve job. */
  function CarveList(job: Job): seq<Entry> {
    Greedy(job, START, Hits(job.Scope(), 0, |job.Scope()|)).entries
  }

  lemma {:induction false} GreedyConcat(job: Job, st: Scan, a: seq<Match>, b: seq<Match>)
    ensures Greedy(job, st, a + b) == Greedy(job, Greedy(job, st, a), b)
    decreases |b|
  {
    hide Consider;
    if b == [] {
      assert a + b == a;
    } else {
      var init := b[..|b| - 1];
      assert (a + b)[..|a + b| - 1] == a + init;
      GreedyConcat(job, st, a, init);
    }
  }

  lemma {:induction false} GreedyGrows(job: Job, st: Scan, hits: seq<Match>)
    ensures st.entries <= Greedy(job, st, hits).entries
    ensures st.stopped ==> Greedy(job, st, hits) == st
  {
    hide LengthOf, Header;
    if hits != [] {
      GreedyGrows(job, st, hits[..|hits| - 1]);
    }
  }

  // ---------------------------------------------------------------- nothing inside a measured file

  /** How far an entry reaches for the entries after it. */
  function Span(e: Entry): nat {
    if e.carved.definitive then e.carved.length else |Header(e.format)|
  }

  /** Entries in order of offset, each outside every earlier measured file (or header). */
  ghost predicate Separate(entries: seq<Entry>, next: nat) {
    && (forall i, j :: 0 <= i < j < |entries| ==> entries[i].offset + Span(entries[i]) <= entries[j].offset)
    && (forall e <- entries :: e.offset + Span(e) <= next || next == U64_MAX)
    && (forall e <- entries :: e.carved.length >= |Header(e.format)|)
  }

  lemma {:induction false} GreedySeparate(job: Job, hits: seq<Match>)
    requires forall h <- hits :: h.start < U64_MAX
    ensures var st := Greedy(job, START, hits); Separate(st.entries, st.next)
  {
    hide LengthOf, Header;
    if hits != [] {
      var init, hit := hits[..|hits| - 1], hits[|hits| - 1];
      assert hit in hits;
      GreedySeparate(job, init);
      var st := Greedy(job, START, init);
      if !st.stopped && hit.start >= st.next {
        forall e <- st.entries ensures e.offset + Span(e) <= hit.start { }
      }
    }
  }

  /** No entry of a carve list starts inside an earlier measured file. */
  lemma NothingNested(job: Job)
    ensures forall i, j :: 0 <= i < j < |CarveList(job)| ==>
              CarveList(job)[i].offset + Span(CarveList(job)[i]) <= CarveList(job)[j].offset
  {
    var hits := Hits(job.Scope(), 0, |job.Scope()|);
    forall h <- hits ensures h.start < U64_MAX {
      HitsMean(job.Scope(), 0, |job.Scope()|, h);
    }
    GreedySeparate(job, hits);
  }

  // ---------------------------------------------------------------- every hit is accounted for

  /** A hit is carved, or lies inside what an earlier entry covers. */
  ghost predicate Accounted(entries: seq<Entry>, hit: Match) {
    exists e <- entries ::
      (e.offset == hit.start && e.format == hit.format) || e.offset <= hit.start < e.offset + Span(e)
  }

  lemma Longer(a: seq<Entry>, b: seq<Entry>, hit: Match)
    requires a <= b && Accounted(a, hit)
    ensures Accounted(b, hit)
  {
    var e :| e in a && ((e.offset == hit.start && e.format == hit.format) || e.offset <= hit.start < e.offset + Span(e));
    assert e in b;
  }

  /** A footer of the format's own rule ends at or past the end of the header. */
  lemma FooterPastHeader(data: seq<Byte>, format: Format, p: nat)
    requires FooterRule(format).Some? && |Header(format)| <= |data| && data[..|Header(format)|] == Header(format)
    requires var (footer, trailing) := FooterRule(format).value; FitsAt(data, p, footer, trailing)
    ensures p + |FooterRule(format).value.0| >= |Header(format)|
  {
    var (footer, trailing) := FooterRule(format).value;
    assert data[p] == data[p..p + |footer|][0] && data[p + 1] == data[p..p + |footer|][1];
    assert forall i :: 0 <= i < |Header(format)| ==> data[i] == data[..|Header(format)|][i];
  }

  /** A real header always yields a length that reaches past the header. */
  lemma LengthCoversHeader(data: seq<Byte>, limit: nat, hit: Match, unknown: nat)
    requires HeaderAt(Window(data, 0, limit), hit.start, hit.format)
    ensures LengthOf(data, hit.start, hit.format, SatSub(limit, hit.start), unknown).length >= |Header(hit.format)|
  {
    hide Header, FirstFooter, FooterRule, FitsAt;
    var scope, available := Window(data, 0, limit), SatSub(limit, hit.start);
    var delivered := Window(data, hit.start, hit.start + available);
    assert delivered == scope[hit.start..];
    var h := |Header(hit.format)|;
    assert delivered[..h] == scope[hit.start..hit.start + h];
    if FooterRule(hit.format).Some? {
      var (footer, trailing) := FooterRule(hit.format).value;
      var found := FirstFooter(delivered, 0, footer, trailing);
      FirstFooterFits(delivered, footer, trailing);
      if found.Some? {
        FooterPastHeader(delivered, hit.format, found.value);
      }
    }
  }

  lemma FirstFooterFits(data: seq<Byte>, footer: seq<Byte>, trailing: nat)
    ensures var found := FirstFooter(data, 0, footer, trailing);
            found.Some? ==> FitsAt(data, found.value, footer, trailing)
  {
  }

  /** The pass waits exactly until the last entry's span is over. */
  lemma {:induction false} NextIsLastSpan(job: Job, hits: seq<Match>)
    requires Ascending(hits) && job.maxFiles == 0
    ensures var st := Greedy(job, START, hits);
            && !st.stopped
            && (st.entries == [] ==> st.next == 0)
            && (st.entries != [] ==>
                  var last := st.entries[|st.entries| - 1];
                  && st.next <= last.offset + Span(last)
                  && hits != [] && last.offset <= hits[|hits| - 1].start)
  {
    hide LengthOf, Header;
    if hits != [] {
      var init := hits[..|hits| - 1];
      NextIsLastSpan(job, init);
    }
  }

  /** Without a file limit every header hit of the scope ends up carved or inside an entry. */
  lemma {:induction false} GreedyAccounts(job: Job, hits: seq<Match>, hit: Match)
    requires job.maxFiles == 0 && hit in hits && Ascending(hits)
    requires forall h <- hits :: HeaderAt(job.Scope(), h.start, h.format)
    ensures Accounted(Greedy(job, START, hits).entries, hit)
  {
    hide LengthOf, Header, HeaderAt, Accounted;
    var init, last := hits[..|hits| - 1], hits[|hits| - 1];
    assert hits == init + [last];
    var st, after := Greedy(job, START, init), Greedy(job, START, hits);
    if hit in init {
      GreedyAccounts(job, init, hit);
      Longer(st.entries, after.entries, hit);
    } else {
      NextIsLastSpan(job, init);
      LengthCoversHeader(job.data, job.ScanLimit(), hit, job.unknownLengthLimit);
      var e := after.entries[|after.entries| - 1];
      AccountedBy(after.entries, e, hit);
    }
  }

  lemma AccountedBy(entries: seq<Entry>, e: Entry, hit: Match)
    requires e in entries
    requires (e.offset == hit.start && e.format == hit.format) || e.offset <= hit.start < e.offset + Span(e)
    ensures Accounted(entries, hit)
  {
  }

  /** Every header in the scan scope is carved or lies inside a carved file or header. */
  lemma EveryHeaderAccounted(job: Job, p: nat, format: Format)
    requires job.maxFiles == 0 && HeaderAt(job.Scope(), p, format)
    ensures Accounted(CarveList(job), Match(p, format))
  {
    hide Accounted, HeaderAt;
    var scope := job.Scope();
    var hits := Hits(scope, 0, |scope|);
    HeaderFits(scope, p, format);
    HitsMean(scope, 0, |scope|, Match(p, format));
    HitsAscending(scope, 0, |scope|);
    forall h <- hits ensures HeaderAt(scope, h.start, h.format) {
      HitsMean(scope, 0, |scope|, h);
    }
    GreedyAccounts(job, hits, Match(p, format));
  }

  // ---------------------------------------------------------------- the file limit

  /** With a file limit the pass is the unlimited one until the limit, and then stands still. */
  lemma {:induction false} LimitedGreedy(job: Job, hits: seq<Match>)
    requires job.maxFiles > 0
    ensures var limited, free := Greedy(job, START, hits), Greedy(job.(maxFiles := 0), START, hits);
            && !free.stopped
            && |limited.entries| <= job.maxFiles
            && (limited.stopped <==> |limited.entries| == job.maxFiles)
            && (if limited.stopped then limited.entries <= free.entries
                else limited.entries == free.entries && limited.next == free.next)
  {
    hide LengthOf, Header;
    if hits != [] {
      LimitedGreedy(job, hits[..|hits| - 1]);
      LimitOnly(job);
    }
  }

  lemma LimitOnly(job: Job)
    ensures job.(maxFiles := 0).ScanLimit() == job.ScanLimit() && job.(maxFiles := 0).Scope() == job.Scope()
  {
  }

  /** A positive file limit yields exactly the first so many entries of the unlimited list. */
  lemma FileLimitIsPrefix(job: Job)
    requires job.maxFiles > 0
    ensures var free := CarveList(job.(maxFiles := 0));
            CarveList(job) == free[..Min(job.maxFiles, |free|)]
  {
    hide LengthOf, Header, Hits;
    LimitOnly(job);
    LimitedGreedy(job, Hits(job.Scope(), 0, |job.Scope()|));
  }
}
