// The carver: chunked reads with a carried overlap, length measurement on the same reader, and
// the scan loop, proved against the greedy pass over the whole scope.
module Carve {
  import opened Basics
  import opened Sources
  import opened FooterSearch
  import opened Signatures
  import opened CarveSpec

  const CARVE_CHUNK_BYTES: nat := 8 * 1024 * 1024
  const OVERLAP: nat := MAX_HEADER

  /** Reads on until `wanted` bytes have come or the source ends; only the bytes are kept. */
  method ReadUpTo(source: Source, start: nat, wanted: nat, chunk: nat) returns (bytes: Option<seq<Byte>>)
    requires chunk > 0
    modifies source
    ensures Smooth(old(source.plan)) ==> bytes.Some? && Smooth(source.plan)
    ensures bytes.Some? ==> bytes.value == Window(source.data, start, start + wanted)
  {
    hide Window, Smooth;
    WindowEmpty(source.data, start);
    source.Seek(start);
    var buffer := new Byte[chunk];
    var got: seq<Byte> := [];
    while |got| < wanted
      invariant |got| <= wanted && source.pos == start + |got|
      invariant got == Window(source.data, start, start + |got|)
      invariant Smooth(old(source.plan)) ==> Smooth(source.plan)
      decreases wanted - |got|
    {
      var more := ReadMore(source, buffer, Min(wanted - |got|, chunk), start, |got|);
      if more.None? {
        return None;
      }
      if more.value == [] {
        break;
      }
      got := got + more.value;
    }
    WindowAtEnd(source.data, start, |got|, wanted);
    bytes := Some(got);
  }

  /**
   * The length of one carved file, measured by streaming. For every short-read schedule the
   * answer is the one that the bytes of the scope determine.
   */
  method CarveLength(source: Source, start: nat, format: Format, available: nat, unknownLimit: nat)
    returns (r: Option<CarvedLength>)
    modifies source
    ensures Smooth(old(source.plan)) ==> r.Some? && Smooth(source.plan)
    ensures r.Some? ==> r.value == LengthOf(source.data, start, format, available, unknownLimit)
  {
    hide Window, Smooth, Found, Header;
    if available == 0 {
      return Some(CarvedLength(0, NoData, false, false));
    }
    ghost var delivered := Window(source.data, start, start + available);
    var rule := FooterRule(format);
    if rule.Some? {
      var (footer, trailing) := rule.value;
      var search := StreamFooterSearch(source, start, available, footer, trailing);
      if search.None? {
        return None;
      }
      return Some(match search.value.length
        case Some(length) => CarvedLength(length, FooterFound, true, false)
        case None => CarvedLength(search.value.bytesRead, FooterMissing, false, false));
    }
    if format == Bmp {
      var header := ReadUpTo(source, start, Min(available, 6), 6);
      if header.None? {
        return None;
      }
      WindowShorter(source.data, start, Min(available, 6), available);
      if |header.value| >= 6 {
        var declared := Le(header.value, 2, 4);
        LeOfPrefix(header.value, delivered, 2, 4);
        if declared >= |Header(format)| {
          return Some(if declared <= available then CarvedLength(declared, DeclaredSize, true, false)
                      else CarvedLength(available, DeclaredTooLarge, false, false));
        }
      }
    }
    var readLimit := Min(available, Max(unknownLimit, |Header(format)|));
    var bytes := ReadUpTo(source, start, readLimit, CARVE_LENGTH_CHUNK_BYTES);
    if bytes.None? {
      return None;
    }
    WindowShorter(source.data, start, readLimit, available);
    var hit := |bytes.value| == readLimit && readLimit < available;
    r := Some(CarvedLength(|bytes.value|, if hit then ProtectiveLimit else NoEndRule, false, hit));
  }

  lemma WindowShorter(data: seq<Byte>, start: nat, short: nat, long: nat)
    requires short <= long
    ensures Window(data, start, start + short) <= Window(data, start, start + long)
    ensures |Window(data, start, start + short)| == Min(short, |Window(data, start, start + long)|)
  {
  }

  lemma {:induction false} LeOfPrefix(a: seq<Byte>, b: seq<Byte>, at: nat, width: nat)
    requires a <= b && at + width <= |a|
    ensures Le(a, at, width) == Le(b, at, width)
    decreases width
  {
    if width > 0 {
      LeOfPrefix(a, b, at + 1, width - 1);
    }
  }

  datatype Step = More | ReadFailed | Ended | Limited

  class Carver {
    const job: Job
    const source: Source
    var entries: seq<Entry>
    var minNextOffset: nat
    var bytesScanned: nat
    var protectiveHits: nat
    var truncated: bool

    constructor (job: Job, source: Source)
      requires source.data == job.data
      ensures this.job == job && this.source == source && entries == [] && minNextOffset == 0
      ensures bytesScanned == 0 && protectiveHits == 0 && !truncated
    {
      this.job, this.source := job, source;
      entries, minNextOffset, bytesScanned, protectiveHits, truncated := [], 0, 0, 0, false;
    }

    predicate LimitReached()
      reads this`entries
    {
      job.maxFiles != 0 && |entries| >= job.maxFiles
    }

    /** The fields as a state of the greedy pass. */
    ghost function State(): Scan
      reads this`entries, this`minNextOffset
    {
      Scan(entries, minNextOffset, LimitReached())
    }

    ghost predicate Valid()
      reads this`entries, this`protectiveHits
    {
      source.data == job.data && (protectiveHits == 0 <==> forall e <- entries :: !e.carved.protectiveLimitHit)
    }

    /** One header match: carve it unless it lies inside an earlier entry. */
    method TryCarve(hit: Match) returns (ok: bool)
      requires Valid() && !LimitReached() && hit.start <= U64_MAX
      modifies source, this`entries, this`minNextOffset, this`protectiveHits
      ensures Valid() && (Smooth(old(source.plan)) ==> ok && Smooth(source.plan))
      ensures ok ==> State() == Consider(job, old(State()), hit)
      ensures !ok ==> State() == old(State())
    {
      hide LengthOf, Header, Smooth;
      if hit.start < minNextOffset {
        return true;
      }
      var available := SatSub(job.ScanLimit(), hit.start);
      var carved := CarveLength(source, hit.start, hit.format, available, job.unknownLengthLimit);
      if carved.None? {
        return false;
      }
      if carved.value.length < |Header(hit.format)| {
        return true;
      }
      var span := if carved.value.definitive then carved.value.length else |Header(hit.format)|;
      minNextOffset := Min(hit.start + span, U64_MAX);
      if carved.value.protectiveLimitHit {
        protectiveHits := protectiveHits + 1;
      }
      entries := entries + [Entry(hit.start, hit.format, carved.value)];
      ok := true;
    }

    /**
     * The matches of one window that start in its searchable part, in the order the matcher
     * reports them; the file limit ends the scan.
     */
    method ScanWindow(window: seq<Byte>, base: nat, searchable: nat, ghost scope: seq<Byte>) returns (ok: bool)
      requires Valid() && !LimitReached() && |scope| <= U64_MAX
      requires base + |window| <= |scope| && window == scope[base..base + |window|] && searchable <= |window|
      requires searchable + MAX_HEADER <= |window| || base + |window| == |scope| || searchable == 0
      modifies source, this`entries, this`minNextOffset, this`protectiveHits
      ensures Valid() && (Smooth(old(source.plan)) ==> ok && Smooth(source.plan))
      ensures ok && !LimitReached() ==> State() == Greedy(job, old(State()), Hits(scope, base, base + searchable))
      ensures entries <= Greedy(job, old(State()), Hits(scope, base, base + searchable)).entries
      ensures ok && LimitReached() ==> entries == Greedy(job, old(State()), Hits(scope, base, base + searchable)).entries
    {
      hide LengthOf, Header, Smooth, FindOverlapping, Hits, Consider, HeaderAt, Valid, Greedy, Shifted, Ascending;
      var matches := FindOverlapping(window, |window|);
      ghost var t, st := Taken(matches, searchable), State();
      WindowHits(scope, base, |window|, searchable, t);
      ghost var hits := Shifted(matches[..t], base);
      GreedyNone(job, st, base);
      var i := 0;
      while i < |matches| && matches[i].start < searchable
        invariant i <= t && Valid() && !LimitReached()
        invariant State() == Greedy(job, st, Shifted(matches[..i], base))
        invariant Smooth(old(source.plan)) ==> Smooth(source.plan)
      {
        var hit := Match(base + matches[i].start, matches[i].format);
        ok := TryCarve(hit);
        TakeOne(job, st, matches, i, base);
        GreedyPrefix(job, st, matches, i, t, base);
        GreedyPrefix(job, st, matches, i + 1, t, base);
        if !ok || LimitReached() {
          return;
        }
        i := i + 1;
      }
      ok := true;
    }

    /** One chunk at `cursor`: `None` if the read fails, empty if the source has ended. */
    method ReadChunk(buffer: array<Byte>, cursor: nat) returns (bytes: Option<seq<Byte>>)
      requires cursor < job.ScanLimit() && cursor <= |job.Scope()| && source.data == job.data
      requires buffer.Length == CARVE_CHUNK_BYTES
      modifies source, buffer
      ensures Smooth(old(source.plan)) ==> bytes.Some? && Smooth(source.plan)
      ensures bytes.Some? ==> cursor + |bytes.value| <= |job.Scope()| && bytes.value == job.Scope()[cursor..cursor + |bytes.value|]
      ensures bytes.Some? && bytes.value == [] ==> cursor == |job.Scope()| < job.ScanLimit()
    {
      hide Smooth;
      source.Seek(cursor);
      var want := Min(job.ScanLimit() - cursor, CARVE_CHUNK_BYTES);
      var read := source.Read(buffer, 0, want);
      if !read.Count? {
        return None;
      }
      bytes := Some(buffer[..read.n]);
      if read.n > 0 {
        assert bytes.value == source.data[cursor..cursor + read.n] == job.Scope()[cursor..cursor + read.n];
      }
    }

    /** The pass has considered every hit before `searched`. */
    ghost predicate Considered(searched: nat)
      reads this`entries, this`minNextOffset
    {
      !LimitReached() && State() == Greedy(job, START, Hits(job.Scope(), 0, searched))
    }

    /** One round of the scan loop: read, search the carried window, carry the next overlap. */
    method NextChunk(buffer: array<Byte>, carry: seq<Byte>, base: nat, cursor: nat)
      returns (step: Step, newCarry: seq<Byte>, newBase: nat)
      requires Valid() && Considered(base) && buffer.Length == CARVE_CHUNK_BYTES && bytesScanned == cursor
      requires base + |carry| == cursor <= |job.Scope()| && cursor < job.ScanLimit() && carry == job.Scope()[base..cursor]
      modifies source, buffer, this`entries, this`minNextOffset, this`protectiveHits, this`bytesScanned
      ensures Valid() && (Smooth(old(source.plan)) ==> step != ReadFailed && Smooth(source.plan))
      ensures step.More? ==>
                && cursor < bytesScanned == newBase + |newCarry| <= |job.Scope()|
                && newCarry == job.Scope()[newBase..bytesScanned]
                && Considered(if bytesScanned == job.ScanLimit() then bytesScanned else newBase)
      ensures !step.More? ==> newBase == base
      ensures step.Ended? ==> |job.data| < job.ScanLimit() && bytesScanned == cursor && Considered(base)
      ensures step.Limited? ==> entries == CarveList(job) && bytesScanned <= job.ScanLimit() && LimitReached()
    {
      hide LengthOf, Header, Smooth, Hits, HeaderAt, Consider, Greedy, CarveList, Valid, Searchable, NextBase;
      ghost var scope := job.Scope();
      var limit := job.ScanLimit();
      assert |scope| == Min(limit, |job.data|) && limit <= U64_MAX;
      newCarry, newBase := carry, base;
      SourceIsData();
      var bytes := ReadChunk(buffer, cursor);
      if bytes.None? {
        return ReadFailed, carry, base;
      }
      if bytes.value == [] {
        return Ended, carry, base;
      }
      bytesScanned := cursor + |bytes.value|;
      var window := carry + bytes.value;
      JoinCarry(scope, base, cursor, bytes.value);
      var searchable := Searchable(base, bytesScanned, limit);
      HitsInTwo(job, base, base + searchable);
      PartOfList(job, base + searchable);
      var ok := ScanWindow(window, base, searchable, scope);
      if !ok {
        return ReadFailed, carry, base;
      }
      if LimitReached() {
        return Limited, carry, base;
      }
      newCarry, newBase := KeepOverlap(window, base, scope);
      step := More;
    }

    /** The scan loop; the overlap of each window is carried into the next one. */
    method ScanAll() returns (ok: bool)
      requires Valid() && entries == [] && minNextOffset == 0 && bytesScanned == 0 && !truncated
      modifies this, source
      ensures Valid() && (Smooth(old(source.plan)) ==> ok)
      ensures ok ==> entries <= CarveList(job) && bytesScanned <= job.ScanLimit()
      ensures ok && |job.data| >= job.ScanLimit() ==> entries == CarveList(job)
      ensures ok && !truncated ==> bytesScanned == job.ScanLimit()
      ensures ok ==> (truncated <==> |job.data| < job.ScanLimit() || LimitReached())
    {
      hide Smooth, Hits, Greedy, CarveList, Valid;
      var limit := job.ScanLimit();
      var buffer := new Byte[CARVE_CHUNK_BYTES];
      var carry: seq<Byte> := [];
      var base: nat, cursor: nat := 0, 0;
      NoHits(job);
      while cursor < limit
        invariant Valid() && !truncated && bytesScanned == cursor
        invariant base + |carry| == cursor <= |job.Scope()| && carry == job.Scope()[base..cursor]
        invariant Considered(if cursor == limit then limit else base)
        invariant Smooth(old(source.plan)) ==> Smooth(source.plan)
      {
        var step;
        step, carry, base := NextChunk(buffer, carry, base, cursor);
        match step {
          case ReadFailed => return false;
          case Limited =>
            truncated := true;
            return true;
          case Ended =>
            truncated := true;
            break;
          case More => cursor := bytesScanned;
        }
      }
      PartOfList(job, if cursor == limit then limit else base);
      ok := true;
    }

    lemma SourceIsData()
      requires Valid()
      ensures source.data == job.data
    {
    }

    /**
     * The whole job. For every chunking and short-read schedule that delivers the scope the
     * result is the greedy pass over the scope. A job is marked truncated exactly if its source was
     * short, a limit was reached or part of the image was out of scope; otherwise it is complete.
     */
    method Run() returns (ok: bool)
      requires Valid() && entries == [] && minNextOffset == 0 && bytesScanned == 0 && !truncated
      modifies this, source
      ensures Smooth(old(source.plan)) ==> ok
      ensures ok ==> entries <= CarveList(job) && bytesScanned <= job.ScanLimit()
      ensures ok && |job.data| >= job.ScanLimit() ==> entries == CarveList(job)
      ensures ok ==>
                (truncated <==>
                   || |job.data| < job.ScanLimit() || LimitReached() || job.ScanLimit() < job.decodedSize
                   || exists e <- entries :: e.carved.protectiveLimitHit)
      ensures ok && !truncated ==>
                && job.ScanLimit() == job.decodedSize == bytesScanned <= |job.data|
                && entries == CarveList(job) == CarveList(job.(maxFiles := 0))
                && forall e <- entries :: !e.carved.protectiveLimitHit
    {
      hide CarveList, Smooth;
      ok := ScanAll();
      if ok && |entries| == |CarveList(job)| && !LimitReached() {
        LimitNotReached(job);
      }
      if ok && job.ScanLimit() < job.decodedSize {
        truncated := true;
      }
      if ok && protectiveHits > 0 {
        truncated := true;
      }
    }
  }

  lemma JoinCarry(scope: seq<Byte>, base: nat, cursor: nat, bytes: seq<Byte>)
    requires base <= cursor && cursor + |bytes| <= |scope| && bytes == scope[cursor..cursor + |bytes|]
    ensures scope[base..cursor] + bytes == scope[base..cursor + |bytes|]
  {
  }

  /** Where the next window starts: the last overlap's worth of this one is carried over. */
  function NextBase(base: nat, end: nat): (next: nat)
    requires base <= end
    ensures next <= end
  {
    end - Min(end - base, OVERLAP)
  }

  method KeepOverlap(window: seq<Byte>, base: nat, ghost scope: seq<Byte>) returns (carry: seq<Byte>, newBase: nat)
    requires base + |window| <= |scope| && window == scope[base..base + |window|]
    ensures newBase == NextBase(base, base + |window|)
    ensures newBase + |carry| == base + |window| && carry == scope[newBase..base + |window|]
  {
    var keep := Min(|window|, OVERLAP);
    carry := window[|window| - keep..];
    newBase := base + (|window| - keep);
  }

  /** How much of a window is searched now: all of it only at the end of the scope. */
  function Searchable(base: nat, end: nat, limit: nat): (n: nat)
    requires base <= end
    ensures base + n <= end && (n + OVERLAP <= end - base || end >= limit || n == 0)
    ensures base + n == if end >= limit then end else NextBase(base, end)
  {
    if end >= limit then end - base else SatSub(end - base, OVERLAP)
  }

  lemma NoHits(job: Job)
    ensures Greedy(job, START, Hits(job.Scope(), 0, 0)) == START
  {
  }

  lemma HitsInTwo(job: Job, lo: nat, hi: nat)
    requires lo <= hi <= |job.Scope()|
    ensures Greedy(job, Greedy(job, START, Hits(job.Scope(), 0, lo)), Hits(job.Scope(), lo, hi))
         == Greedy(job, START, Hits(job.Scope(), 0, hi))
  {
    hide Greedy, Hits;
    HitsConcat(job.Scope(), 0, lo, hi);
    GreedyConcat(job, START, Hits(job.Scope(), 0, lo), Hits(job.Scope(), lo, hi));
  }

  /** What a part of the scope yields begins the list; once the file limit is hit it is all of it. */
  lemma PartOfList(job: Job, hi: nat)
    requires hi <= |job.Scope()|
    ensures var part := Greedy(job, START, Hits(job.Scope(), 0, hi)).entries;
            && part <= CarveList(job)
            && (hi == |job.Scope()| || (job.maxFiles != 0 && |part| >= job.maxFiles) ==> part == CarveList(job))
  {
    hide Greedy, Hits;
    HitsInTwo(job, hi, |job.Scope()|);
    GreedyGrows(job, Greedy(job, START, Hits(job.Scope(), 0, hi)), Hits(job.Scope(), hi, |job.Scope()|));
    if job.maxFiles > 0 {
      LimitedGreedy(job, Hits(job.Scope(), 0, hi));
    }
  }

  /** If the limit is not reached the limited list is the unlimited one. */
  lemma LimitNotReached(job: Job)
    requires job.maxFiles == 0 || |CarveList(job)| < job.maxFiles
    ensures CarveList(job) == CarveList(job.(maxFiles := 0))
  {
    hide Greedy, Hits;
    if job.maxFiles > 0 {
      FileLimitIsPrefix(job);
    }
  }

  /** How many matches start before `searchable`, up to the first that does not. */
  function Taken(matches: seq<Match>, searchable: nat): (t: nat)
    ensures t <= |matches|
    ensures forall k :: 0 <= k < t ==> matches[k].start < searchable
    ensures t < |matches| ==> matches[t].start >= searchable
  {
    if matches == [] || matches[0].start >= searchable then 0 else 1 + Taken(matches[1..], searchable)
  }

  lemma GreedyPrefix(job: Job, st: Scan, matches: seq<Match>, i: nat, t: nat, base: nat)
    requires i <= t <= |matches|
    ensures var some, all := Greedy(job, st, Shifted(matches[..i], base)), Greedy(job, st, Shifted(matches[..t], base));
            some.entries <= all.entries && (some.stopped ==> all == some)
  {
    hide Greedy;
    var a, b := Shifted(matches[..i], base), Shifted(matches[..t], base);
    assert b == a + b[i..];
    GreedyConcat(job, st, a, b[i..]);
    GreedyGrows(job, Greedy(job, st, a), b[i..]);
  }

  lemma GreedyNone(job: Job, st: Scan, base: nat)
    ensures Greedy(job, st, Shifted([], base)) == st && Greedy(job, st, []) == st
  {
  }

  lemma TakeOne(job: Job, st: Scan, matches: seq<Match>, i: nat, base: nat)
    requires i < |matches|
    ensures var hit := Match(base + matches[i].start, matches[i].format);
            Greedy(job, st, Shifted(matches[..i + 1], base)) == Consider(job, Greedy(job, st, Shifted(matches[..i], base)), hit)
  {
    hide Consider;
    var longer := Shifted(matches[..i + 1], base);
    assert longer[..|longer| - 1] == Shifted(matches[..i], base);
  }
}
