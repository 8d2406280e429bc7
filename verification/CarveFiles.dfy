// Which lengths carved files get, in terms of the bytes of the files: a file with an end mark is carved
// at exactly its length, a bitmap at the size it declares, anything else up to the protective limit.
module CarveFiles {
  import opened Basics
  import opened Sources
  import opened FooterSearch
  import opened Signatures
  import opened CarveSpec
  import opened Carve

  /** The bytes of a text. */
  function Ascii(text: string): (bytes: seq<Byte>)
    ensures |bytes| == |text|
  {
    seq<Byte>(|text|, i requires 0 <= i < |text| => if text[i] < 128 as char then text[i] as int else 0)
  }

  /** The file begins with these bytes. */
  predicate Begins(file: seq<Byte>, head: seq<Byte>) {
    |head| <= |file| && forall i :: 0 <= i < |head| ==> file[i] == head[i]
  }

  predicate MarkAt(file: seq<Byte>, at: nat, mark: seq<Byte>) {
    at + |mark| <= |file| && forall i :: 0 <= i < |mark| ==> file[at + i] == mark[i]
  }

  /** The first end mark stands at the end of the file, with so many bytes behind it. */
  predicate EndsBehind(file: seq<Byte>, mark: seq<Byte>, behind: nat) {
    && |mark| + behind <= |file| && MarkAt(file, |file| - |mark| - behind, mark)
    && forall at: nat :: at < |file| - |mark| - behind ==> !MarkAt(file, at, mark)
  }

  /** How a complete file of a format with an end mark begins and ends. */
  predicate IsComplete(file: seq<Byte>, format: Format) {
    match format
    case Jpeg => Begins(file, [0xFF, 0xD8, 0xFF]) && EndsBehind(file, [0xFF, 0xD9], 0)
    case Png => Begins(file, [0x89] + Ascii("PNG\r\n") + [0x1A, 0x0A]) && EndsBehind(file, Ascii("IEND"), 4)
    case Gif => Begins(file, Ascii("GIF8")) && EndsBehind(file, [0x00, 0x3B], 0)
    case Pdf => Begins(file, Ascii("%PDF-")) && EndsBehind(file, Ascii("%%EOF"), 0)
    case Bmp => Begins(file, Ascii("BM")) && |file| >= 6 && Word(file, 2) == |file|
    case _ => false
  }

  /** The bytes that the scope still offers from `start` on. */
  function Offered(data: seq<Byte>, start: nat, available: nat): seq<Byte> {
    Window(data, start, start + available)
  }

  // ---------------------------------------------------------------- files with an end mark

  lemma MarkFits(data: seq<Byte>, at: nat, mark: seq<Byte>, behind: nat)
    ensures FitsAt(data, at, mark, behind) <==> MarkAt(data, at, mark) && at + |mark| + behind <= |data|
  {
    if at + |mark| <= |data| {
      var there := data[at..at + |mark|];
      assert forall i :: 0 <= i < |mark| ==> there[i] == data[at + i];
    }
  }

  /** The search finds exactly the end of the first complete file. */
  lemma FoundExact(data: seq<Byte>, mark: seq<Byte>, behind: nat, n: nat)
    requires mark != []
    ensures Found(data, mark, behind) == Some(n) <==> n <= |data| && EndsBehind(data[..n], mark, behind)
  {
    hide MarkAt, FitsAt;
    if n <= |data| && EndsBehind(data[..n], mark, behind) {
      var p := n - |mark| - behind;
      MarkInFile(data, n, p, mark);
      MarkFits(data, p, mark, behind);
      forall q: nat | q < p ensures !FitsAt(data, q, mark, behind) {
        MarkFits(data, q, mark, behind);
        MarkInFile(data, n, q, mark);
      }
      FirstFooterIs(data, p, mark, behind);
    }
    if Found(data, mark, behind) == Some(n) {
      var p := FirstFooter(data, 0, mark, behind).value;
      MarkFits(data, p, mark, behind);
      MarkInFile(data, n, p, mark);
      forall q: nat | q < p ensures !MarkAt(data[..n], q, mark) {
        MarkFits(data, q, mark, behind);
        MarkInFile(data, n, q, mark);
      }
    }
  }

  lemma MarkInFile(data: seq<Byte>, n: nat, at: nat, mark: seq<Byte>)
    requires n <= |data| && at + |mark| <= n
    ensures MarkAt(data[..n], at, mark) <==> MarkAt(data, at, mark)
  {
  }

  /** The end mark of each format, and how many bytes follow it. */
  lemma Rules()
    ensures FooterRule(Jpeg) == Some(([0xFF, 0xD9], 0)) && FooterRule(Png) == Some((Ascii("IEND"), 4))
    ensures FooterRule(Gif) == Some(([0x00, 0x3B], 0)) && FooterRule(Pdf) == Some((Ascii("%%EOF"), 0))
    ensures forall format :: FooterRule(format).None? <==> format in {Zip, Bmp, Gzip, Rar}
  {
    assert Ascii("IEND") == [0x49, 0x45, 0x4E, 0x44];
    assert Ascii("%%EOF") == [0x25, 0x25, 0x45, 0x4F, 0x46];
  }

  /** The header of each format. */
  lemma Headers()
    ensures Header(Jpeg) == [0xFF, 0xD8, 0xFF] && Header(Png) == [0x89] + Ascii("PNG\r\n") + [0x1A, 0x0A]
    ensures Header(Gif) == Ascii("GIF8") && Header(Pdf) == Ascii("%PDF-") && Header(Zip) == Ascii("PK") + [3, 4]
    ensures Header(Bmp) == Ascii("BM") && Header(Gzip) == [0x1F, 0x8B, 8] && Header(Rar) == Ascii("Rar!") + [0x1A, 7]
  {
  }

  predicate HasEndMark(format: Format) {
    format == Jpeg || format == Png || format == Gif || format == Pdf
  }

  /** A file with an end mark is measured exactly if it is complete, and then at exactly its length. */
  lemma MeasuredExact(data: seq<Byte>, start: nat, format: Format, available: nat, limit: nat, n: nat)
    requires HasEndMark(format) && available > 0 && Begins(Offered(data, start, available), Header(format))
    ensures LengthOf(data, start, format, available, limit) == CarvedLength(n, FooterFound, true, false) <==>
              n <= |Offered(data, start, available)| && IsComplete(Offered(data, start, available)[..n], format)
    ensures LengthOf(data, start, format, available, limit).definitive ==>
              LengthOf(data, start, format, available, limit).basis == FooterFound
  {
    hide EndsBehind, Found, Window, Begins, Header, FooterRule, Ascii;
    Rules();
    Headers();
    var offered := Offered(data, start, available);
    var (mark, behind) := FooterRule(format).value;
    FoundExact(offered, mark, behind, n);
    if n <= |offered| && EndsBehind(offered[..n], mark, behind) {
      HeaderInFile(offered, format, mark, behind, n);
    }
  }

  /** The first end mark ends behind the header. */
  lemma HeaderInFile(offered: seq<Byte>, format: Format, mark: seq<Byte>, behind: nat, n: nat)
    requires Begins(offered, Header(format)) && n <= |offered| && EndsBehind(offered[..n], mark, behind)
    requires FooterRule(format) == Some((mark, behind))
    ensures Begins(offered[..n], Header(format))
  {
    var h := |Header(format)|;
    assert offered[..h] == Header(format);
    MarkInFile(offered, n, n - |mark| - behind, mark);
    MarkFits(offered, n - |mark| - behind, mark, behind);
    FooterPastHeader(offered, format, n - |mark| - behind);
  }

  // ---------------------------------------------------------------- the other formats

  /** A bitmap is carved at the size it declares, if that lies in the scope; a larger one up to the end of the scope. */
  lemma BitmapLength(data: seq<Byte>, start: nat, available: nat, limit: nat)
    requires |Offered(data, start, available)| >= 6
    ensures var declared, carved := Word(Offered(data, start, available), 2), LengthOf(data, start, Bmp, available, limit);
            && (2 <= declared <= available ==> carved == CarvedLength(declared, DeclaredSize, true, false))
            && (declared > available ==> carved == CarvedLength(available, DeclaredTooLarge, false, false))
            && (declared < 2 ==> !carved.definitive)
  {
    var offered := Offered(data, start, available);
    FieldsAreNumbers(offered, 2);
    hide Le, Word;
  }

  /** The shortest limit for a format without an end rule: its header. */
  function HeaderLength(format: Format): nat {
    match format case Zip => 4 case Gzip => 3 case Rar => 6 case _ => 2
  }

  /** Files without an end rule get the protective limit, or what the scope still has. */
  lemma LimitedLength(data: seq<Byte>, start: nat, format: Format, available: nat, limit: nat)
    requires format == Zip || format == Gzip || format == Rar || (format == Bmp && available < 6)
    requires start + available <= |data| && available > 0
    ensures var n := Min(available, Max(limit, HeaderLength(format)));
            LengthOf(data, start, format, available, limit)
            == CarvedLength(n, if n < available then ProtectiveLimit else NoEndRule, false, n < available)
  {
    assert |Offered(data, start, available)| == available;
  }

  // ---------------------------------------------------------------- a whole job

  /** A complete file stands at `p` of what is to be scanned, with any bytes before and behind it. */
  ghost predicate StandsAt(job: Job, p: nat, file: seq<Byte>, format: Format) {
    && p + |file| <= |job.data| && p + |file| <= job.decodedSize && (job.maxScanBytes > 0 ==> p + |file| <= job.maxScanBytes)
    && job.data[p..p + |file|] == file && IsComplete(file, format)
  }

  /** How a complete file is recorded. */
  function Recorded(p: nat, file: seq<Byte>, format: Format): Entry {
    Entry(p, format, CarvedLength(|file|, if format == Bmp then DeclaredSize else FooterFound, true, false))
  }

  lemma StandsMeans(job: Job, p: nat, file: seq<Byte>, format: Format)
    requires StandsAt(job, p, file, format)
    ensures p + |file| <= |job.Scope()| && job.Scope()[p..p + |file|] == file
    ensures HeaderAt(job.Scope(), p, format) && file != [] && p + |file| <= job.ScanLimit()
    ensures Begins(job.Scope()[p..], Header(format))
    ensures format == Bmp ==> Word(job.Scope()[p..], 2) == |file| >= 6
  {
    hide EndsBehind, Header, Ascii;
    Headers();
    assert job.Scope()[p..p + |file|] == job.data[p..p + |file|];
    var rest, h := job.Scope()[p..], |Header(format)|;
    assert rest[..|file|] == file;
    assert forall i :: 0 <= i < |file| ==> rest[i] == file[i];
    assert rest[..h] == Header(format) == job.Scope()[p..p + h];
  }

  /** Such a file is measured at exactly its length. */
  lemma CompleteIsMeasured(job: Job, p: nat, file: seq<Byte>, format: Format)
    requires StandsAt(job, p, file, format)
    ensures HeaderAt(job.Scope(), p, format)
    ensures LengthOf(job.data, p, format, SatSub(job.ScanLimit(), p), job.unknownLengthLimit) == Recorded(p, file, format).carved
  {
    hide EndsBehind, Header, Ascii, LengthOf;
    Headers();
    StandsMeans(job, p, file, format);
    var available := SatSub(job.ScanLimit(), p);
    var offered := Offered(job.data, p, available);
    assert offered == job.Scope()[p..];
    assert offered[..|file|] == file;
    if format == Bmp {
      BitmapLength(job.data, p, available, job.unknownLengthLimit);
    } else {
      MeasuredExact(job.data, p, format, available, job.unknownLengthLimit, |file|);
    }
  }

  /** Every entry stands at a header of its format, with the measured length. */
  lemma {:induction false} GreedyMeasured(job: Job, hits: seq<Match>, e: Entry)
    requires forall h <- hits :: HeaderAt(job.Scope(), h.start, h.format)
    requires e in Greedy(job, START, hits).entries
    ensures HeaderAt(job.Scope(), e.offset, e.format)
    ensures e.carved == LengthOf(job.data, e.offset, e.format, SatSub(job.ScanLimit(), e.offset), job.unknownLengthLimit)
  {
    hide LengthOf, HeaderAt, Header;
    if hits != [] {
      var init, last := hits[..|hits| - 1], hits[|hits| - 1];
      assert hits == init + [last];
      if e in Greedy(job, START, init).entries {
        GreedyMeasured(job, init, e);
      }
    }
  }

  lemma EntryMeasured(job: Job, e: Entry)
    requires e in CarveList(job)
    ensures HeaderAt(job.Scope(), e.offset, e.format)
    ensures e.carved == LengthOf(job.data, e.offset, e.format, SatSub(job.ScanLimit(), e.offset), job.unknownLengthLimit)
  {
    hide LengthOf, HeaderAt, Greedy;
    var scope := job.Scope();
    forall h <- Hits(scope, 0, |scope|) ensures HeaderAt(scope, h.start, h.format) {
      HitsMean(scope, 0, |scope|, h);
    }
    GreedyMeasured(job, Hits(scope, 0, |scope|), e);
  }

  /** It is recorded so, or it lies inside what an earlier entry covers. */
  ghost predicate IsRecorded(entries: seq<Entry>, p: nat, file: seq<Byte>, format: Format) {
    Recorded(p, file, format) in entries || exists e <- entries :: e.offset < p < e.offset + Span(e)
  }

  /** Without a file limit every complete file of the scope is recorded at exactly its length, or covered. */
  lemma FileIsRecorded(job: Job, p: nat, file: seq<Byte>, format: Format)
    requires job.maxFiles == 0 && StandsAt(job, p, file, format)
    ensures IsRecorded(CarveList(job), p, file, format)
  {
    hide StandsAt, LengthOf, HeaderAt, CarveList;
    CompleteIsMeasured(job, p, file, format);
    EveryHeaderAccounted(job, p, format);
    var e :| e in CarveList(job) && ((e.offset == p && e.format == format) || e.offset <= p < e.offset + Span(e));
    EntryMeasured(job, e);
    if e.offset == p {
      OneHeaderPerStart(job.Scope(), p, e.format, format);
    }
  }

  /** Every run of a job without a file limit records all complete files of its scope so. */
  method RunRecords(carver: Carver) returns (ok: bool)
    requires carver.Valid() && carver.entries == [] && carver.minNextOffset == 0 && carver.bytesScanned == 0 && !carver.truncated
    requires carver.job.maxFiles == 0 && |carver.job.data| >= carver.job.ScanLimit()
    modifies carver, carver.source
    ensures Smooth(old(carver.source.plan)) ==> ok
    ensures ok ==> forall p, file, format :: StandsAt(carver.job, p, file, format) ==> IsRecorded(carver.entries, p, file, format)
  {
    hide StandsAt, IsRecorded, CarveList, Smooth;
    ok := carver.Run();
    forall p, file, format | StandsAt(carver.job, p, file, format) ensures IsRecorded(CarveList(carver.job), p, file, format) {
      FileIsRecorded(carver.job, p, file, format);
    }
  }
}
