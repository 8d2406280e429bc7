// Streaming ZIP members: text is handed out in segments with one segment of lookahead, so the final
// mark is given only after the reader has reported the end.
module Zip {
  import opened Basics
  import opened Sources

  const TEXT_SEGMENT_BYTES: nat := 64 * 1024

  datatype Metadata = Metadata(archiveIndex: nat, name: string, isDirectory: bool, isTextual: bool, uncompressedSize: U64)

  datatype Segment = Segment(index: nat, byteOffset: nat, bytes: seq<Byte>, isFinal: bool)

  datatype ZipEvent = MemberFound(member: Metadata) | TextSegment(member: Metadata, segment: Segment)

  datatype ZipError = ArchiveIo | EncryptedMember | UnsupportedMember | MemberIo | CorruptMember | CounterOverflow | Callback

  /** The kinds of input errors that are told apart when a read of a member fails. */
  datatype IoKind = InvalidData | UnexpectedEof | Unsupported | OtherKind

  type ZipResult<+T> = Result<T, ZipError>

  datatype Summary = Summary(members: nat, directories: nat, files: nat, textMembers: nat, textSegments: nat,
                             uncompressedBytes: nat, textBytes: nat)

  /** The caller's fallible callback: it keeps the events and may refuse any of them. */
  class Consumer {
    const refuses: seq<ZipEvent> -> bool
    var events: seq<ZipEvent>

    constructor (refuses: seq<ZipEvent> -> bool)
      ensures events == [] && this.refuses == refuses
    {
      this.refuses := refuses;
      events := [];
    }

    method OnEvent(event: ZipEvent) returns (ok: bool)
      modifies this`events
      ensures events == old(events) + [event] && ok == !refuses(events)
    {
      events := events + [event];
      ok := !refuses(events);
    }
  }

  // ---------------------------------------------------------------- segments

  function Content(segments: seq<Segment>): seq<Byte> {
    if segments == [] then [] else Content(segments[..|segments| - 1]) + segments[|segments| - 1].bytes
  }

  /** Indices and offsets are consecutive, and every segment has between 1 byte and 64 KiB. */
  predicate Consecutive(segments: seq<Segment>) {
    forall i :: 0 <= i < |segments| ==>
      && segments[i].index == i && segments[i].byteOffset == |Content(segments[..i])|
      && 0 < |segments[i].bytes| <= 65_536
  }

  predicate NoneFinal(segments: seq<Segment>) {
    forall s <- segments :: !s.isFinal
  }

  /** All of a member: its bytes, and exactly one final segment, the last, unless it is empty. */
  predicate Complete(segments: seq<Segment>, data: seq<Byte>) {
    && Consecutive(segments) && Content(segments) == data
    && (segments != [] ==> segments[|segments| - 1].isFinal && NoneFinal(segments[..|segments| - 1]))
  }

  function EventsOf(member: Metadata, segments: seq<Segment>): seq<ZipEvent> {
    if segments == [] then []
    else EventsOf(member, segments[..|segments| - 1]) + [TextSegment(member, segments[|segments| - 1])]
  }

  lemma SegmentAppended(segments: seq<Segment>, segment: Segment, member: Metadata)
    requires Consecutive(segments) && segment.index == |segments| && segment.byteOffset == |Content(segments)|
    requires 0 < |segment.bytes| <= TEXT_SEGMENT_BYTES
    ensures var more := segments + [segment];
            && Consecutive(more) && Content(more) == Content(segments) + segment.bytes
            && EventsOf(member, more) == EventsOf(member, segments) + [TextSegment(member, segment)]
            && more[..|more| - 1] == segments
  {
    var more := segments + [segment];
    assert more[..|segments|] == segments;
    forall i | 0 <= i < |more|
      ensures more[i].index == i && more[i].byteOffset == |Content(more[..i])| && 0 < |more[i].bytes| <= TEXT_SEGMENT_BYTES
    {
      if i < |segments| {
        assert more[..i] == segments[..i];
      }
    }
  }

  lemma NoSegments(member: Metadata)
    ensures Content([]) == [] && Consecutive([]) && EventsOf(member, []) == [] && NoneFinal([]) && Complete([], [])
  {
  }

  lemma {:induction false} ContentFits(segments: seq<Segment>)
    requires Consecutive(segments)
    ensures |segments| <= |Content(segments)|
  {
    if segments != [] {
      var init := segments[..|segments| - 1];
      assert forall i :: 0 <= i < |init| ==> init[..i] == segments[..i];
      ContentFits(init);
    }
  }

  /**
   * What has been handed out, and the bytes read ahead of it: they follow it in the data, and there
   * are none only at the end, when everything has been handed out.
   */
  ghost predicate Streaming(segments: seq<Segment>, data: seq<Byte>, ahead: seq<Byte>) {
    var offset, read := |Content(segments)|, |Content(segments)| + |ahead|;
    && Consecutive(segments) && |segments| <= offset && |ahead| <= TEXT_SEGMENT_BYTES && read <= |data|
    && Content(segments) == data[..offset] && ahead == data[offset..read]
    && if ahead == [] then Complete(segments, data) && read == |data| else NoneFinal(segments)
  }

  lemma StreamingStart(data: seq<Byte>, ahead: seq<Byte>)
    requires |ahead| <= TEXT_SEGMENT_BYTES && |ahead| <= |data| && ahead == data[..|ahead|] && (ahead == [] ==> data == [])
    ensures Streaming([], data, ahead)
  {
  }

  /** Handing out what was read ahead, as the final segment if nothing follows it. */
  lemma StreamingStep(segments: seq<Segment>, data: seq<Byte>, ahead: seq<Byte>, following: seq<Byte>, member: Metadata)
    returns (segment: Segment)
    requires Streaming(segments, data, ahead) && ahead != [] && |following| <= TEXT_SEGMENT_BYTES
    requires var read := |Content(segments)| + |ahead|;
             && read + |following| <= |data| && following == data[read..read + |following|]
             && (following == [] <==> read == |data|)
    ensures segment == Segment(|segments|, |Content(segments)|, ahead, following == [])
    ensures var more := segments + [segment];
            && Streaming(more, data, following)
            && |Content(more)| == |Content(segments)| + |ahead|
            && EventsOf(member, more) == EventsOf(member, segments) + [TextSegment(member, segment)]
  {
    hide Content, EventsOf, Consecutive;
    segment := Segment(|segments|, |Content(segments)|, ahead, following == []);
    var offset := |Content(segments)|;
    var end, more := offset + |ahead|, segments + [segment];
    SegmentAppended(segments, segment, member);
    ContentFits(more);
    assert data[..offset] + data[offset..end] == data[..end];
    assert end == |data| ==> data[..end] == data;
    assert more[|segments|] == segment;
  }

  /** What the result of a stopped stream says about its segments. */
  lemma StreamingMeans(segments: seq<Segment>, data: seq<Byte>, ahead: seq<Byte>)
    requires Streaming(segments, data, ahead)
    ensures Consecutive(segments) && Content(segments) <= data && |segments| <= |Content(segments)| <= |data|
    ensures if ahead == [] then Complete(segments, data) else NoneFinal(segments)
    ensures ahead == [] ==> |Content(segments)| == |data|
  {
  }

  // ---------------------------------------------------------------- one member

  function Classified(kind: IoKind): ZipError {
    match kind
    case InvalidData => CorruptMember
    case UnexpectedEof => CorruptMember
    case Unsupported => UnsupportedMember
    case OtherKind => MemberIo
  }

  predicate IsReadError(error: ZipError) {
    error == MemberIo || error == CorruptMember || error == UnsupportedMember
  }

  /**
   * One read of a member. An interrupted read is an error like any other; `faults` tells the kind
   * of a failure at each position, a failed check at the end of the member included.
   */
  method ReadMemberChunk(member: Source, buffer: array<Byte>, faults: nat -> IoKind) returns (r: ZipResult<nat>)
    requires buffer.Length == TEXT_SEGMENT_BYTES
    modifies member`pos, member`plan, buffer
    ensures Smooth(old(member.plan)) ==> r.Ok? && Smooth(member.plan)
    ensures r.Err? ==> r.error in {MemberIo, Classified(faults(member.pos))} && IsReadError(r.error) && member.pos == old(member.pos)
    ensures r == Err(CorruptMember) ==> faults(member.pos) == InvalidData || faults(member.pos) == UnexpectedEof
    ensures r == Err(UnsupportedMember) ==> faults(member.pos) == Unsupported
    ensures r.Err? && Interrupt !in old(member.plan) ==>
              (r == Err(MemberIo) <==> faults(member.pos) == OtherKind)
    ensures r.Ok? ==>
              && r.value <= TEXT_SEGMENT_BYTES && member.pos == old(member.pos) + r.value
              && (r.value == 0 <==> old(member.pos) >= |member.data|)
              && (r.value > 0 ==> member.pos <= |member.data| && buffer[..r.value] == member.data[old(member.pos)..member.pos])
  {
    var read := member.Read(buffer, 0, buffer.Length);
    match read
    case Count(n) =>
      assert buffer[0..n] == buffer[..n];
      r := Ok(n);
    case Interrupted => r := Err(MemberIo);
    case Failed => r := Err(Classified(faults(member.pos)));
  }

  function Counted(summary: Summary, segments: nat, bytes: nat): Summary {
    summary.(textSegments := summary.textSegments + segments, textBytes := summary.textBytes + bytes)
  }

  /** Publishes one segment and counts it. */
  method HandOut(consumer: Consumer, metadata: Metadata, segment: Segment, summary: Summary) returns (r: ZipResult<Summary>)
    modifies consumer`events
    ensures consumer.events == old(consumer.events) + [TextSegment(metadata, segment)]
    ensures consumer.refuses(consumer.events) ==> r == Err(Callback)
    ensures !consumer.refuses(consumer.events) ==>
              r == if summary.textSegments < U64_MAX then Ok(Counted(summary, 1, |segment.bytes|)) else Err(CounterOverflow)
  {
    var ok := consumer.OnEvent(TextSegment(metadata, segment));
    if !ok {
      return Err(Callback);
    }
    if summary.textSegments + 1 > U64_MAX {
      return Err(CounterOverflow);
    }
    r := Ok(Counted(summary, 1, |segment.bytes|));
  }

  /** One segment more was handed out. */
  ghost predicate HandedOut(before: seq<ZipEvent>, after: seq<ZipEvent>, metadata: Metadata, segments: seq<Segment>, more: seq<Segment>) {
    exists segment ::
      && after == before + [TextSegment(metadata, segment)]
      && EventsOf(metadata, more) == EventsOf(metadata, segments) + [TextSegment(metadata, segment)]
  }

  lemma HandedOutIs(before: seq<ZipEvent>, metadata: Metadata, segments: seq<Segment>, more: seq<Segment>, segment: Segment)
    requires EventsOf(metadata, more) == EventsOf(metadata, segments) + [TextSegment(metadata, segment)]
    ensures HandedOut(before, before + [TextSegment(metadata, segment)], metadata, segments, more)
  {
  }

  lemma HandedOutMeans(start: seq<ZipEvent>, before: seq<ZipEvent>, after: seq<ZipEvent>, metadata: Metadata,
                       segments: seq<Segment>, more: seq<Segment>)
    requires HandedOut(before, after, metadata, segments, more) && before == start + EventsOf(metadata, segments)
    ensures after == start + EventsOf(metadata, more)
  {
  }

  /** One round: reads ahead, then hands out what was read before, final if nothing follows. */
  method StreamStep(member: Source, next: array<Byte>, current: seq<Byte>, bytesRead: nat, byteOffset: nat, segmentIndex: nat,
                    metadata: Metadata, faults: nat -> IoKind, consumer: Consumer, summary: Summary, ghost segments: seq<Segment>)
    returns (r: ZipResult<nat>, newRead: nat, newSummary: Summary, ghost more: seq<Segment>)
    requires next.Length == TEXT_SEGMENT_BYTES && current != []
    requires Streaming(segments, member.data, current) && segmentIndex == |segments| && byteOffset == |Content(segments)|
    requires bytesRead == member.pos == byteOffset + |current| <= |member.data|
    modifies member`pos, member`plan, consumer`events, next
    ensures Smooth(old(member.plan)) ==> Smooth(member.plan)
    ensures r.Ok? ==>
              && r.value <= TEXT_SEGMENT_BYTES && more == segments + [Segment(segmentIndex, byteOffset, current, r.value == 0)]
              && Streaming(more, member.data, next[..r.value]) && |Content(more)| == bytesRead
              && newRead == member.pos == bytesRead + r.value <= |member.data|
              && newSummary == Counted(summary, 1, |current|)
              && HandedOut(old(consumer.events), consumer.events, metadata, segments, more)
    ensures r.Err? ==>
              && ((consumer.events == old(consumer.events) && more == segments)
                  || HandedOut(old(consumer.events), consumer.events, metadata, segments, more))
              && Consecutive(more) && Content(more) <= member.data
              && (IsReadError(r.error) ==> NoneFinal(more))
              && (NoneFinal(more) || Complete(more, member.data))
              && (r.error == Callback ==> consumer.refuses(consumer.events))
              && (Smooth(old(member.plan)) && |member.data| <= U64_MAX && summary.textSegments < U64_MAX ==> r.error == Callback)
  {
    hide Content, Consecutive, EventsOf, Smooth, Complete, NoneFinal, Streaming, HandedOut;
    StreamingMeans(segments, member.data, current);
    newRead, newSummary, more := bytesRead, summary, segments;
    r := ReadMemberChunk(member, next, faults);
    if r.Err? {
      return;
    }
    if bytesRead + r.value > U64_MAX {
      return Err(CounterOverflow), newRead, newSummary, more;
    }
    newRead := bytesRead + r.value;
    var segment := Segment(segmentIndex, byteOffset, current, r.value == 0);
    ghost var step := StreamingStep(segments, member.data, current, next[..r.value], metadata);
    more := segments + [segment];
    StreamingMeans(more, member.data, next[..r.value]);
    var counted := HandOut(consumer, metadata, segment, summary);
    assert HandedOut(old(consumer.events), consumer.events, metadata, segments, more) by {
      HandedOutIs(old(consumer.events), metadata, segments, more, segment);
    }
    if counted.Err? {
      return Err(counted.error), newRead, newSummary, more;
    }
    newSummary := counted.value;
  }

  /**
   * Hands out a text member. On success the segments are all of the member; after a failed read no
   * segment is final; and a final segment is only handed out after the reader reported the end.
   */
  method StreamTextMember(member: Source, metadata: Metadata, faults: nat -> IoKind, consumer: Consumer, summary: Summary)
    returns (r: ZipResult<nat>, newSummary: Summary, ghost segments: seq<Segment>)
    requires member.pos == 0
    modifies member`pos, member`plan, consumer`events
    ensures consumer.events == old(consumer.events) + EventsOf(metadata, segments)
    ensures Consecutive(segments) && Content(segments) <= member.data
    ensures r.Ok? ==> r.value == |member.data| && Complete(segments, member.data)
    ensures r.Ok? ==> newSummary == Counted(summary, |segments|, |member.data|)
    ensures r.Err? && IsReadError(r.error) ==> NoneFinal(segments)
    ensures !NoneFinal(segments) ==> Complete(segments, member.data)
    ensures Smooth(old(member.plan)) && |member.data| + summary.textSegments <= U64_MAX ==> r.Ok? || r.error == Callback
    ensures r.Err? && r.error == Callback ==> consumer.refuses(consumer.events)
  {
    hide Content, Consecutive, EventsOf, Smooth, Complete, NoneFinal, Streaming, HandedOut;
    NoSegments(metadata);
    segments := [];
    newSummary := summary;
    var current := new Byte[TEXT_SEGMENT_BYTES];
    var next := new Byte[TEXT_SEGMENT_BYTES];
    var first := ReadMemberChunk(member, current, faults);
    if first.Err? {
      return Err(first.error), newSummary, segments;
    }
    var currentLen: nat := first.value;
    var bytesRead: nat, byteOffset: nat, segmentIndex: nat := currentLen, 0, 0;
    StreamingStart(member.data, current[..currentLen]);
    while currentLen != 0
      invariant current != next && current.Length == next.Length == TEXT_SEGMENT_BYTES >= currentLen
      invariant fresh(current) && fresh(next)
      invariant consumer.events == old(consumer.events) + EventsOf(metadata, segments)
      invariant Streaming(segments, member.data, current[..currentLen])
      invariant segmentIndex == |segments| && byteOffset == |Content(segments)|
      invariant bytesRead == member.pos == byteOffset + currentLen <= |member.data|
      invariant newSummary == Counted(summary, |segments|, byteOffset)
      invariant Smooth(old(member.plan)) ==> Smooth(member.plan)
      decreases |member.data| - byteOffset
    {
      var nextLen;
      ghost var before, events := segments, consumer.events;
      StreamingMeans(segments, member.data, current[..currentLen]);
      nextLen, bytesRead, newSummary, segments :=
        StreamStep(member, next, current[..currentLen], bytesRead, byteOffset, segmentIndex, metadata, faults, consumer, newSummary, segments);
      if consumer.events != events || segments != before {
        HandedOutMeans(old(consumer.events), events, consumer.events, metadata, before, segments);
      }
      if nextLen.Err? {
        return Err(nextLen.error), newSummary, segments;
      }
      byteOffset := byteOffset + currentLen;
      segmentIndex := segmentIndex + 1;
      current, next := next, current;
      currentLen := nextLen.value;
    }
    StreamingMeans(segments, member.data, current[..currentLen]);
    r := Ok(bytesRead);
  }

  /** Reads a member to its end, so that errors at its end are seen. */
  method StreamValidationOnly(member: Source, faults: nat -> IoKind) returns (r: ZipResult<nat>)
    requires member.pos == 0
    modifies member`pos, member`plan
    ensures r.Ok? ==> r.value == |member.data|
    ensures Smooth(old(member.plan)) && |member.data| <= U64_MAX ==> r.Ok?
  {
    var buffer := new Byte[TEXT_SEGMENT_BYTES];
    var bytesRead := 0;
    while true
      invariant bytesRead == member.pos <= |member.data|
      invariant Smooth(old(member.plan)) ==> Smooth(member.plan)
      decreases |member.data| - bytesRead
    {
      var count := ReadMemberChunk(member, buffer, faults);
      if count.Err? {
        return Err(count.error);
      }
      if count.value == 0 {
        return Ok(bytesRead);
      }
      if bytesRead + count.value > U64_MAX {
        return Err(CounterOverflow);
      }
      bytesRead := bytesRead + count.value;
    }
  }

  // ---------------------------------------------------------------- the archive

  /** What the ZIP reader gives for one member: its entry, and the answers to opening and reading it. */
  datatype Member = Member(metadata: Metadata, entry: Option<ZipError>, encrypted: bool, supported: bool,
                           open: Option<ZipError>, data: seq<Byte>, plan: seq<Answer>, faults: nat -> IoKind)

  /** The events of the first `n` members, given the segments of each. */
  function EventsUpTo(members: seq<Member>, parts: seq<seq<Segment>>, n: nat): seq<ZipEvent>
    requires n <= |members| && n <= |parts|
  {
    if n == 0 then []
    else EventsUpTo(members, parts, n - 1) + [MemberFound(members[n - 1].metadata)] + EventsOf(members[n - 1].metadata, parts[n - 1])
  }

  /** The counters after the first `n` members. */
  function SummaryUpTo(members: seq<Member>, parts: seq<seq<Segment>>, n: nat): Summary
    requires n <= |members| && n <= |parts|
  {
    if n == 0 then Summary(|members|, 0, 0, 0, 0, 0, 0)
    else
      var m, s := members[n - 1], SummaryUpTo(members, parts, n - 1);
      Summary(s.members,
              s.directories + if m.metadata.isDirectory then 1 else 0,
              s.files + if m.metadata.isDirectory then 0 else 1,
              s.textMembers + if m.metadata.isTextual then 1 else 0,
              s.textSegments + if m.metadata.isTextual then |parts[n - 1]| else 0,
              s.uncompressedBytes + |m.data|,
              s.textBytes + if m.metadata.isTextual then |m.data| else 0)
  }

  /** A member was accepted: readable as declared, and its text handed out completely. */
  predicate Accepted(m: Member, segments: seq<Segment>) {
    && m.entry.None? && !m.encrypted && m.supported && m.open.None? && |m.data| == m.metadata.uncompressedSize
    && if m.metadata.isTextual then Complete(segments, m.data) else segments == []
  }

  /** Nothing stands in the way of reading this member, whatever the sizes of its short reads. */
  predicate Readable(m: Member) {
    && m.entry.None? && !m.encrypted && m.supported && m.open.None? && Smooth(m.plan)
    && |m.data| == m.metadata.uncompressedSize
  }

  function DataUpTo(members: seq<Member>, n: nat): nat
    requires n <= |members|
  {
    if n == 0 then 0 else DataUpTo(members, n - 1) + |members[n - 1].data|
  }

  lemma {:induction false} DataGrows(members: seq<Member>, n: nat, more: nat)
    requires n <= more <= |members|
    ensures DataUpTo(members, n) <= DataUpTo(members, more)
    decreases more
  {
    if n < more {
      DataGrows(members, n, more - 1);
    }
  }

  /** There are at most as many segments as bytes. */
  lemma {:induction false} SegmentsBound(members: seq<Member>, parts: seq<seq<Segment>>, n: nat)
    requires n <= |members| && n <= |parts| && forall i :: 0 <= i < n ==> Accepted(members[i], parts[i])
    ensures SummaryUpTo(members, parts, n).textSegments <= DataUpTo(members, n)
  {
    hide Content, Consecutive;
    if n > 0 {
      SegmentsBound(members, parts, n - 1);
      assert Accepted(members[n - 1], parts[n - 1]);
      if members[n - 1].metadata.isTextual {
        ContentFits(parts[n - 1]);
      }
    }
  }

  /** The bytes of all text segments among events. */
  function TextOf(events: seq<ZipEvent>): nat {
    if events == [] then 0
    else
      var last := events[|events| - 1];
      TextOf(events[..|events| - 1]) + if last.TextSegment? then |last.segment.bytes| else 0
  }

  lemma {:induction false} TextOfEvents(before: seq<ZipEvent>, member: Metadata, segments: seq<Segment>)
    ensures TextOf(before + EventsOf(member, segments)) == TextOf(before) + |Content(segments)|
    ensures |EventsOf(member, segments)| == |segments|
  {
    if segments == [] {
      assert before + [] == before;
    } else {
      var init, last := segments[..|segments| - 1], TextSegment(member, segments[|segments| - 1]);
      TextOfEvents(before, member, init);
      assert before + EventsOf(member, segments) == (before + EventsOf(member, init)) + [last];
    }
  }

  /** The counters agree with the events: one for each member, one for each segment, and all the text. */
  lemma {:induction false} SummaryIsConserved(members: seq<Member>, parts: seq<seq<Segment>>, n: nat)
    requires n <= |members| && n <= |parts| && forall i :: 0 <= i < n ==> Accepted(members[i], parts[i])
    ensures var s, events := SummaryUpTo(members, parts, n), EventsUpTo(members, parts, n);
            && s.files + s.directories == n && |events| == n + s.textSegments
            && TextOf(events) == s.textBytes <= s.uncompressedBytes
  {
    hide TextOf, Content, EventsOf, Complete;
    if n == 0 {
      NoText();
    } else {
      SummaryIsConserved(members, parts, n - 1);
      var m, before := members[n - 1], EventsUpTo(members, parts, n - 1);
      MemberHasNoText(before, m.metadata);
      TextOfEvents(before + [MemberFound(m.metadata)], m.metadata, parts[n - 1]);
      CompleteContent(parts[n - 1], m.data);
    }
  }

  lemma NoText()
    ensures TextOf([]) == 0
  {
  }

  lemma MemberHasNoText(events: seq<ZipEvent>, member: Metadata)
    ensures TextOf(events + [MemberFound(member)]) == TextOf(events)
  {
    assert (events + [MemberFound(member)])[..|events|] == events;
  }

  lemma CompleteContent(segments: seq<Segment>, data: seq<Byte>)
    ensures Complete(segments, data) ==> Content(segments) == data
    ensures segments == [] ==> Content(segments) == []
  {
  }

  /** One member of the walk, from its entry to the check of its declared size. */
  method ParseMember(m: Member, consumer: Consumer, summary: Summary)
    returns (r: ZipResult<Summary>, ghost segments: seq<Segment>)
    modifies consumer`events
    ensures r.Ok? ==>
              && Accepted(m, segments)
              && consumer.events == old(consumer.events) + [MemberFound(m.metadata)] + EventsOf(m.metadata, segments)
              && r.value == Summary(summary.members,
                                    summary.directories + (if m.metadata.isDirectory then 1 else 0),
                                    summary.files + (if m.metadata.isDirectory then 0 else 1),
                                    summary.textMembers + (if m.metadata.isTextual then 1 else 0),
                                    summary.textSegments + (if m.metadata.isTextual then |segments| else 0),
                                    summary.uncompressedBytes + |m.data|,
                                    summary.textBytes + (if m.metadata.isTextual then |m.data| else 0))
    ensures Readable(m) && (forall e :: !consumer.refuses(e)) && |m.data| + summary.textSegments <= U64_MAX ==> r.Ok?
  {
    hide Content, EventsOf, Complete, Consecutive;
    segments := [];
    if m.entry.Some? {
      return Err(m.entry.value), segments;
    }
    if m.encrypted {
      return Err(EncryptedMember), segments;
    }
    if !m.supported {
      return Err(UnsupportedMember), segments;
    }
    var ok := consumer.OnEvent(MemberFound(m.metadata));
    if !ok {
      return Err(Callback), segments;
    }
    var s := summary;
    if m.metadata.isDirectory {
      s := s.(directories := s.directories + 1);
    } else {
      s := s.(files := s.files + 1);
    }
    if m.metadata.isTextual {
      s := s.(textMembers := s.textMembers + 1);
    }
    if m.open.Some? {
      return Err(m.open.value), segments;
    }
    var member := new Source(m.data, m.plan);
    var read;
    if m.metadata.isTextual {
      read, s, segments := StreamTextMember(member, m.metadata, m.faults, consumer, s);
    } else {
      read := StreamValidationOnly(member, m.faults);
      NoSegments(m.metadata);
    }
    if read.Err? {
      return Err(read.error), segments;
    }
    if read.value != m.metadata.uncompressedSize {
      return Err(CorruptMember), segments;
    }
    r := Ok(s.(uncompressedBytes := s.uncompressedBytes + read.value));
  }

  /** The whole walk: every member in order, each with its complete text, or the first error. */
  method TryParseZip(members: seq<Member>, consumer: Consumer) returns (r: ZipResult<Summary>, ghost parts: seq<seq<Segment>>)
    requires consumer.events == []
    modifies consumer`events
    ensures r.Ok? ==>
              && |parts| == |members| && (forall i :: 0 <= i < |members| ==> Accepted(members[i], parts[i]))
              && consumer.events == EventsUpTo(members, parts, |members|)
              && r.value == SummaryUpTo(members, parts, |members|)
    ensures (forall m <- members :: Readable(m)) ==> DataUpTo(members, |members|) <= U64_MAX ==> (forall e :: !consumer.refuses(e)) ==> r.Ok?
  {
    hide Accepted, EventsOf, Readable, DataUpTo;
    parts := [];
    var summary := Summary(|members|, 0, 0, 0, 0, 0, 0);
    for i := 0 to |members|
      invariant |parts| == i && forall j :: 0 <= j < i ==> Accepted(members[j], parts[j])
      invariant consumer.events == EventsUpTo(members, parts, i) && summary == SummaryUpTo(members, parts, i)
    {
      SegmentsBound(members, parts, i);
      DataStep(members, i);
      var next;
      ghost var segments;
      next, segments := ParseMember(members[i], consumer, summary);
      if next.Err? {
        return Err(next.error), parts;
      }
      SamePrefix(members, parts, parts + [segments], i);
      parts := parts + [segments];
      summary := next.value;
    }
    r := Ok(summary);
  }

  lemma DataStep(members: seq<Member>, i: nat)
    requires i < |members|
    ensures DataUpTo(members, i) + |members[i].data| <= DataUpTo(members, |members|)
  {
    DataGrows(members, i + 1, |members|);
  }

  lemma {:induction false} SamePrefix(members: seq<Member>, parts: seq<seq<Segment>>, more: seq<seq<Segment>>, n: nat)
    requires n <= |members| && n <= |parts| && parts <= more
    ensures EventsUpTo(members, more, n) == EventsUpTo(members, parts, n)
    ensures SummaryUpTo(members, more, n) == SummaryUpTo(members, parts, n)
  {
    hide EventsOf;
    if n > 0 {
      SamePrefix(members, parts, more, n - 1);
    }
  }
}
