// The linked section descriptors of EWF segments: the forward chain of version 1 and the backward
// chain of version 2. Neither can loop, and a version 2 walk returns exactly the chain that is there.
module EwfSections {
  import opened Basics

  const V1_HEADER: nat := 13
  const V1_DESCRIPTOR: nat := 76
  const V2_HEADER: nat := 32
  const V2_DESCRIPTOR: nat := 64
  const MAX_SECTION_DESCRIPTORS: nat := 65536

  datatype SectionError =
    | ShorterThanDescriptor | OffsetOverflow | PastSegmentEnd | EarlyTerminal | DoesNotAdvance | TooManyDescriptors
    | UnsupportedDescriptorSize | DataUnderflow | OverlapsHeader | PreviousPastEnd | PreviousNotBackward | PreviousOverlapsData

  type Result<+T> = Basics.Result<T, SectionError>

  const DONE: seq<Byte> := [0x64, 0x6F, 0x6E, 0x65]
  const NEXT: seq<Byte> := [0x6E, 0x65, 0x78, 0x74]

  // ---------------------------------------------------------------- version 1

  datatype Section = Section(kind: seq<Byte>, next: U64, size: U64, offset: U64)

  const NO_SECTION := Section([], 0, 0, 0)

  predicate Terminal(section: Section) {
    section.kind == DONE || section.kind == NEXT
  }

  /** Where a section's data lies; only the data-less terminal markers may declare no size. */
  function V1SectionDataRange(section: Section, fileLen: U64): (r: Result<(U64, U64)>)
    ensures r.Ok? ==> section.offset + 76 == r.value.0 <= r.value.1 <= fileLen
  {
    var size := if section.size == 0 && Terminal(section) then V1_DESCRIPTOR else section.size;
    if size < V1_DESCRIPTOR then Err(ShorterThanDescriptor)
    else if section.offset + size > U64_MAX then Err(OffsetOverflow)
    else if section.offset + size > fileLen then Err(PastSegmentEnd)
    else Ok((section.offset + V1_DESCRIPTOR, section.offset + size))
  }

  /** The next descriptor, if any: a terminal marker may point to itself, but only at the very end. */
  function V1NextDescriptorOffset(section: Section, fileLen: U64): (r: Result<Option<U64>>)
    ensures r.Ok? && r.value.Some? ==> r.value.value == section.next > section.offset
  {
    if section.next == 0 then Ok(None)
    else if section.next == section.offset && Terminal(section) then
      match V1SectionDataRange(section, fileLen)
      case Err(error) => Err(error)
      case Ok((_, end)) => if end == fileLen then Ok(None) else Err(EarlyTerminal)
    else if section.next <= section.offset then Err(DoesNotAdvance)
    else Ok(Some(section.next))
  }

  /** The section type: the first 16 bytes up to a NUL. */
  function Kind(file: seq<Byte>, at: nat, n: nat): seq<Byte>
    requires at + n <= |file|
    decreases n
  {
    if n == 0 || file[at] == 0 then [] else [file[at]] + Kind(file, at + 1, n - 1)
  }

  lemma Le64Fits(file: seq<Byte>, at: nat)
    requires at + 8 <= |file|
    ensures Le(file, at, 8) <= U64_MAX
  {
    LeBound(file, at, 8);
    assert Pow256(8) == 256 * 256 * 256 * 256 * Pow256(4);
    assert Pow256(4) == 256 * 256 * 256 * 256 * Pow256(0);
  }

  function V1Parse(file: seq<Byte>, offset: U64): (section: Section)
    requires offset + V1_DESCRIPTOR <= |file|
    ensures section.offset == offset
  {
    Le64Fits(file, offset + 16);
    Le64Fits(file, offset + 24);
    Section(Kind(file, offset, 16), Le(file, offset + 16, 8), Le(file, offset + 24, 8), offset)
  }

  /** Strictly ascending, linked, and each complete within the segment. */
  ghost predicate V1Chain(file: seq<Byte>, sections: seq<Section>, start: nat)
    requires |file| <= U64_MAX
  {
    && (forall i :: 0 <= i < |sections| ==>
          && sections[i].offset + V1_DESCRIPTOR <= |file| && sections[i] == V1Parse(file, sections[i].offset)
          && V1SectionDataRange(sections[i], |file|).Ok?)
    && (forall i :: 0 < i < |sections| ==> sections[i - 1].next == sections[i].offset > sections[i - 1].offset)
    && (sections != [] ==> sections[0].offset == start)
  }

  /** Why a chain may end after its last section. */
  ghost predicate V1Ends(file: seq<Byte>, sections: seq<Section>, start: nat)
    requires |file| <= U64_MAX
  {
    if sections == [] then |file| < start + V1_DESCRIPTOR <= U64_MAX
    else
      var last := sections[|sections| - 1];
      || last.next == 0
      || (Terminal(last) && last.next == last.offset && V1SectionDataRange(last, |file|).Ok?
          && V1SectionDataRange(last, |file|).value.1 == |file|)
      || CutOff(file, last)
  }

  /** The next descriptor would start inside the 64-bit range but does not fit the segment. */
  predicate CutOff(file: seq<Byte>, last: Section) {
    last.next > last.offset && |file| < last.next + V1_DESCRIPTOR <= U64_MAX
  }

  /** The whole chain from `start` on, short enough to be walked when `seen` sections come before it. */
  ghost predicate V1Whole(file: seq<Byte>, sections: seq<Section>, start: nat, seen: nat)
    requires |file| <= U64_MAX
  {
    && V1Chain(file, sections, start) && V1Ends(file, sections, start)
    // a chain that is cut off is only recognized when one more descriptor is looked for
    && seen + |sections| + (if sections == [] || CutOff(file, sections[|sections| - 1]) then 1 else 0) <= MAX_SECTION_DESCRIPTORS
  }

  /** The walk from a descriptor on, as a function. */
  function V1WalkFrom(file: seq<Byte>, offset: nat, seen: nat): Result<seq<Section>>
    requires |file| <= U64_MAX
    decreases SatSub(MAX_SECTION_DESCRIPTORS, seen)
  {
    if seen >= MAX_SECTION_DESCRIPTORS then Err(TooManyDescriptors)
    else if offset + V1_DESCRIPTOR > U64_MAX then Err(OffsetOverflow)
    else if offset + V1_DESCRIPTOR > |file| then Ok([])
    else
      var section := V1Parse(file, offset);
      match V1SectionDataRange(section, |file|)
      case Err(error) => Err(error)
      case Ok(_) =>
        match V1NextDescriptorOffset(section, |file|)
        case Err(error) => Err(error)
        case Ok(None) => Ok([section])
        case Ok(Some(next)) => Before([section], V1WalkFrom(file, next, seen + 1))
  }

  function Before(sections: seq<Section>, rest: Result<seq<Section>>): Result<seq<Section>> {
    match rest
    case Err(error) => Err(error)
    case Ok(more) => Ok(sections + more)
  }

  lemma BeforeTwice(sections: seq<Section>, section: Section, rest: Result<seq<Section>>)
    ensures Before(sections, Before([section], rest)) == Before(sections + [section], rest)
    ensures Before(sections, Ok([section])) == Ok(sections + [section]) && Before(sections, Ok([])) == Ok(sections)
  {
    assert sections + [] == sections;
    if rest.Ok? {
      assert sections + ([section] + rest.value) == (sections + [section]) + rest.value;
    }
  }

  lemma BeforeNothing(rest: Result<seq<Section>>)
    ensures Before([], rest) == rest
  {
    if rest.Ok? {
      assert [] + rest.value == rest.value;
    }
  }

  /** One more section in front of a whole chain. */
  lemma V1WholePush(file: seq<Byte>, section: Section, rest: seq<Section>, start: nat, seen: nat)
    requires |file| <= U64_MAX && start + V1_DESCRIPTOR <= |file| && section == V1Parse(file, start) && seen < MAX_SECTION_DESCRIPTORS
    requires V1SectionDataRange(section, |file|).Ok? && V1NextDescriptorOffset(section, |file|) == Ok(Some(section.next))
    requires V1Whole(file, rest, section.next, seen + 1)
    ensures V1Whole(file, [section] + rest, start, seen)
  {
    hide V1Parse, V1SectionDataRange, CutOff;
    var sections := [section] + rest;
    assert V1Chain(file, sections, start);
    assert rest == [] ==> CutOff(file, section) by {
      V1CutOff(file, section);
    }
  }

  lemma V1CutOff(file: seq<Byte>, section: Section)
    ensures CutOff(file, section) <==> section.next > section.offset && |file| < section.next + V1_DESCRIPTOR <= U64_MAX
  {
  }

  /** A whole chain without its first section, which links to the next one. */
  lemma V1WholePop(file: seq<Byte>, sections: seq<Section>, start: nat, seen: nat)
    requires |file| <= U64_MAX && V1Whole(file, sections, start, seen) && sections != []
    requires |sections| > 1 || CutOff(file, sections[0])
    ensures V1Whole(file, sections[1..], sections[0].next, seen + 1)
  {
    hide V1Parse, V1SectionDataRange;
    var rest := sections[1..];
    forall i | 0 <= i < |rest|
      ensures rest[i].offset + V1_DESCRIPTOR <= |file| && rest[i] == V1Parse(file, rest[i].offset) && V1SectionDataRange(rest[i], |file|).Ok?
      ensures i > 0 ==> rest[i - 1].next == rest[i].offset > rest[i - 1].offset
    {
      assert sections[i + 1] == rest[i] && (i > 0 ==> sections[i] == rest[i - 1]);
    }
    assert rest != [] ==> sections[0].next == sections[1].offset && rest[|rest| - 1] == sections[|sections| - 1];
  }

  /** What the walk finds is a whole chain. */
  lemma {:induction false} V1WalkIsWhole(file: seq<Byte>, offset: nat, seen: nat)
    requires |file| <= U64_MAX && V1WalkFrom(file, offset, seen).Ok?
    ensures V1Whole(file, V1WalkFrom(file, offset, seen).value, offset, seen)
    decreases SatSub(MAX_SECTION_DESCRIPTORS, seen)
  {
    hide V1Parse, V1SectionDataRange;
    if offset + V1_DESCRIPTOR <= |file| {
      var section := V1Parse(file, offset);
      var next := V1NextDescriptorOffset(section, |file|).value;
      if next.Some? {
        V1WalkIsWhole(file, next.value, seen + 1);
        V1WholePush(file, section, V1WalkFrom(file, next.value, seen + 1).value, offset, seen);
      }
    }
  }

  /** A whole chain is what the walk finds, so there is at most one. */
  lemma {:induction false} V1WholeIsWalked(file: seq<Byte>, sections: seq<Section>, offset: nat, seen: nat)
    requires |file| <= U64_MAX && V1Whole(file, sections, offset, seen)
    ensures V1WalkFrom(file, offset, seen) == Ok(sections)
    decreases |sections|
  {
    hide V1Parse, V1SectionDataRange;
    if sections != [] {
      var section, rest := sections[0], sections[1..];
      assert sections == [section] + rest;
      if rest != [] {
        assert sections[0].next == sections[1].offset;
      }
      if rest != [] || CutOff(file, section) {
        V1WholePop(file, sections, offset, seen);
        V1WholeIsWalked(file, rest, section.next, seen + 1);
        assert V1NextDescriptorOffset(section, |file|) == Ok(Some(section.next));
      } else {
        assert V1NextDescriptorOffset(section, |file|) == Ok(None);
        assert sections == [section] && section == V1Parse(file, offset);
      }
    }
  }

  /** The forward walk finds the segment's chain exactly if it has one that is short enough. */
  method WalkV1(file: seq<Byte>) returns (r: Result<seq<Section>>)
    requires |file| <= U64_MAX
    ensures r == V1WalkFrom(file, V1_HEADER, 0)
    ensures r.Ok? <==> exists sections :: V1Whole(file, sections, V1_HEADER, 0)
    ensures forall sections :: V1Whole(file, sections, V1_HEADER, 0) ==> r == Ok(sections)
  {
    hide V1Parse, V1SectionDataRange, V1Whole;
    forall sections | V1Whole(file, sections, V1_HEADER, 0) ensures V1WalkFrom(file, V1_HEADER, 0) == Ok(sections) {
      V1WholeIsWalked(file, sections, V1_HEADER, 0);
    }
    if V1WalkFrom(file, V1_HEADER, 0).Ok? {
      V1WalkIsWhole(file, V1_HEADER, 0);
    }
    var offset: nat := V1_HEADER;
    var sections: seq<Section> := [];
    ghost var visited: set<nat> := {};
    BeforeNothing(V1WalkFrom(file, V1_HEADER, 0));
    while true
      invariant |sections| <= MAX_SECTION_DESCRIPTORS
      invariant V1WalkFrom(file, V1_HEADER, 0) == Before(sections, V1WalkFrom(file, offset, |sections|))
      invariant forall v <- visited :: v < offset
      decreases MAX_SECTION_DESCRIPTORS - |sections|
    {
      if |sections| >= MAX_SECTION_DESCRIPTORS {
        return Err(TooManyDescriptors);
      }
      assert offset !in visited;  // so the cycle check never fires
      visited := visited + {offset};
      if offset + V1_DESCRIPTOR > U64_MAX {
        return Err(OffsetOverflow);
      }
      BeforeTwice(sections, NO_SECTION, Ok([]));
      if offset + V1_DESCRIPTOR > |file| {
        break;
      }
      var section := V1Parse(file, offset);
      var range := V1SectionDataRange(section, |file|);
      if range.Err? {
        return Err(range.error);
      }
      var next := V1NextDescriptorOffset(section, |file|);
      if next.Err? {
        return Err(next.error);
      }
      BeforeTwice(sections, section, if next.value.Some? then V1WalkFrom(file, next.value.value, |sections| + 1) else Ok([]));
      sections := sections + [section];
      if next.value.None? {
        break;
      }
      offset := next.value.value;
    }
    r := Ok(sections);
  }

  /** Offsets of a chain ascend, so no section is listed twice. */
  lemma {:induction false} V1ChainAscends(file: seq<Byte>, sections: seq<Section>, i: nat, j: nat)
    requires |file| <= U64_MAX && V1Chain(file, sections, V1_HEADER) && i < j < |sections|
    ensures sections[i].offset < sections[j].offset
  {
    if i < j - 1 {
      V1ChainAscends(file, sections, i, j - 1);
    }
  }

  // ---------------------------------------------------------------- version 2

  function Previous(file: seq<Byte>, offset: nat): nat
    requires offset + V2_DESCRIPTOR <= |file|
  {
    Le(file, offset + 8, 8)
  }

  function DataSize(file: seq<Byte>, offset: nat): nat
    requires offset + V2_DESCRIPTOR <= |file|
  {
    Le(file, offset + 16, 8)
  }

  /** The checks on one descriptor. */
  function V2Check(file: seq<Byte>, offset: nat): (r: Option<SectionError>)
    requires offset + V2_DESCRIPTOR <= |file|
    ensures r.None? ==> 32 <= offset - DataSize(file, offset)
  {
    if Le(file, offset + 24, 4) != V2_DESCRIPTOR then Some(UnsupportedDescriptorSize)
    else if DataSize(file, offset) > offset then Some(DataUnderflow)
    else if offset - DataSize(file, offset) < V2_HEADER then Some(OverlapsHeader)
    else None
  }

  /** The checks on the link from the descriptor at `offset` back to the one before it. */
  function V2Link(file: seq<Byte>, offset: nat): (r: Option<SectionError>)
    requires offset + V2_DESCRIPTOR <= |file|
    ensures r.None? ==> Previous(file, offset) + 64 <= offset - DataSize(file, offset)
  {
    var previous := Previous(file, offset);
    if previous >= |file| then Some(PreviousPastEnd)
    else if previous >= offset then Some(PreviousNotBackward)
    else if previous + V2_DESCRIPTOR > offset - DataSize(file, offset) then Some(PreviousOverlapsData)
    else None
  }

  /** The descriptor at `after` links back to the one at `before`, which ends before its data. */
  predicate Follows(file: seq<Byte>, before: nat, after: nat)
    requires after + V2_DESCRIPTOR <= |file|
  {
    Previous(file, after) == before != 0 && before + V2_DESCRIPTOR <= after - DataSize(file, after)
  }

  /** A chain of descriptors in file order that ends with the one at `last`. */
  ghost predicate ChainTo(file: seq<Byte>, offsets: seq<nat>, last: nat) {
    && offsets != [] && offsets[|offsets| - 1] == last
    && (forall i :: 0 <= i < |offsets| ==> offsets[i] + V2_DESCRIPTOR <= |file| && V2Check(file, offsets[i]) == None)
    && (forall i :: 0 < i < |offsets| ==> Follows(file, offsets[i - 1], offsets[i]))
    && Previous(file, offsets[0]) == 0
  }

  /** What a well-formed version 2 segment contains: a chain that ends at the end of the file. */
  ghost predicate V2Chain(file: seq<Byte>, offsets: seq<nat>) {
    |file| >= V2_DESCRIPTOR && ChainTo(file, offsets, |file| - V2_DESCRIPTOR)
  }

  /** The walk back from a descriptor, as a function: the offsets up to it in file order. */
  function WalkBack(file: seq<Byte>, offset: nat, seen: nat): Result<seq<nat>>
    requires offset + V2_DESCRIPTOR <= |file|
    decreases offset
  {
    if seen >= MAX_SECTION_DESCRIPTORS then Err(TooManyDescriptors)
    else if V2Check(file, offset).Some? then Err(V2Check(file, offset).value)
    else if Previous(file, offset) == 0 then Ok([offset])
    else if V2Link(file, offset).Some? then Err(V2Link(file, offset).value)
    else
      match WalkBack(file, Previous(file, offset), seen + 1)
      case Err(error) => Err(error)
      case Ok(before) => Ok(before + [offset])
  }

  lemma LinkMeans(file: seq<Byte>, offset: nat)
    requires offset + V2_DESCRIPTOR <= |file|
    ensures V2Link(file, offset) == None <==>
            Previous(file, offset) < offset && Previous(file, offset) + V2_DESCRIPTOR <= offset - DataSize(file, offset)
  {
  }

  /** What the walk returns is a chain. */
  lemma {:induction false} WalkBackIsChain(file: seq<Byte>, offset: nat, seen: nat)
    requires offset + V2_DESCRIPTOR <= |file| && WalkBack(file, offset, seen).Ok?
    ensures var offsets := WalkBack(file, offset, seen).value;
            ChainTo(file, offsets, offset) && |offsets| + seen <= MAX_SECTION_DESCRIPTORS
    decreases offset
  {
    hide V2Check, V2Link, Previous, DataSize;
    if Previous(file, offset) != 0 {
      LinkMeans(file, offset);
      WalkBackIsChain(file, Previous(file, offset), seen + 1);
    }
  }

  /** Every chain that is short enough is found, so there is at most one. */
  lemma {:induction false} ChainIsWalked(file: seq<Byte>, offsets: seq<nat>, offset: nat, seen: nat)
    requires offset + V2_DESCRIPTOR <= |file| && ChainTo(file, offsets, offset)
    requires |offsets| + seen <= MAX_SECTION_DESCRIPTORS
    ensures WalkBack(file, offset, seen) == Ok(offsets)
    decreases |offsets|
  {
    hide V2Check, V2Link, Previous, DataSize;
    LinkMeans(file, offset);
    var before := offsets[..|offsets| - 1];
    assert offsets == before + [offset];
    if before != [] {
      assert Follows(file, offsets[|offsets| - 2], offsets[|offsets| - 1]);
      ChainIsWalked(file, before, Previous(file, offset), seen + 1);
    }
  }

  /** The walk: descriptors are collected back to front and reversed at the end. */
  method CollectEwf2Descriptors(file: seq<Byte>) returns (r: Result<seq<nat>>)
    ensures |file| < V2_DESCRIPTOR ==> r == Ok([])
    ensures |file| >= V2_DESCRIPTOR ==> r == WalkBack(file, |file| - V2_DESCRIPTOR, 0)
  {
    hide V2Check, V2Link, Previous, DataSize;
    if |file| < V2_DESCRIPTOR {
      return Ok([]);
    }
    var offset: nat := |file| - V2_DESCRIPTOR;
    var descriptors: seq<nat> := [];
    ghost var visited: set<nat> := {};
    JoinNothing(WalkBack(file, offset, 0));
    while true
      invariant offset + V2_DESCRIPTOR <= |file|
      invariant forall v <- visited :: v > offset
      invariant WalkBack(file, |file| - V2_DESCRIPTOR, 0)
             == Joined(WalkBack(file, offset, |descriptors|), Reversed(descriptors))
      decreases offset
    {
      if |descriptors| >= MAX_SECTION_DESCRIPTORS {
        return Err(TooManyDescriptors);
      }
      assert offset !in visited;  // so the cycle check never fires
      visited := visited + {offset};
      var bad := V2Check(file, offset);
      if bad.Some? {
        return Err(bad.value);
      }
      var previous := Previous(file, offset);
      ReversedPush(descriptors, offset);
      JoinStep(file, offset, |descriptors|, Reversed(descriptors));
      descriptors := descriptors + [offset];
      if previous == 0 {
        break;
      }
      bad := V2Link(file, offset);
      if bad.Some? {
        return Err(bad.value);
      }
      LinkMeans(file, offset);
      offset := previous;
    }
    r := Ok(Reversed(descriptors));
  }

  /** A walk's result with the offsets already collected behind it. */
  function Joined(rest: Result<seq<nat>>, done: seq<nat>): Result<seq<nat>> {
    if rest.Ok? then Ok(rest.value + done) else rest
  }

  lemma JoinNothing(rest: Result<seq<nat>>)
    ensures Joined(rest, []) == rest && Reversed([]) == []
  {
    assert rest.Ok? ==> rest.value + [] == rest.value;
  }

  lemma JoinStep(file: seq<Byte>, offset: nat, seen: nat, done: seq<nat>)
    requires offset + V2_DESCRIPTOR <= |file| && seen < MAX_SECTION_DESCRIPTORS && V2Check(file, offset) == None
    ensures var all := Joined(WalkBack(file, offset, seen), done);
            if Previous(file, offset) == 0 then all == Ok([offset] + done)
            else if V2Link(file, offset).Some? then all == Err(V2Link(file, offset).value)
            else all == Joined(WalkBack(file, Previous(file, offset), seen + 1), [offset] + done)
  {
    hide V2Check, V2Link, Previous;
    if Previous(file, offset) != 0 && V2Link(file, offset) == None {
      LinkMeans(file, offset);
      var rest := WalkBack(file, Previous(file, offset), seen + 1);
      if rest.Ok? {
        assert rest.value + [offset] + done == rest.value + ([offset] + done);
      }
    }
  }

  function Reversed(s: seq<nat>): seq<nat> {
    if s == [] then [] else [s[|s| - 1]] + Reversed(s[..|s| - 1])
  }

  lemma ReversedPush(s: seq<nat>, x: nat)
    ensures Reversed(s + [x]) == [x] + Reversed(s)
  {
    assert (s + [x])[..|s + [x]| - 1] == s;
  }

  /** A walk succeeds exactly if the segment holds a well-formed chain, and returns that chain. */
  lemma WalkExact(file: seq<Byte>, offsets: seq<nat>)
    requires |file| >= V2_DESCRIPTOR
    ensures WalkBack(file, |file| - V2_DESCRIPTOR, 0) == Ok(offsets)
       <==> V2Chain(file, offsets) && |offsets| <= MAX_SECTION_DESCRIPTORS
  {
    hide V2Check, V2Link, Previous, DataSize, WalkBack, ChainTo;
    var last := |file| - V2_DESCRIPTOR;
    if V2Chain(file, offsets) && |offsets| <= MAX_SECTION_DESCRIPTORS {
      ChainIsWalked(file, offsets, last, 0);
    }
    if WalkBack(file, last, 0) == Ok(offsets) {
      WalkBackIsChain(file, last, 0);
    }
  }

  lemma CheckMeans(file: seq<Byte>, offset: nat)
    requires offset + V2_DESCRIPTOR <= |file|
    ensures V2Check(file, offset) == None ==> V2_HEADER <= offset - DataSize(file, offset) <= offset
  {
  }

  /** In a chain the [data][descriptor] ranges follow each other without overlap, past the header. */
  lemma {:induction false} SectionsDisjoint(file: seq<Byte>, offsets: seq<nat>, i: nat, j: nat)
    requires V2Chain(file, offsets) && i < j < |offsets|
    ensures V2_HEADER <= offsets[i] - DataSize(file, offsets[i])
    ensures offsets[i] + V2_DESCRIPTOR <= offsets[j] - DataSize(file, offsets[j]) <= offsets[j]
    ensures offsets[j] + V2_DESCRIPTOR <= |file|
  {
    hide Previous, DataSize, V2Check;
    CheckMeans(file, offsets[i]);
    CheckMeans(file, offsets[j]);
    assert Follows(file, offsets[j - 1], offsets[j]);
    if i < j - 1 {
      SectionsDisjoint(file, offsets, i, j - 1);
    }
  }
}
