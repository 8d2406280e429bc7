// Section chains as they are laid out in EWF segments: what is written one section after the other is
// what the walks find.
module EwfPrinting {
  import opened Basics
  import opened EwfSections

  // ---------------------------------------------------------------- version 1

  /** A section type of at most 16 bytes, none of them NUL. */
  predicate IsKind(kind: seq<Byte>) {
    |kind| <= 16 && 0 !in kind
  }

  /** The descriptor at `at`: the type, padded with NUL, the offset of the next one, and the size of the section. */
  predicate IsDescriptor(file: seq<Byte>, at: nat, kind: seq<Byte>, next: nat, size: nat) {
    && IsKind(kind) && at + 76 <= |file|
    && (forall i :: 0 <= i < |kind| ==> file[at + i] == kind[i]) && (|kind| < 16 ==> file[at + |kind|] == 0)
    && Long(file, at + 16) == next && Long(file, at + 24) == size
  }

  lemma {:induction false} KindReadBack(file: seq<Byte>, at: nat, kind: seq<Byte>, n: nat)
    requires |kind| <= n && at + n <= |file| && 0 !in kind
    requires (forall i :: 0 <= i < |kind| ==> file[at + i] == kind[i]) && (|kind| < n ==> file[at + |kind|] == 0)
    ensures Kind(file, at, n) == kind
    decreases n
  {
    if kind != [] {
      assert kind[0] in kind && file[at + 0] == kind[0];
      forall i | 0 <= i < |kind| - 1 ensures file[at + 1 + i] == kind[1..][i] {
        assert file[at + (i + 1)] == kind[i + 1];
      }
      KindReadBack(file, at + 1, kind[1..], n - 1);
      assert kind == [kind[0]] + kind[1..];
    }
  }

  /** A written descriptor is read back. */
  lemma DescriptorReadBack(file: seq<Byte>, at: nat, kind: seq<Byte>, next: U64, size: U64)
    requires at <= U64_MAX && IsDescriptor(file, at, kind, next, size)
    ensures V1Parse(file, at) == Section(kind, next, size, at)
  {
    hide Le, Word;
    KindReadBack(file, at, kind, 16);
    FieldsAreNumbers(file, at + 16);
    FieldsAreNumbers(file, at + 24);
  }

  /** A section to be written: its type and its data. */
  datatype Written = Written(kind: seq<Byte>, data: seq<Byte>)

  /** Where section `n` starts: behind the segment header and the sections before it. */
  function StartOf(sections: seq<Written>, n: nat): nat
    requires n <= |sections|
  {
    if n == 0 then 13 else StartOf(sections, n - 1) + 76 + |sections[n - 1].data|
  }

  function Ascii(text: string): (bytes: seq<Byte>)
    ensures |bytes| == |text|
  {
    seq<Byte>(|text|, i requires 0 <= i < |text| => if text[i] < 128 as char then text[i] as int else 0)
  }

  /**
   * The segment holds these sections one after the other, each linked to the next and with its own
   * size, and behind them, at its end, a section of type `last` that links to itself.
   */
  predicate IsSegment(file: seq<Byte>, sections: seq<Written>, last: seq<Byte>) {
    var end := StartOf(sections, |sections|);
    && |file| == end + 76 <= U64_MAX && IsDescriptor(file, end, last, end, 0)
    && forall i :: 0 <= i < |sections| ==> IsSectionAt(file, sections, i)
  }

  predicate IsSectionAt(file: seq<Byte>, sections: seq<Written>, i: nat)
    requires i < |sections|
  {
    var at, data := StartOf(sections, i), sections[i].data;
    && IsDescriptor(file, at, sections[i].kind, StartOf(sections, i + 1), 76 + |data|)
    && at + 76 + |data| <= |file| && file[at + 76..at + 76 + |data|] == data
  }

  /** The descriptors that are written. */
  function Descriptors(sections: seq<Written>, last: seq<Byte>): seq<Section>
    requires StartOf(sections, |sections|) <= U64_MAX - 76
  {
    AllBelow(sections);
    assert forall i :: 0 <= i < |sections| ==> InPlace(sections, i);
    seq(|sections|, i requires 0 <= i < |sections| =>
      assert InPlace(sections, i);
      Section(sections[i].kind, StartOf(sections, i + 1), 76 + |sections[i].data|, StartOf(sections, i)))
    + [Section(last, StartOf(sections, |sections|), 0, StartOf(sections, |sections|))]
  }

  lemma {:induction false} Below(sections: seq<Written>, i: nat, j: nat)
    requires i <= j <= |sections|
    ensures StartOf(sections, i) <= StartOf(sections, j)
    decreases j
  {
    if i < j {
      Below(sections, i, j - 1);
    }
  }

  predicate InPlace(sections: seq<Written>, i: nat)
    requires i < |sections|
  {
    StartOf(sections, i) + 76 + |sections[i].data| == StartOf(sections, i + 1) <= StartOf(sections, |sections|)
  }

  lemma AllBelow(sections: seq<Written>)
    ensures forall i :: 0 <= i < |sections| ==> InPlace(sections, i)
  {
    forall i | 0 <= i < |sections| ensures InPlace(sections, i) {
      Below(sections, i + 1, |sections|);
    }
  }

  /** The descriptor of section `i` or of the last one, as the walk sees it. */
  lemma FoundAt(file: seq<Byte>, sections: seq<Written>, last: seq<Byte>, i: nat)
    requires last == Ascii("done") || last == Ascii("next")
    requires IsSegment(file, sections, last) && i <= |sections|
    ensures var section := Descriptors(sections, last)[i];
            && section.offset == StartOf(sections, i) && section.offset + 76 <= |file| && section == V1Parse(file, section.offset)
            && V1SectionDataRange(section, |file|).Ok?
            && (i < |sections| ==>
                  && section.next == StartOf(sections, i + 1) > section.offset
                  && var range := V1SectionDataRange(section, |file|).value; file[range.0..range.1] == sections[i].data)
            && (i == |sections| ==>
                  section.next == section.offset && Terminal(section) && V1SectionDataRange(section, |file|).value.1 == |file|)
  {
    hide IsDescriptor, V1Parse, Ascii, StartOf;
    AllBelow(sections);
    IsTerminal();
    var end := StartOf(sections, |sections|);
    if i < |sections| {
      assert IsSectionAt(file, sections, i) && InPlace(sections, i);
      DescriptorReadBack(file, StartOf(sections, i), sections[i].kind, StartOf(sections, i + 1), 76 + |sections[i].data|);
    } else {
      DescriptorReadBack(file, end, last, end, 0);
    }
  }

  /** What is written is what the walk finds, and every section's data range holds its data. */
  lemma WrittenIsWalked(file: seq<Byte>, sections: seq<Written>, last: seq<Byte>)
    requires last == Ascii("done") || last == Ascii("next")
    requires IsSegment(file, sections, last) && |sections| < 65536
    ensures V1WalkFrom(file, V1_HEADER, 0) == Ok(Descriptors(sections, last))
    ensures forall i :: 0 <= i < |sections| ==>
              var range := V1SectionDataRange(Descriptors(sections, last)[i], |file|);
              range.Ok? && file[range.value.0..range.value.1] == sections[i].data
  {
    hide IsSegment, V1Parse, Ascii, V1SectionDataRange, V1WalkFrom, Descriptors, StartOf, V1Whole;
    EndFits(file, sections, last);
    IsWhole(file, sections, last);
    FitsFile(file, sections, last);
    V1WholeIsWalked(file, Descriptors(sections, last), 13, 0);
    forall i | 0 <= i < |sections|
      ensures var range := V1SectionDataRange(Descriptors(sections, last)[i], |file|);
              range.Ok? && file[range.value.0..range.value.1] == sections[i].data
    {
      FoundAt(file, sections, last, i);
    }
  }

  lemma EndFits(file: seq<Byte>, sections: seq<Written>, last: seq<Byte>)
    requires IsSegment(file, sections, last)
    ensures StartOf(sections, |sections|) <= U64_MAX - 76 && |file| <= U64_MAX
  {
  }

  lemma FitsFile(file: seq<Byte>, sections: seq<Written>, last: seq<Byte>)
    requires IsSegment(file, sections, last)
    ensures |Descriptors(sections, last)| == |sections| + 1 && |file| <= U64_MAX
  {
  }

  lemma LinkedAt(file: seq<Byte>, sections: seq<Written>, last: seq<Byte>, i: nat)
    requires last == Ascii("done") || last == Ascii("next")
    requires IsSegment(file, sections, last) && i <= |sections|
    ensures var found := Descriptors(sections, last);
            && |found| == |sections| + 1
            && found[i].offset + V1_DESCRIPTOR <= |file| && found[i] == V1Parse(file, found[i].offset)
            && V1SectionDataRange(found[i], |file|).Ok?
            && (i > 0 ==> found[i - 1].next == found[i].offset > found[i - 1].offset)
            && (i == 0 ==> found[i].offset == 13)
  {
    hide IsSegment, V1Parse, Ascii, V1SectionDataRange, Descriptors, Terminal;
    FitsFile(file, sections, last);
    FoundAt(file, sections, last, i);
    if i > 0 {
      FoundAt(file, sections, last, i - 1);
    }
  }

  lemma IsWhole(file: seq<Byte>, sections: seq<Written>, last: seq<Byte>)
    requires last == Ascii("done") || last == Ascii("next")
    requires IsSegment(file, sections, last) && |sections| < 65536
    ensures |file| <= U64_MAX && V1Whole(file, Descriptors(sections, last), 13, 0)
  {
    hide IsSegment, V1Parse, Ascii, V1SectionDataRange, Descriptors, StartOf, Terminal;
    EndFits(file, sections, last);
    var found := Descriptors(sections, last);
    FitsFile(file, sections, last);
    forall i | 0 <= i < |found|
      ensures found[i].offset + V1_DESCRIPTOR <= |file| && found[i] == V1Parse(file, found[i].offset)
      ensures V1SectionDataRange(found[i], |file|).Ok?
      ensures i > 0 ==> found[i - 1].next == found[i].offset > found[i - 1].offset
    {
      LinkedAt(file, sections, last, i);
    }
    LinkedAt(file, sections, last, 0);
    FoundAt(file, sections, last, |sections|);
  }

  lemma IsTerminal()
    ensures DONE == Ascii("done") && NEXT == Ascii("next")
  {
  }

  // ---------------------------------------------------------------- version 2

  /** The data of the sections, each followed by its descriptor; where the descriptor of section `n` stands. */
  function DescriptorOf(lengths: seq<nat>, n: nat): nat
    requires n < |lengths|
  {
    lengths[n] + if n == 0 then 32 else DescriptorOf(lengths, n - 1) + 64
  }

  /** A version 2 segment of sections with data of these lengths: each descriptor tells the one before it and its own data. */
  predicate IsV2Segment(file: seq<Byte>, lengths: seq<nat>) {
    && lengths != [] && |file| == DescriptorOf(lengths, |lengths| - 1) + 64
    && forall i :: 0 <= i < |lengths| ==> IsV2DescriptorAt(file, lengths, i)
  }

  predicate IsV2DescriptorAt(file: seq<Byte>, lengths: seq<nat>, i: nat)
    requires i < |lengths|
  {
    var at := DescriptorOf(lengths, i);
    && at + 64 <= |file|
    && Long(file, at + 8) == (if i == 0 then 0 else DescriptorOf(lengths, i - 1))
    && Long(file, at + 16) == lengths[i] && Word(file, at + 24) == 64
  }

  /** What is written is what the backward walk finds. */
  lemma V2WrittenIsWalked(file: seq<Byte>, lengths: seq<nat>)
    requires IsV2Segment(file, lengths) && |lengths| <= 65536
    ensures WalkBack(file, |file| - V2_DESCRIPTOR, 0)
         == Ok(seq(|lengths|, i requires 0 <= i < |lengths| => DescriptorOf(lengths, i)))
  {
    hide Long, Word, Le, DescriptorOf;
    var offsets := seq(|lengths|, i requires 0 <= i < |lengths| => DescriptorOf(lengths, i));
    forall i | 0 <= i < |offsets|
      ensures offsets[i] + V2_DESCRIPTOR <= |file| && V2Check(file, offsets[i]) == None
      ensures i > 0 ==> Follows(file, offsets[i - 1], offsets[i])
      ensures i == 0 ==> Previous(file, offsets[i]) == 0
    {
      assert IsV2DescriptorAt(file, lengths, i);
      var at := offsets[i];
      Step(lengths, i);
      LongIsLe(file, at + 8);
      LongIsLe(file, at + 16);
      FieldsAreNumbers(file, at + 24);
    }
    assert ChainTo(file, offsets, |file| - V2_DESCRIPTOR);
    WalkExact(file, offsets);
  }

  lemma LongIsLe(file: seq<Byte>, at: nat)
    requires at + 8 <= |file|
    ensures Le(file, at, 8) == Long(file, at)
  {
    FieldsAreNumbers(file, at);
  }

  lemma Step(lengths: seq<nat>, i: nat)
    requires i < |lengths|
    ensures i == 0 ==> DescriptorOf(lengths, i) == 32 + lengths[i]
    ensures i > 0 ==> DescriptorOf(lengths, i) == DescriptorOf(lengths, i - 1) + 64 + lengths[i] && DescriptorOf(lengths, i - 1) > 0
  {
  }
}
