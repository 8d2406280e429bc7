// BitLocker recovery keys: eight 16-bit words, each printed as the six decimal digits of 11 times it.
module RecoveryKey {
  import opened Basics
  import opened Decimals
  import opened Texts

  const GROUPS: nat := 8

  type Word = x: int | 0 <= x <= U16_MAX

  datatype FormatError = WrongGroupCount | BadGroupDigits | BadChecksum | GroupOutOfRange

  // ---------------------------------------------------------------- splitting and joining

  /** The parts between dashes; there is always at least one. */
  function Split(s: string): (parts: seq<string>)
    ensures parts != []
  {
    if s == "" then [""]
    else
      var before, c := Split(s[..|s| - 1]), s[|s| - 1];
      if c == '-' then before + [""] else before[..|before| - 1] + [before[|before| - 1] + [c]]
  }

  lemma JoinStep(parts: seq<string>, last: string)
    ensures Join(parts + [last], "-") == if parts == [] then last else Join(parts, "-") + "-" + last
  {
    if parts != [] {
      assert (parts + [last])[..|parts|] == parts;
    }
  }

  lemma {:induction false} JoinOfSplit(s: string)
    ensures Join(Split(s), "-") == s
  {
    hide Join;
    if s == "" {
      JoinStep([], "");
      assert [] + [""] == [""];
    } else {
      var before, c := Split(s[..|s| - 1]), s[|s| - 1];
      JoinOfSplit(s[..|s| - 1]);
      assert s == s[..|s| - 1] + [c];
      if c == '-' {
        JoinStep(before, "");
      } else {
        var init, last := before[..|before| - 1], before[|before| - 1];
        assert before == init + [last];
        JoinStep(init, last);
        JoinStep(init, last + [c]);
      }
    }
  }

  lemma SplitStep(s: string, c: char)
    ensures Split(s + [c])
         == if c == '-' then Split(s) + [""] else Split(s)[..|Split(s)| - 1] + [Split(s)[|Split(s)| - 1] + [c]]
  {
    assert (s + [c])[..|s|] == s;
  }

  lemma {:induction false} SplitPart(before: string, part: string)
    requires '-' !in part
    ensures Split(before + "-" + part) == Split(before) + [part]
    decreases |part|
  {
    hide Split;
    if part == "" {
      assert before + "-" + part == before + ['-'];
      SplitStep(before, '-');
    } else {
      var init, c := part[..|part| - 1], part[|part| - 1];
      SplitPart(before, init);
      assert before + "-" + part == (before + "-" + init) + [c];
      SplitStep(before + "-" + init, c);
      assert (Split(before) + [init])[..|Split(before)|] == Split(before);
      assert c in part && part == init + [c];
    }
  }

  lemma {:induction false} SplitAlone(part: string)
    requires '-' !in part
    ensures Split(part) == [part]
  {
    if part != "" {
      SplitAlone(part[..|part| - 1]);
      assert part == part[..|part| - 1] + [part[|part| - 1]];
    }
  }

  lemma {:induction false} SplitOfJoin(parts: seq<string>)
    requires parts != [] && forall part <- parts :: '-' !in part
    ensures Split(Join(parts, "-")) == parts
  {
    hide Join, Split;
    var init, last := parts[..|parts| - 1], parts[|parts| - 1];
    assert parts == init + [last] && last in parts;
    JoinStep(init, last);
    if init == [] {
      SplitAlone(last);
    } else {
      SplitOfJoin(init);
      SplitPart(Join(init, "-"), last);
    }
  }

  // ---------------------------------------------------------------- printing

  function PrintGroup(word: Word): string {
    Padded(11 * word, 6)
  }

  function PrintGroups(words: seq<Word>): (groups: seq<string>)
    ensures |groups| == |words|
  {
    seq(|words|, i requires 0 <= i < |words| => PrintGroup(words[i]))
  }

  /** The key as it is shown to users. */
  function PrintKey(words: seq<Word>): string {
    Join(PrintGroups(words), "-")
  }

  /** What is wrong with one group, in the order of the checks. */
  function GroupError(group: string): Option<FormatError> {
    if |group| != 6 || !AllDigits(group) then Some(BadGroupDigits)
    else if Value(group) % 11 != 0 then Some(BadChecksum)
    else if Value(group) / 11 > U16_MAX then Some(GroupOutOfRange)
    else None
  }

  lemma Million()
    ensures Pow10(6) == 1_000_000
  {
    assert Pow10(6) == 10 * (10 * (10 * (10 * (10 * (10 * Pow10(0))))));
  }

  /** A printed group is right and denotes its word. */
  lemma PrintedGroup(word: Word)
    ensures GroupError(PrintGroup(word)) == None && Value(PrintGroup(word)) == 11 * word
  {
    hide Padded, Value, Pow10;
    Million();
    PaddedValue(11 * word, 6);
  }

  /** A right group is the print of a word. */
  lemma GroupIsPrinted(group: string)
    requires GroupError(group) == None
    ensures PrintGroup(Value(group) / 11) == group
  {
    ValuePadded(group);
    assert 11 * (Value(group) / 11) == Value(group);
  }

  predicate AllRight(groups: seq<string>) {
    forall i :: 0 <= i < |groups| ==> GroupError(groups[i]) == None
  }

  function WordOf(group: string): Word
    requires GroupError(group) == None
  {
    Value(group) / 11
  }

  /** The words of a key whose groups are right. */
  function Words(key: string): (words: seq<Word>)
    requires AllRight(Split(key))
    ensures |words| == |Split(key)|
  {
    var groups := Split(key);
    seq(|groups|, i requires 0 <= i < |groups| => WordOf(groups[i]))
  }

  /** Reading a printed key gives its words. */
  lemma ReadPrinted(words: seq<Word>)
    requires words != []
    ensures Split(PrintKey(words)) == PrintGroups(words)
    ensures AllRight(Split(PrintKey(words)))
    ensures Words(PrintKey(words)) == words
  {
    hide Split, Join, GroupError, Padded, Value;
    var groups := PrintGroups(words);
    forall i | 0 <= i < |words| ensures GroupError(groups[i]) == None && '-' !in groups[i] && Value(groups[i]) / 11 == words[i] {
      PrintedGroup(words[i]);
      NoDash(groups[i]);
    }
    SplitOfJoin(groups);
  }

  lemma NoDash(group: string)
    requires GroupError(group) == None
    ensures '-' !in group && AllDigits(group)
  {
  }

  /** Printing the words of a key with right groups gives the key. */
  lemma PrintRead(key: string)
    requires AllRight(Split(key))
    ensures PrintKey(Words(key)) == key
  {
    hide Split, Join, GroupError, Padded, Value;
    var groups, words := Split(key), Words(key);
    forall i | 0 <= i < |groups| ensures PrintGroups(words)[i] == groups[i] {
      assert groups[i] in groups;
      GroupIsPrinted(groups[i]);
      NoDash(groups[i]);
    }
    assert PrintGroups(words) == groups;
    JoinOfSplit(key);
  }

  /** The first of the first eight groups that is wrong decides; then the number of groups. */
  function KeyError(groups: seq<string>, from: nat): Option<FormatError>
    decreases |groups| - from
  {
    if from >= |groups| then if from == GROUPS then None else Some(WrongGroupCount)
    else if from >= GROUPS then Some(WrongGroupCount)
    else if GroupError(groups[from]).Some? then GroupError(groups[from])
    else KeyError(groups, from + 1)
  }

  lemma {:induction false} KeyErrorMeans(groups: seq<string>, from: nat)
    requires from <= |groups| && from <= GROUPS
    ensures KeyError(groups, from).None? <==> |groups| == GROUPS && forall i :: from <= i < |groups| ==> GroupError(groups[i]) == None
    decreases |groups| - from
  {
    hide GroupError;
    if from < |groups| && from < GROUPS && GroupError(groups[from]).None? {
      KeyErrorMeans(groups, from + 1);
    }
  }

  /** A key is accepted exactly if it is the print of eight words. */
  method ValidateRecoveryKeyFormat(recoveryKey: string) returns (error: Option<FormatError>)
    ensures error == KeyError(Split(recoveryKey), 0)
    ensures error.None? <==> exists words: seq<Word> :: |words| == GROUPS && PrintKey(words) == recoveryKey
  {
    hide Split, PrintKey, Words, Value, GroupError;
    AcceptsExactlyPrinted(recoveryKey);
    var groups := Split(recoveryKey);
    var groupCount := 0;
    for index := 0 to |groups|
      invariant groupCount == index && KeyError(groups, 0) == KeyError(groups, index)
    {
      if index >= GROUPS {
        return Some(WrongGroupCount);
      }
      var wrong := ValidateGroup(groups[index]);
      if wrong.Some? {
        return wrong;
      }
      groupCount := index + 1;
    }
    if groupCount != GROUPS {
      return Some(WrongGroupCount);
    }
    error := None;
  }

  method ValidateGroup(group: string) returns (error: Option<FormatError>)
    ensures error == GroupError(group)
  {
    if |group| != 6 || !AllDigits(group) {
      return Some(BadGroupDigits);
    }
    var value := Value(group);
    if value % 11 != 0 {
      return Some(BadChecksum);
    }
    if value / 11 > U16_MAX {
      return Some(GroupOutOfRange);
    }
    error := None;
  }

  lemma AcceptsExactlyPrinted(key: string)
    ensures KeyError(Split(key), 0).None? <==> exists words: seq<Word> :: |words| == GROUPS && PrintKey(words) == key
  {
    hide Split, PrintKey, KeyError, GroupError, Words;
    KeyErrorMeans(Split(key), 0);
    if KeyError(Split(key), 0).None? {
      PrintRead(key);
      assert |Words(key)| == GROUPS;
    }
    forall words: seq<Word> | |words| == GROUPS && PrintKey(words) == key
      ensures KeyError(Split(key), 0).None?
    {
      ReadPrinted(words);
      assert forall i :: 0 <= i < |Split(key)| ==> Split(key)[i] in Split(key);
    }
  }
}
