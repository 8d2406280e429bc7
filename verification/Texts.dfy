// Strings as the parsers treat them: trimming, byte-bounded prefixes, joined paths, XML local names.
module Texts {
  /** Unicode White_Space, which Rust's `trim` removes. */
  predicate IsSpace(c: char) {
    var n := c as int;
    || 0x09 <= n <= 0x0D || n == 0x20 || n == 0x85 || n == 0xA0 || n == 0x1680
    || 0x2000 <= n <= 0x200A || n == 0x2028 || n == 0x2029 || n == 0x202F || n == 0x205F || n == 0x3000
  }

  /** Among ASCII characters the space, the tab and the line and page breaks are spaces. */
  lemma AsciiSpaces(c: char)
    requires c as int < 128
    ensures IsSpace(c) <==> c == ' ' || c == '\t' || c == '\n' || c == '\r' || c as int == 0x0B || c as int == 0x0C
  {
  }

  function TrimStart(s: string): string {
    if s != "" && IsSpace(s[0]) then TrimStart(s[1..]) else s
  }

  function TrimEnd(s: string): string {
    if s != "" && IsSpace(s[|s| - 1]) then TrimEnd(s[..|s| - 1]) else s
  }

  function Trim(s: string): string {
    TrimEnd(TrimStart(s))
  }

  /** The number of bytes of a character in UTF-8. */
  function Utf8Length(c: char): (n: nat)
    ensures 1 <= n <= 4
  {
    var code := c as int;
    if code < 0x80 then 1 else if code < 0x800 then 2 else if code < 0x1_0000 then 3 else 4
  }

  /** The UTF-8 bytes of a character, of section 3 of RFC 3629. */
  function Utf8(c: char): seq<int> {
    var n := c as int;
    if n < 0x80 then [n]
    else if n < 0x800 then [0xC0 + n / 64, 0x80 + n % 64]
    else if n < 0x1_0000 then [0xE0 + n / 4096, 0x80 + n / 64 % 64, 0x80 + n % 64]
    else [0xF0 + n / 0x4_0000, 0x80 + n / 4096 % 64, 0x80 + n / 64 % 64, 0x80 + n % 64]
  }

  function Utf8Of(s: string): seq<int> {
    if s == "" then [] else Utf8Of(s[..|s| - 1]) + Utf8(s[|s| - 1])
  }

  /** The length in bytes is that of the UTF-8 form. */
  lemma {:induction false} ByteLengthMeans(s: string)
    ensures ByteLength(s) == |Utf8Of(s)|
  {
    if s != "" {
      ByteLengthMeans(s[..|s| - 1]);
    }
  }

  function ByteLength(s: string): nat {
    if s == "" then 0 else ByteLength(s[..|s| - 1]) + Utf8Length(s[|s| - 1])
  }

  /** Cuts at the last character boundary at or before byte `max`. */
  function Truncated(s: string, max: nat): string {
    if ByteLength(s) <= max then s else Truncated(s[..|s| - 1], max)
  }

  /** Truncation gives the longest prefix that fits. */
  lemma {:induction false} TruncatedIsLongest(s: string, max: nat)
    ensures Truncated(s, max) <= s && ByteLength(Truncated(s, max)) <= max
    ensures forall n :: |Truncated(s, max)| < n <= |s| ==> ByteLength(s[..n]) > max
  {
    if ByteLength(s) > max {
      var init := s[..|s| - 1];
      TruncatedIsLongest(init, max);
      forall n | |Truncated(s, max)| < n <= |s| ensures ByteLength(s[..n]) > max {
        if n < |s| {
          assert init[..n] == s[..n];
        } else {
          assert s[..n] == s;
        }
      }
    }
  }

  /** The parts with `separator` between them. */
  function Join(parts: seq<string>, separator: string): string {
    if parts == [] then ""
    else if |parts| == 1 then parts[0]
    else Join(parts[..|parts| - 1], separator) + separator + parts[|parts| - 1]
  }

  function LowerChar(c: char): char {
    if 'A' <= c <= 'Z' then c - 'A' + 'a' else c
  }

  function Lower(s: string): string {
    seq(|s|, i requires 0 <= i < |s| => LowerChar(s[i]))
  }

  function AfterLastColon(s: string): string {
    if s == "" || s[|s| - 1] == ':' then "" else AfterLastColon(s[..|s| - 1]) + [s[|s| - 1]]
  }

  /** An XML name without its prefix, in lower case. */
  function LocalName(raw: string): string {
    Lower(AfterLastColon(raw))
  }

  /** A lower-case name without a colon is its own local name. */
  lemma {:induction false} PlainName(name: string)
    requires forall i :: 0 <= i < |name| ==> 'a' <= name[i] <= 'z'
    ensures LocalName(name) == name
  {
    PlainTail(name);
    assert Lower(name) == name;
  }

  lemma {:induction false} PlainTail(name: string)
    requires forall i :: 0 <= i < |name| ==> 'a' <= name[i] <= 'z'
    ensures AfterLastColon(name) == name
  {
    if name != "" {
      PlainTail(name[..|name| - 1]);
      assert name[..|name| - 1] + [name[|name| - 1]] == name;
    }
  }

  /** A prefix with a colon is not part of the local name, and letters are put into lower case. */
  lemma {:induction false} Prefixed(prefix: string, name: string)
    requires ':' !in name
    ensures LocalName(prefix + ":" + name) == LocalName(name) && |LocalName(name)| == |name|
    ensures forall i :: 0 <= i < |name| ==>
              LocalName(name)[i] as int == name[i] as int + if 65 <= name[i] as int <= 90 then 32 else 0
  {
    hide AfterLastColon;
    AfterColon(prefix + ":", name);
    AfterColon("", name);
    assert "" + name == name;
    LowerMeans(name);
  }

  lemma LowerMeans(name: string)
    ensures |Lower(name)| == |name|
    ensures forall i :: 0 <= i < |name| ==> Lower(name)[i] as int == name[i] as int + if 65 <= name[i] as int <= 90 then 32 else 0
  {
    forall i | 0 <= i < |name| ensures Lower(name)[i] as int == name[i] as int + if 65 <= name[i] as int <= 90 then 32 else 0 {
      assert Lower(name)[i] == LowerChar(name[i]);
    }
  }

  lemma {:induction false} AfterColon(before: string, name: string)
    requires ':' !in name && (before == "" || before[|before| - 1] == ':')
    ensures AfterLastColon(before + name) == name
    decreases |name|
  {
    if name == "" {
      assert before + name == before;
    } else {
      var init, last := name[..|name| - 1], name[|name| - 1];
      assert (before + name)[..|before + name| - 1] == before + init;
      AfterColon(before, init);
    }
  }

  /** Spaces around a text are taken off, and nothing else. */
  lemma {:induction false} TrimExact(before: string, text: string, after: string)
    requires (forall c <- before :: IsSpace(c)) && (forall c <- after :: IsSpace(c))
    requires text != "" ==> !IsSpace(text[0]) && !IsSpace(text[|text| - 1])
    ensures Trim(before + text + after) == text
    decreases |before| + |after|
  {
    hide IsSpace;
    if before != "" {
      assert (before + text + after)[1..] == before[1..] + text + after;
      TrimExact(before[1..], text, after);
    } else {
      assert before + text + after == text + after;
      if text == "" {
        assert text + after == after;
        AllSpace(after);
      } else {
        TrimBehind(text, after);
      }
    }
  }

  lemma {:induction false} AllSpace(s: string)
    requires forall c <- s :: IsSpace(c)
    ensures TrimStart(s) == ""
  {
    if s != "" {
      AllSpace(s[1..]);
    }
  }

  lemma {:induction false} TrimBehind(text: string, after: string)
    requires text != "" && !IsSpace(text[|text| - 1]) && forall c <- after :: IsSpace(c)
    ensures TrimEnd(text + after) == text
    decreases |after|
  {
    if after == "" {
      assert text + after == text;
    } else {
      assert (text + after)[..|text + after| - 1] == text + after[..|after| - 1];
      TrimBehind(text, after[..|after| - 1]);
    }
  }

  predicate EndsWith(s: string, suffix: string) {
    |suffix| <= |s| && s[|s| - |suffix|..] == suffix
  }
}
