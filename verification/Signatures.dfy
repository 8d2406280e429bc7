// The carver's header signatures and its multi-pattern matcher. No signature contains another,
// so matches reported in end order are also in start order, one per start.
module Signatures {
  import opened Basics

  datatype Format = Jpeg | Png | Gif | Pdf | Zip | Bmp | Gzip | Rar

  const MAX_HEADER: nat := 8

  function Header(format: Format): (h: seq<Byte>)
    ensures 2 <= |h| <= MAX_HEADER
  {
    match format
    case Jpeg => [0xFF, 0xD8, 0xFF]
    case Png => [0x89, 0x50, 0x4E, 0x47, 0x0D, 0x0A, 0x1A, 0x0A]
    case Gif => [0x47, 0x49, 0x46, 0x38]
    case Pdf => [0x25, 0x50, 0x44, 0x46, 0x2D]
    case Zip => [0x50, 0x4B, 0x03, 0x04]
    case Bmp => [0x42, 0x4D]
    case Gzip => [0x1F, 0x8B, 0x08]
    case Rar => [0x52, 0x61, 0x72, 0x21, 0x1A, 0x07]
  }

  datatype Match = Match(start: nat, format: Format)

  predicate HeaderAt(data: seq<Byte>, p: nat, format: Format) {
    p + |Header(format)| <= |data| && data[p..p + |Header(format)|] == Header(format)
  }

  // ---------------------------------------------------------------- the matcher

  function EndsAt(data: seq<Byte>, end: nat, format: Format): seq<Match> {
    var p := end - |Header(format)|;
    if p >= 0 && HeaderAt(data, p, format) then [Match(p, format)] else []
  }

  function EndingAt(data: seq<Byte>, end: nat): seq<Match> {
    EndsAt(data, end, Jpeg) + EndsAt(data, end, Png) + EndsAt(data, end, Gif) + EndsAt(data, end, Pdf)
    + EndsAt(data, end, Zip) + EndsAt(data, end, Bmp) + EndsAt(data, end, Gzip) + EndsAt(data, end, Rar)
  }

  /** All matches that end at or before `end`, in order of their ends: the overlapping search. */
  function FindOverlapping(data: seq<Byte>, end: nat): seq<Match> {
    if end == 0 then [] else FindOverlapping(data, end - 1) + EndingAt(data, end)
  }

  // ---------------------------------------------------------------- one pass by start position

  /** The signature that starts at a position, if any. */
  function HitAt(data: seq<Byte>, p: nat): seq<Match> {
    if HeaderAt(data, p, Jpeg) then [Match(p, Jpeg)]
    else if HeaderAt(data, p, Png) then [Match(p, Png)]
    else if HeaderAt(data, p, Gif) then [Match(p, Gif)]
    else if HeaderAt(data, p, Pdf) then [Match(p, Pdf)]
    else if HeaderAt(data, p, Zip) then [Match(p, Zip)]
    else if HeaderAt(data, p, Bmp) then [Match(p, Bmp)]
    else if HeaderAt(data, p, Gzip) then [Match(p, Gzip)]
    else if HeaderAt(data, p, Rar) then [Match(p, Rar)]
    else []
  }

  /** The header hits that start in [lo, hi), left to right. */
  function Hits(data: seq<Byte>, lo: nat, hi: nat): seq<Match> {
    if hi <= lo then [] else Hits(data, lo, hi - 1) + HitAt(data, hi - 1)
  }

  predicate Ascending(matches: seq<Match>) {
    forall i, j :: 0 <= i < j < |matches| ==> matches[i].start < matches[j].start
  }

  // ---------------------------------------------------------------- no containment

  /** The first two bytes of a header occur inside no other header. */
  lemma HeadersDiffer(f: Format, g: Format, d: nat)
    requires d + 1 < |Header(f)| && Header(f)[d] == Header(g)[0] && Header(f)[d + 1] == Header(g)[1]
    ensures d == 0 && f == g
  {
    match f
    case Jpeg =>
    case Png =>
    case Gif =>
    case Pdf =>
    case Zip =>
    case Bmp =>
    case Gzip =>
    case Rar =>
  }

  lemma HeaderByte(data: seq<Byte>, p: nat, f: Format, i: nat)
    requires HeaderAt(data, p, f) && i < |Header(f)|
    ensures data[p + i] == Header(f)[i]
  {
    assert data[p..p + |Header(f)|][i] == data[p + i];
  }

  lemma NoContainment(data: seq<Byte>, p: nat, f: Format, q: nat, g: Format)
    requires HeaderAt(data, p, f) && HeaderAt(data, q, g)
    requires p <= q && q + |Header(g)| <= p + |Header(f)|
    ensures p == q && f == g
  {
    hide HeaderAt, Header;
    HeaderByte(data, p, f, q - p);
    HeaderByte(data, p, f, q - p + 1);
    HeaderByte(data, q, g, 0);
    HeaderByte(data, q, g, 1);
    HeadersDiffer(f, g, q - p);
  }

  /** No signature starts where another one does. */
  lemma OneHeaderPerStart(data: seq<Byte>, p: nat, f: Format, g: Format)
    requires HeaderAt(data, p, f) && HeaderAt(data, p, g)
    ensures f == g
  {
    if |Header(f)| <= |Header(g)| {
      NoContainment(data, p, g, p, f);
    } else {
      NoContainment(data, p, f, p, g);
    }
  }

  // ---------------------------------------------------------------- end order is start order

  lemma EndsAtMeans(data: seq<Byte>, end: nat, m: Match)
    ensures m in EndingAt(data, end) <==> HeaderAt(data, m.start, m.format) && m.start + |Header(m.format)| == end
  {
    hide HeaderAt, Header;
    assert m in EndsAt(data, end, m.format) <==> HeaderAt(data, m.start, m.format) && m.start + |Header(m.format)| == end;
    match m.format
    case Jpeg =>
    case Png =>
    case Gif =>
    case Pdf =>
    case Zip =>
    case Bmp =>
    case Gzip =>
    case Rar =>
  }

  /** At most one signature ends at a position. */
  lemma OneHeaderPerEnd(data: seq<Byte>, end: nat, f: Format)
    requires EndsAt(data, end, f) != []
    ensures EndingAt(data, end) == EndsAt(data, end, f)
  {
    hide Header, HeaderAt;
    forall g | g != f ensures EndsAt(data, end, g) == [] {
      var p, q := end - |Header(f)|, end - |Header(g)|;
      if EndsAt(data, end, g) != [] {
        if p <= q { NoContainment(data, p, f, q, g); } else { NoContainment(data, q, g, p, f); }
      }
    }
    hide EndsAt;
    match f
    case Jpeg =>
    case Png =>
    case Gif =>
    case Pdf =>
    case Zip =>
    case Bmp =>
    case Gzip =>
    case Rar =>
  }

  lemma EndingAtShort(data: seq<Byte>, end: nat)
    ensures |EndingAt(data, end)| <= 1
  {
    if EndingAt(data, end) != [] {
      var m := EndingAt(data, end)[0];
      EndsAtMeans(data, end, m);
      OneHeaderPerEnd(data, end, m.format);
    }
  }

  /** The matcher reports each occurrence of each signature exactly when it ends early enough. */
  lemma {:induction false} FindOverlappingMeans(data: seq<Byte>, end: nat, m: Match)
    ensures m in FindOverlapping(data, end)
       <==> HeaderAt(data, m.start, m.format) && m.start + |Header(m.format)| <= end
  {
    hide HeaderAt, Header, EndingAt;
    if end > 0 {
      FindOverlappingMeans(data, end - 1, m);
      EndsAtMeans(data, end, m);
    }
  }

  /** End order is start order. */
  lemma {:induction false} FindOverlappingAscending(data: seq<Byte>, end: nat)
    ensures Ascending(FindOverlapping(data, end))
  {
    hide HeaderAt, Header, EndingAt;
    if end > 0 {
      FindOverlappingAscending(data, end - 1);
      EndingAtShort(data, end);
      var before, now := FindOverlapping(data, end - 1), EndingAt(data, end);
      forall a, b | a in before && b in now ensures a.start < b.start {
        FindOverlappingMeans(data, end - 1, a);
        EndsAtMeans(data, end, b);
        if b.start <= a.start {
          NoContainment(data, b.start, b.format, a.start, a.format);
        }
      }
      AscendingConcat(before, now);
    }
  }

  lemma AscendingConcat(a: seq<Match>, b: seq<Match>)
    requires Ascending(a) && Ascending(b) && forall x, y | x in a && y in b :: x.start < y.start
    ensures Ascending(a + b)
  {
    forall i, j | 0 <= i < j < |a + b| ensures (a + b)[i].start < (a + b)[j].start {
      if i < |a| <= j {
        assert a[i] in a && b[j - |a|] in b;
      }
    }
  }

  lemma HitAtMeans(data: seq<Byte>, p: nat, m: Match)
    ensures |HitAt(data, p)| <= 1
    ensures m in HitAt(data, p) <==> m.start == p && HeaderAt(data, p, m.format)
  {
    hide Header, HeaderAt;
    if HitAt(data, p) != [] && HeaderAt(data, p, m.format) {
      OneHeaderPerStart(data, p, m.format, HitAt(data, p)[0].format);
    }
    match m.format
    case Jpeg =>
    case Png =>
    case Gif =>
    case Pdf =>
    case Zip =>
    case Bmp =>
    case Gzip =>
    case Rar =>
  }

  lemma {:induction false} HitsMean(data: seq<Byte>, lo: nat, hi: nat, m: Match)
    ensures m in Hits(data, lo, hi) <==> lo <= m.start < hi && HeaderAt(data, m.start, m.format)
  {
    hide HeaderAt, HitAt;
    if lo < hi {
      HitsMean(data, lo, hi - 1, m);
      HitAtMeans(data, hi - 1, m);
    }
  }

  lemma {:induction false} HitsAscending(data: seq<Byte>, lo: nat, hi: nat)
    ensures Ascending(Hits(data, lo, hi))
  {
    hide HeaderAt, HitAt;
    if lo < hi {
      HitsAscending(data, lo, hi - 1);
      var before, now := Hits(data, lo, hi - 1), HitAt(data, hi - 1);
      forall a, b | a in before && b in now ensures a.start < b.start {
        HitsMean(data, lo, hi - 1, a);
        HitAtMeans(data, hi - 1, b);
      }
      HitAtMeans(data, hi - 1, Match(0, Jpeg));
      AscendingConcat(before, now);
    }
  }

  lemma {:induction false} HitsConcat(data: seq<Byte>, lo: nat, mid: nat, hi: nat)
    requires lo <= mid <= hi
    ensures Hits(data, lo, mid) + Hits(data, mid, hi) == Hits(data, lo, hi)
  {
    hide HitAt;
    if mid < hi {
      HitsConcat(data, lo, mid, hi - 1);
    }
  }

  lemma SomeMember(a: seq<Match>, b: seq<Match>)
    requires (a != [] || b != []) && forall m :: m in a <==> m in b
    ensures a != [] && b != []
  {
    var m := if a != [] then a[0] else b[0];
    assert m in a && m in b;
  }

  /** The last member of an ascending list is its greatest, and the others are what is left without it. */
  lemma WithoutLast(a: seq<Match>)
    requires Ascending(a) && a != []
    ensures var last, others := a[|a| - 1], a[..|a| - 1];
            && Ascending(others) && a == others + [last]
            && (forall m <- a :: m.start < last.start || m == last)
            && (forall m :: m in others <==> m in a && m != last)
  {
  }

  /** Ascending lists with the same members are the same list. */
  lemma {:induction false} AscendingUnique(a: seq<Match>, b: seq<Match>)
    requires Ascending(a) && Ascending(b) && forall m :: m in a <==> m in b
    ensures a == b
  {
    hide Ascending;
    if a != [] || b != [] {
      assert a != [] && b != [] by { SomeMember(a, b); }
      WithoutLast(a);
      WithoutLast(b);
      assert a[|a| - 1] in b && b[|b| - 1] in a;
      assert a[|a| - 1] == b[|b| - 1];
      AscendingUnique(a[..|a| - 1], b[..|b| - 1]);
    }
  }

  /** A match found in a window, as a match in all of the data. */
  function Shifted(matches: seq<Match>, base: nat): (r: seq<Match>)
    ensures |r| == |matches|
    ensures forall i :: 0 <= i < |r| ==> r[i] == Match(base + matches[i].start, matches[i].format)
  {
    seq(|matches|, i requires 0 <= i < |matches| => Match(base + matches[i].start, matches[i].format))
  }

  lemma SliceOfSlice(scope: seq<Byte>, base: nat, n: nat, p: nat, h: nat)
    requires base + n <= |scope| && p + h <= n
    ensures scope[base..base + n][p..p + h] == scope[base + p..base + p + h]
  {
    var window := scope[base..base + n];
    var a, b := window[p..p + h], scope[base + p..base + p + h];
    forall i | 0 <= i < h ensures a[i] == b[i] {
      assert window[p + i] == scope[base + (p + i)];
    }
  }

  lemma HeaderInWindow(scope: seq<Byte>, base: nat, n: nat, p: nat, f: Format)
    requires base + n <= |scope| && (p + |Header(f)| <= n || base + n == |scope|)
    ensures HeaderAt(scope[base..base + n], p, f) <==> HeaderAt(scope, base + p, f)
  {
    hide Header;
    var h := |Header(f)|;
    if p + h <= n {
      var window := scope[base..base + n];
      SliceOfSlice(scope, base, n, p, h);
    }
  }

  /**
   * The matches that a window yields before the first one at or past `searchable` are exactly
   * the header hits that start in the searched part of it.
   */
  lemma WindowHits(scope: seq<Byte>, base: nat, n: nat, searchable: nat, taken: nat)
    requires base + n <= |scope| && searchable <= n
    requires searchable + MAX_HEADER <= n || base + n == |scope| || searchable == 0
    requires var all := FindOverlapping(scope[base..base + n], n);
             && taken <= |all|
             && (forall i :: 0 <= i < taken ==> all[i].start < searchable)
             && (taken < |all| ==> all[taken].start >= searchable)
    ensures Shifted(FindOverlapping(scope[base..base + n], n)[..taken], base) == Hits(scope, base, base + searchable)
  {
    hide HeaderAt, Header, FindOverlapping, Hits;
    var window := scope[base..base + n];
    var all := FindOverlapping(window, n);
    var found, hits := Shifted(all[..taken], base), Hits(scope, base, base + searchable);
    FindOverlappingAscending(window, n);
    HitsAscending(scope, base, base + searchable);
    forall m ensures m in found <==> m in hits {
      HitsMean(scope, base, base + searchable, m);
      if m.start >= base {
        var local := Match(m.start - base, m.format);
        TakenMeans(all, taken, searchable, local);
        FindOverlappingMeans(window, n, local);
        ShiftedMeans(all[..taken], base, local);
        if local.start < searchable {
          HeaderInWindow(scope, base, n, local.start, local.format);
          HeaderFits(window, local.start, local.format);
        }
      }
    }
    AscendingUnique(found, hits);
  }

  lemma HeaderFits(data: seq<Byte>, p: nat, f: Format)
    ensures HeaderAt(data, p, f) ==> p + |Header(f)| <= |data|
  {
  }

  lemma TakenMeans(all: seq<Match>, taken: nat, searchable: nat, m: Match)
    requires Ascending(all) && taken <= |all|
    requires forall i :: 0 <= i < taken ==> all[i].start < searchable
    requires taken < |all| ==> all[taken].start >= searchable
    ensures m in all[..taken] <==> m in all && m.start < searchable
  {
  }

  lemma ShiftedMeans(matches: seq<Match>, base: nat, m: Match)
    ensures Match(base + m.start, m.format) in Shifted(matches, base) <==> m in matches
    ensures forall x <- Shifted(matches, base) :: x.start >= base
    ensures Ascending(matches) ==> Ascending(Shifted(matches, base))
  {
    if m in matches {
      var i :| 0 <= i < |matches| && matches[i] == m;
      assert Shifted(matches, base)[i] == Match(base + m.start, m.format);
    }
  }
}
