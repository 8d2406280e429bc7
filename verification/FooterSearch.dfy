// The carver's streaming footer search: a rolling window over short reads finds the first place
// in the delivered bytes where a footer and its trailing bytes fit.
module FooterSearch {
  import opened Basics
  import opened Sources

  const CARVE_LENGTH_CHUNK_BYTES: nat := 65536

  /** The footer is at `p`, and the bytes that must follow it are there too. */
  predicate FitsAt(data: seq<Byte>, p: nat, footer: seq<Byte>, trailing: nat) {
    p + |footer| + trailing <= |data| && data[p..p + |footer|] == footer
  }

  /** The least position from `from` on where the footer fits. */
  function FirstFooter(data: seq<Byte>, from: nat, footer: seq<Byte>, trailing: nat): (r: Option<nat>)
    ensures r.Some? ==> from <= r.value && FitsAt(data, r.value, footer, trailing)
    ensures forall q :: from <= q < (if r.Some? then r.value else |data|) ==> !FitsAt(data, q, footer, trailing)
    decreases SatSub(|data|, from)
  {
    if FitsAt(data, from, footer, trailing) then Some(from)
    else if from >= |data| then None
    else FirstFooter(data, from + 1, footer, trailing)
  }

  /** No footer fits at a position below `limit`. */
  ghost predicate NoneBelow(data: seq<Byte>, limit: nat, footer: seq<Byte>, trailing: nat) {
    forall q: nat :: q < limit ==> !FitsAt(data, q, footer, trailing)
  }

  lemma FirstFooterIs(data: seq<Byte>, p: nat, footer: seq<Byte>, trailing: nat)
    requires FitsAt(data, p, footer, trailing) && footer != []
    requires NoneBelow(data, p, footer, trailing)
    ensures FirstFooter(data, 0, footer, trailing) == Some(p)
  {
  }

  lemma NoFooterIs(data: seq<Byte>, footer: seq<Byte>, trailing: nat)
    requires footer != [] && NoneBelow(data, |data|, footer, trailing)
    ensures FirstFooter(data, 0, footer, trailing) == None
  {
  }

  datatype FooterSearchResult = FooterSearchResult(length: Option<nat>, bytesRead: nat)

  /** What the search must find in the bytes that were delivered. */
  function Found(delivered: seq<Byte>, footer: seq<Byte>, trailing: nat): Option<nat> {
    match FirstFooter(delivered, 0, footer, trailing)
    case None => None
    case Some(p) => Some(p + |footer| + trailing)
  }

  /** The last `keep` bytes, kept between two reads: enough for a footer that is not complete yet. */
  function Tail(delivered: seq<Byte>, keep: nat): (tail: seq<Byte>)
    ensures |tail| == Min(|delivered|, keep)
  {
    delivered[|delivered| - Min(|delivered|, keep)..]
  }

  /** A footer that fits only now starts in the tail; what fitted before was found before. */
  lemma NewFooterStartsInTail(before: seq<Byte>, read: seq<Byte>, footer: seq<Byte>, trailing: nat, q: nat)
    requires footer != [] && !FitsAt(before, q, footer, trailing) && FitsAt(before + read, q, footer, trailing)
    ensures q + |Tail(before, |footer| + trailing - 1)| >= |before|
  {
    assert q + |footer| <= |before| ==> (before + read)[q..q + |footer|] == before[q..q + |footer|];
  }

  /** Positions in the window are positions in all delivered bytes, shifted by the window's base. */
  lemma FitsInWindow(delivered: seq<Byte>, base: nat, pos: nat, footer: seq<Byte>, trailing: nat)
    requires base <= |delivered|
    ensures FitsAt(delivered[base..], pos, footer, trailing) <==> FitsAt(delivered, base + pos, footer, trailing)
  {
    if base + pos + |footer| + trailing <= |delivered| {
      assert delivered[base..][pos..pos + |footer|] == delivered[base + pos..base + pos + |footer|];
    }
  }

  /** The scan of one window, left to right. */
  method SearchWindow(window: seq<Byte>, footer: seq<Byte>, trailing: nat) returns (r: Option<nat>)
    requires footer != []
    ensures r.Some? ==> FitsAt(window, r.value, footer, trailing)
    ensures NoneBelow(window, if r.Some? then r.value else |window|, footer, trailing)
  {
    if |window| >= |footer| + trailing {
      for pos := 0 to |window| - |footer| + 1
        invariant NoneBelow(window, pos, footer, trailing)
      {
        if window[pos..pos + |footer|] == footer && pos + |footer| + trailing <= |window| {
          return Some(pos);
        }
      }
    }
    r := None;
  }

  lemma NothingYet(footer: seq<Byte>, trailing: nat)
    ensures NoneBelow([], 0, footer, trailing)
    ensures footer != [] ==> Found([], footer, trailing) == None
    ensures footer != [] ==> Tail([], |footer| + trailing - 1) == []
  {
  }

  /** The next window is the end of the delivered bytes, and its own end is the next tail. */
  lemma TailWindow(before: seq<Byte>, read: seq<Byte>, keep: nat)
    ensures |Tail(before, keep)| <= |before|
    ensures Tail(before, keep) + read == (before + read)[|before| - |Tail(before, keep)|..]
    ensures Tail(Tail(before, keep) + read, keep) == Tail(before + read, keep)
  {
  }

  /** Searching the window decides where the footer first fits in all delivered bytes. */
  lemma WindowDecides(before: seq<Byte>, read: seq<Byte>, footer: seq<Byte>, trailing: nat, pos: Option<nat>)
    requires footer != [] && NoneBelow(before, |before|, footer, trailing)
    requires var window := Tail(before, |footer| + trailing - 1) + read;
             && NoneBelow(window, if pos.Some? then pos.value else |window|, footer, trailing)
             && (pos.Some? ==> FitsAt(window, pos.value, footer, trailing))
    ensures var base := |before| - |Tail(before, |footer| + trailing - 1)|;
            && base >= 0
            && NoneBelow(before + read, if pos.Some? then base + pos.value else |before + read|, footer, trailing)
            && (pos.Some? ==> FitsAt(before + read, base + pos.value, footer, trailing))
  {
    var delivered, keep := before + read, |footer| + trailing - 1;
    var base := |before| - |Tail(before, keep)|;
    TailWindow(before, read, keep);
    forall q: nat | q < (if pos.Some? then base + pos.value else |delivered|)
      ensures !FitsAt(delivered, q, footer, trailing)
    {
      if q >= base {
        FitsInWindow(delivered, base, q - base, footer, trailing);
      } else if FitsAt(delivered, q, footer, trailing) {
        NewFooterStartsInTail(before, read, footer, trailing, q);
      }
    }
    if pos.Some? {
      FitsInWindow(delivered, base, pos.value, footer, trailing);
    }
  }

  lemma NothingFound(delivered: seq<Byte>, footer: seq<Byte>, trailing: nat)
    requires footer != [] && NoneBelow(delivered, |delivered|, footer, trailing)
    ensures Found(delivered, footer, trailing) == None
  {
    NoFooterIs(delivered, footer, trailing);
  }

  lemma WindowPrefix(data: seq<Byte>, start: nat, read: nat, available: nat)
    requires read <= available
    ensures Window(data, start, start + read) <= Window(data, start, start + available)
  {
  }

  lemma WindowAtEnd(data: seq<Byte>, start: nat, read: nat, available: nat)
    requires read == available || start + read >= |data|
    ensures read <= available ==> Window(data, start, start + read) == Window(data, start, start + available)
  {
  }

  /** A footer found in a prefix of what the source delivers is the first one of all of it. */
  lemma FoundEarly(part: seq<Byte>, all: seq<Byte>, p: nat, footer: seq<Byte>, trailing: nat)
    requires footer != [] && part <= all
    requires FitsAt(part, p, footer, trailing) && NoneBelow(part, p, footer, trailing)
    ensures Found(all, footer, trailing) == Some(p + |footer| + trailing)
  {
    forall q: nat | q <= p ensures FitsAt(all, q, footer, trailing) <==> FitsAt(part, q, footer, trailing) {
      assert all[q..q + |footer|] == part[q..q + |footer|];
    }
    FirstFooterIs(all, p, footer, trailing);
  }

  /** One short read at the current position; `None` is a failed or interrupted read. */
  method ReadMore(source: Source, buffer: array<Byte>, wanted: nat, ghost start: nat, ghost done: nat)
    returns (bytes: Option<seq<Byte>>)
    requires 0 < wanted <= buffer.Length && source.pos == start + done
    requires |Window(source.data, start, start + done)| == done
    modifies source`pos, source`plan, buffer
    ensures Smooth(old(source.plan)) ==> bytes.Some? && Smooth(source.plan)
    ensures bytes.Some? ==>
              && |bytes.value| <= wanted && source.pos == start + done + |bytes.value|
              && Window(source.data, start, start + done) + bytes.value == Window(source.data, start, start + done + |bytes.value|)
              && (bytes.value == [] ==> start + done >= |source.data|)
  {
    hide Window, Smooth;
    var read := source.Read(buffer, 0, wanted);
    if !read.Count? {
      return None;
    }
    if read.n == 0 {
      return Some([]);
    }
    WindowAppend(source.data, start, done, read.n);
    bytes := Some(buffer[..read.n]);
  }

  /** One read: the kept tail and the new bytes form the window; its end is kept again. */
  method SearchRead(tail: seq<Byte>, read: seq<Byte>, bytesRead: nat, footer: seq<Byte>, trailing: nat,
                    ghost before: seq<Byte>)
    returns (length: Option<nat>, newTail: seq<Byte>)
    requires footer != [] && |before| == bytesRead && tail == Tail(before, |footer| + trailing - 1)
    requires NoneBelow(before, |before|, footer, trailing)
    ensures length.Some? ==>
              && length.value >= |footer| + trailing
              && var p := length.value - |footer| - trailing;
                 FitsAt(before + read, p, footer, trailing) && NoneBelow(before + read, p, footer, trailing)
    ensures length.None? ==> NoneBelow(before + read, |before + read|, footer, trailing)
    ensures newTail == Tail(before + read, |footer| + trailing - 1)
  {
    hide FitsAt, NoneBelow, Tail, FirstFooter, Found;
    var keep := |footer| + trailing - 1;
    TailWindow(before, read, keep);
    var windowBase := bytesRead - |tail|;
    var window := tail + read;
    var pos := SearchWindow(window, footer, trailing);
    WindowDecides(before, read, footer, trailing, pos);
    newTail := Tail(window, keep);
    length := if pos.Some? then Some(windowBase + pos.value + |footer| + trailing) else None;
  }

  /**
   * For every short-read schedule the search finds the first footer of the delivered bytes, and
   * reports none only after reading all of them. `None` is a failed read.
   */
  method StreamFooterSearch(source: Source, start: nat, available: nat, footer: seq<Byte>, trailing: nat)
    returns (r: Option<FooterSearchResult>)
    modifies source
    ensures Smooth(old(source.plan)) ==> r.Some? && Smooth(source.plan)
    ensures r.Some? && footer != [] ==> r.value.length == Found(Window(source.data, start, start + available), footer, trailing)
    ensures r.Some? && footer != [] && r.value.length.None? ==>
              r.value.bytesRead == |Window(source.data, start, start + available)|
    ensures r.Some? && footer == [] ==> r.value == FooterSearchResult(None, 0)
  {
    hide Window, Found, FitsAt, NoneBelow, Tail, Smooth;
    WindowEmpty(source.data, start);
    NothingYet(footer, trailing);
    if footer == [] || available == 0 {
      return Some(FooterSearchResult(None, 0));
    }
    source.Seek(start);
    var buffer := new Byte[CARVE_LENGTH_CHUNK_BYTES];
    var tail: seq<Byte> := [];
    var bytesRead := 0;
    var keep := |footer| + trailing - 1;
    ghost var delivered: seq<Byte> := [];
    ghost var all := Window(source.data, start, start + available);
    while bytesRead < available
      invariant bytesRead <= available && source.pos == start + bytesRead
      invariant delivered == Window(source.data, start, start + bytesRead) && |delivered| == bytesRead
      invariant tail == Tail(delivered, keep)
      invariant NoneBelow(delivered, bytesRead, footer, trailing)
      invariant Smooth(old(source.plan)) ==> Smooth(source.plan)
    {
      var wanted := Min(available - bytesRead, buffer.Length);
      var bytes := ReadMore(source, buffer, wanted, start, bytesRead);
      if bytes.None? {
        return None;
      }
      if bytes.value == [] {
        break;
      }
      var length;
      length, tail := SearchRead(tail, bytes.value, bytesRead, footer, trailing, delivered);
      delivered := delivered + bytes.value;
      bytesRead := bytesRead + |bytes.value|;
      if length.Some? {
        WindowPrefix(source.data, start, bytesRead, available);
        FoundEarly(delivered, all, length.value - |footer| - trailing, footer, trailing);
        return Some(FooterSearchResult(length, bytesRead));
      }
    }
    WindowAtEnd(source.data, start, bytesRead, available);
    NothingFound(delivered, footer, trailing);
    r := Some(FooterSearchResult(None, bytesRead));
  }
}
