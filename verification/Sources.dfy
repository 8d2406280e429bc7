// A seekable byte source that delivers short reads, interruptions and failures in any order.
module Sources {
  import opened Basics

  /** The bytes of `data` in [lo, hi), as far as there are any. */
  function Window(data: seq<Byte>, lo: nat, hi: nat): seq<Byte> {
    var end := Min(hi, |data|);
    if lo <= end then data[lo..end] else []
  }

  lemma WindowEmpty(data: seq<Byte>, start: nat)
    ensures Window(data, start, start) == []
  {
  }

  lemma WindowAppend(data: seq<Byte>, start: nat, filled: nat, n: nat)
    requires n > 0 && start + filled + n <= |data|
    ensures Window(data, start, start + filled) + data[start + filled..start + filled + n]
         == Window(data, start, start + filled + n)
  {
  }

  lemma WindowSlice(data: seq<Byte>, base: nat, filled: nat, off: nat, end: nat)
    requires |Window(data, base, base + filled)| == filled && off <= end <= filled && off < filled
    ensures Window(data, base, base + filled)[off..end] == Window(data, base + off, base + end)
  {
  }

  /**
   * What the operating system answers to one `read` call: up to `1 + extra` bytes, an
   * interruption that the caller may retry, or a failure.
   */
  datatype Answer = Deliver(extra: nat) | Interrupt | Fault

  /** A schedule of short reads only: no read is interrupted or fails. */
  predicate Smooth(plan: seq<Answer>) {
    forall a <- plan :: a.Deliver?
  }

  datatype ReadResult = Count(n: nat) | Interrupted | Failed

  /**
   * `plan` lists the answers to the coming non-trivial reads; once it is used up every read
   * delivers all it can. Every run of a loop that ends makes finitely many reads, so a
   * statement about all plans is a statement about all short-read schedules.
   */
  class Source {
    const data: seq<Byte>
    var pos: nat
    var plan: seq<Answer>

    constructor (data: seq<Byte>, plan: seq<Answer>)
      ensures this.data == data && this.plan == plan && pos == 0
    {
      this.data := data;
      this.plan := plan;
      pos := 0;
    }

    method Seek(target: nat)
      modifies this`pos
      ensures pos == target
    {
      pos := target;
    }

    /** One `read` into `buf[from..to]`; it returns 0 bytes only for an empty range or at the end. */
    method Read(buf: array<Byte>, from: nat, to: nat) returns (r: ReadResult)
      requires from <= to <= buf.Length
      modifies this`pos, this`plan, buf
      ensures plan == old(plan) || (old(plan) != [] && plan == old(plan)[1..])
      ensures r.Interrupted? ==> |plan| < |old(plan)| && Interrupt in old(plan)
      ensures r.Failed? ==> Fault in old(plan)
      ensures Smooth(old(plan)) ==> r.Count? && Smooth(plan)
      ensures r.Count? ==>
                && r.n <= Min(to - from, SatSub(|data|, old(pos)))
                && (r.n == 0 <==> from == to || old(pos) >= |data|)
                && pos == old(pos) + r.n
                && (r.n > 0 ==> buf[from..from + r.n] == data[old(pos)..old(pos) + r.n])
                && buf[from + r.n..] == old(buf[from + r.n..])
      ensures !r.Count? ==> pos == old(pos) && buf[..] == old(buf[..])
      ensures buf[..from] == old(buf[..from])
    {
      var available := Min(to - from, SatSub(|data|, pos));
      var n := available;
      if from < to && plan != [] {
        var answer := plan[0];
        plan := plan[1..];
        match answer {
          case Interrupt => return Interrupted;
          case Fault => return Failed;
          case Deliver(extra) => n := Min(extra + 1, available);
        }
      }
      CopyBytes(buf, from, data, pos, n);
      pos := pos + n;
      r := Count(n);
    }
  }

  method CopyBytes(buf: array<Byte>, from: nat, data: seq<Byte>, start: nat, n: nat)
    requires from + n <= buf.Length && (n > 0 ==> start + n <= |data|)
    modifies buf
    ensures n > 0 ==> buf[from..from + n] == data[start..start + n]
    ensures buf[..from] == old(buf[..from]) && buf[from + n..] == old(buf[from + n..])
    ensures n == 0 ==> buf[..] == old(buf[..])
  {
    forall k | from <= k < from + n {
      buf[k] := data[start + k - from];
    }
  }
}
