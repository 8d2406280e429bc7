// The Adler-32 checksum of EWF chunks: blocks of 5552 bytes between reductions, in 32-bit words.
module Adler {
  import opened Basics

  const MOD_ADLER: nat := 65521
  const BLOCK: nat := 5552

  /** The two sums of sections 2.2 and 9 of RFC 1950, reduced after every byte. */
  function SumA(data: seq<Byte>): (a: nat)
    ensures a < MOD_ADLER
  {
    if data == [] then 1 else (SumA(data[..|data| - 1]) + data[|data| - 1]) % MOD_ADLER
  }

  function SumB(data: seq<Byte>): (b: nat)
    ensures b < MOD_ADLER
  {
    if data == [] then 0 else (SumB(data[..|data| - 1]) + SumA(data)) % MOD_ADLER
  }

  function Checksum(data: seq<Byte>): nat {
    SumB(data) * 65536 + SumA(data)
  }

  /** All bytes together, and each byte as often as there are bytes from it to the end. */
  function Total(data: seq<Byte>, k: nat): nat
    requires k <= |data|
  {
    if k == 0 then 0 else Total(data, k - 1) + data[k - 1]
  }

  function Weighted(data: seq<Byte>, k: nat): nat
    requires k <= |data|
  {
    if k == 0 then 0 else Weighted(data, k - 1) + (|data| - (k - 1)) * data[k - 1]
  }

  lemma {:induction false} OneByteMore(data: seq<Byte>, last: Byte, k: nat)
    requires k <= |data|
    ensures Total(data + [last], k) == Total(data, k)
    ensures Weighted(data + [last], k) == Weighted(data, k) + Total(data, k)
  {
    if k > 0 {
      OneByteMore(data, last, k - 1);
      assert (|data| + 1 - (k - 1)) * data[k - 1] == (|data| - (k - 1)) * data[k - 1] + data[k - 1];
    }
  }

  /** The checksum in closed form: one more than the total, and the length with the weighted total, modulo 65521. */
  lemma {:induction false} ClosedForm(data: seq<Byte>)
    ensures Checksum(data) == (|data| + Weighted(data, |data|)) % 65521 * 65536 + (1 + Total(data, |data|)) % 65521
    ensures SumA(data) == (1 + Total(data, |data|)) % 65521 && SumB(data) == (|data| + Weighted(data, |data|)) % 65521
  {
    hide SumA, SumB, Total, Weighted;
    if data == [] {
      EmptySums();
    } else {
      var init, last := data[..|data| - 1], data[|data| - 1];
      assert data == init + [last];
      ClosedForm(init);
      TotalsMore(init, last);
      SumsMore(init, last);
      var total, weighted := Total(init, |init|), Weighted(init, |init|);
      SumsClosed(SumA(init), SumB(init), total, weighted, |init|, last);
    }
  }

  lemma SumsClosed(a: nat, b: nat, total: nat, weighted: nat, n: nat, last: nat)
    requires a == (1 + total) % MOD_ADLER && b == (n + weighted) % MOD_ADLER
    ensures (a + last) % MOD_ADLER == (1 + total + last) % MOD_ADLER
    ensures (b + (a + last) % MOD_ADLER) % MOD_ADLER == (n + 1 + weighted + total + last) % MOD_ADLER
  {
    var next := (a + last) % MOD_ADLER;
    ModAdd(a, 1 + total, last);
    ModAdd(b, n + weighted, next);
    ModAdd(next, 1 + total + last, n + weighted);
  }

  lemma TotalsMore(init: seq<Byte>, last: Byte)
    ensures var data := init + [last];
            && Total(data, |data|) == Total(init, |init|) + last
            && Weighted(data, |data|) == Weighted(init, |init|) + Total(init, |init|) + last
  {
    OneByteMore(init, last, |init|);
  }

  lemma SumsMore(init: seq<Byte>, last: Byte)
    ensures var data := init + [last];
            SumA(data) == (SumA(init) + last) % MOD_ADLER && SumB(data) == (SumB(init) + SumA(data)) % MOD_ADLER
  {
    assert (init + [last])[..|init|] == init;
  }

  lemma ModAdd(x: nat, y: nat, z: nat)
    requires x % MOD_ADLER == y % MOD_ADLER
    ensures (x + z) % MOD_ADLER == (y + z) % MOD_ADLER
  {
  }

  /** The largest second word after `k` bytes of a block: all bytes 255, both words reduced before. */
  function WorstB(k: nat): nat {
    if k == 0 then 65520 else WorstB(k - 1) + 65520 + 255 * k
  }

  lemma {:induction false} WorstBClosed(k: nat)
    ensures 2 * WorstB(k) == 2 * 65520 * (k + 1) + 255 * k * (k + 1)
  {
    if k > 0 {
      WorstBClosed(k - 1);
    }
  }

  lemma {:induction false} WorstBGrows(j: nat, k: nat)
    requires j <= k
    ensures WorstB(j) <= WorstB(k)
  {
    if j < k {
      WorstBGrows(j, k - 1);
    }
  }

  /** A block of 5552 bytes always fits 32-bit words, and no longer block would. */
  lemma BlockIsLargest(k: nat)
    ensures k <= BLOCK <==> WorstB(k) <= U32_MAX
  {
    WorstBClosed(BLOCK);
    WorstBClosed(BLOCK + 1);
    if k <= BLOCK {
      WorstBGrows(k, BLOCK);
    } else {
      WorstBGrows(BLOCK + 1, k);
    }
  }

  lemma EmptySums()
    ensures SumA([]) == 1 && SumB([]) == 0 && Total([], 0) == 0 && Weighted([], 0) == 0
  {
  }

  /** Adding a byte to words that are only congruent to the sums keeps them congruent. */
  lemma AddByte(data: seq<Byte>, i: nat, a: nat, b: nat)
    requires i < |data| && a % MOD_ADLER == SumA(data[..i]) && b % MOD_ADLER == SumB(data[..i])
    ensures (a + data[i]) % MOD_ADLER == SumA(data[..i + 1])
    ensures (b + (a + data[i])) % MOD_ADLER == SumB(data[..i + 1])
  {
    assert data[..i + 1][..i] == data[..i];
    var sa, sb := SumA(data[..i]), SumB(data[..i]);
    ModAdd(a, sa, data[i]);
    ModAdd(b, sb, a + data[i]);
    ModAdd(a + data[i], SumA(data[..i + 1]), sb);
  }

  /** The checksum as computed: its words never leave 32 bits, and it is the bytewise definition. */
  method Adler32(data: seq<Byte>) returns (sum: U32)
    ensures sum == Checksum(data)
  {
    hide SumA, SumB;
    var a: U32, b: U32 := 1, 0;
    var start := 0;
    assert data[..0] == [];
    EmptySums();
    while start < |data|
      invariant start <= |data| && a == SumA(data[..start]) && b == SumB(data[..start])
    {
      var end := Min(start + BLOCK, |data|);
      var i := start;
      while i < end
        invariant start <= i <= end
        invariant a % MOD_ADLER == SumA(data[..i]) && b % MOD_ADLER == SumB(data[..i])
        invariant a <= 65520 + 255 * (i - start) && b <= WorstB(i - start)
      {
        AddByte(data, i, a, b);
        BlockIsLargest(i + 1 - start);
        a := a + data[i];
        b := b + a;
        i := i + 1;
      }
      a := a % MOD_ADLER;
      b := b % MOD_ADLER;
      start := end;
    }
    assert data[..|data|] == data;
    sum := b * 65536 + a;
  }

  /** One block of 0xFF bytes that starts from fully reduced words reaches the worst case. */
  function Unreduced(a: nat, b: nat, k: nat): (nat, nat) {
    if k == 0 then (a, b)
    else
      var (x, y) := Unreduced(a, b, k - 1);
      (x + 255, y + x + 255)
  }

  lemma {:induction false} WorstCaseIsReached(k: nat)
    ensures Unreduced(65520, 65520, k) == (65520 + 255 * k, WorstB(k))
  {
    if k > 0 {
      WorstCaseIsReached(k - 1);
    }
  }
}
