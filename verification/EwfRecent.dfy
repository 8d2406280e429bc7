// Which chunks the cache keeps: those that were used last, as many as fit, the latest first.
module EwfRecency {
  import opened Basics
  import opened EwfImage
  import opened EwfCache

  /** One request for a chunk: a hit moves its entry, a miss inserts it. */
  function Used(cache: Cache, capacity: nat, id: nat, page: Page): Cache
    requires capacity > 0
  {
    if Lookup(cache, id).Some? then Touched(cache, id, page) else Inserted(cache, capacity, id, page)
  }

  function AfterUses(capacity: nat, uses: seq<(nat, Page)>): Cache
    requires capacity > 0
  {
    if uses == [] then []
    else Used(AfterUses(capacity, uses[..|uses| - 1]), capacity, uses[|uses| - 1].0, uses[|uses| - 1].1)
  }

  function Minus(ids: seq<nat>, id: nat): seq<nat> {
    if ids == [] then [] else (if ids[0] == id then [] else [ids[0]]) + Minus(ids[1..], id)
  }

  /** All chunks that were used, each once, the latest first. */
  function Latest(uses: seq<(nat, Page)>): seq<nat> {
    if uses == [] then [] else [uses[|uses| - 1].0] + Minus(Latest(uses[..|uses| - 1]), uses[|uses| - 1].0)
  }

  function IdsIn(cache: Cache): (ids: seq<nat>)
    ensures |ids| == |cache|
  {
    seq(|cache|, i requires 0 <= i < |cache| => cache[i].0)
  }

  function Take(ids: seq<nat>, n: nat): seq<nat> {
    if |ids| > n then ids[..n] else ids
  }

  predicate AllDiffer(ids: seq<nat>) {
    forall i, j :: 0 <= i < j < |ids| ==> ids[i] != ids[j]
  }

  lemma {:induction false} MinusHas(ids: seq<nat>, id: nat, x: nat)
    ensures x in Minus(ids, id) <==> x in ids && x != id
  {
    if ids != [] {
      MinusHas(ids[1..], id, x);
      assert ids == [ids[0]] + ids[1..];
    }
  }

  lemma {:induction false} MinusDiffers(ids: seq<nat>, id: nat)
    requires AllDiffer(ids)
    ensures AllDiffer(Minus(ids, id)) && (id !in ids ==> Minus(ids, id) == ids)
    ensures id in ids ==> |Minus(ids, id)| == |ids| - 1
  {
    if ids != [] {
      var rest := ids[1..];
      MinusDiffers(rest, id);
      assert ids == [ids[0]] + rest;
      if ids[0] != id {
        MinusHas(rest, id, ids[0]);
        forall k | 0 <= k < |Minus(rest, id)| ensures Minus(rest, id)[k] != ids[0] {
          MinusHas(rest, id, Minus(rest, id)[k]);
        }
      }
    }
  }

  lemma TakeFirst(x: nat, rest: seq<nat>, n: nat)
    requires n > 0
    ensures Take([x] + rest, n) == [x] + Take(rest, n - 1)
    ensures Take(Take(rest, n), n) == Take(rest, n) && |Take(rest, n)| <= n
  {
  }

  lemma MinusFirst(x: nat, rest: seq<nat>, id: nat)
    ensures Minus([x] + rest, id) == (if x == id then [] else [x]) + Minus(rest, id)
  {
    assert ([x] + rest)[1..] == rest;
  }

  lemma FirstDiffers(ids: seq<nat>)
    requires AllDiffer(ids) && ids != []
    ensures AllDiffer(ids[1..]) && ids[0] !in ids[1..]
  {
  }

  lemma TakeDiffers(ids: seq<nat>, n: nat)
    requires AllDiffer(ids)
    ensures AllDiffer(Take(ids, n)) && forall x <- Take(ids, n) :: x in ids
  {
  }

  /** Taking the first so many and leaving one out can be done in either order. */
  lemma {:induction false} TakeMinus(ids: seq<nat>, n: nat, id: nat)
    requires AllDiffer(ids) && n > 0
    ensures id in Take(ids, n) ==> Minus(Take(ids, n), id) == Take(Minus(ids, id), n - 1)
    ensures id !in Take(ids, n) ==> Take(Take(ids, n), n - 1) == Take(Minus(ids, id), n - 1)
    decreases |ids|
  {
    if ids != [] {
      hide Take, Minus, AllDiffer;
      var x, rest := ids[0], ids[1..];
      assert ids == [x] + rest;
      FirstDiffers(ids);
      if x == id {
        TakeMinusHere(x, rest, n);
      } else if n > 1 {
        TakeMinus(rest, n - 1, id);
        TakeMinusLater(x, rest, n, id);
      } else {
        TakeFirst(x, rest, 1);
        NoneTaken(rest);
        NoneTaken([x] + []);
        NoneTaken(Minus(ids, id));
        assert [x] + [] == [x];
      }
    }
  }

  lemma TakeMinusHere(x: nat, rest: seq<nat>, n: nat)
    requires AllDiffer(rest) && x !in rest && n > 0
    ensures x in Take([x] + rest, n) && Minus(Take([x] + rest, n), x) == Take(Minus([x] + rest, x), n - 1)
  {
    hide Take, Minus, AllDiffer;
    TakeFirst(x, rest, n);
    TakeDiffers(rest, n - 1);
    MinusFirst(x, rest, x);
    MinusFirst(x, Take(rest, n - 1), x);
    MinusDiffers(rest, x);
    MinusDiffers(Take(rest, n - 1), x);
    assert [] + rest == rest && [] + Take(rest, n - 1) == Take(rest, n - 1);
  }

  lemma TakeMinusLater(x: nat, rest: seq<nat>, n: nat, id: nat)
    requires n > 1 && x != id
    requires id in Take(rest, n - 1) ==> Minus(Take(rest, n - 1), id) == Take(Minus(rest, id), n - 2)
    requires id !in Take(rest, n - 1) ==> Take(Take(rest, n - 1), n - 2) == Take(Minus(rest, id), n - 2)
    ensures var ids := [x] + rest;
            && (id in Take(ids, n) ==> Minus(Take(ids, n), id) == Take(Minus(ids, id), n - 1))
            && (id !in Take(ids, n) ==> Take(Take(ids, n), n - 1) == Take(Minus(ids, id), n - 1))
  {
    hide Take, Minus;
    TakeFirst(x, rest, n);
    TakeFirst(x, Take(rest, n - 1), n - 1);
    TakeFirst(x, Minus(rest, id), n - 1);
    MinusFirst(x, rest, id);
    MinusFirst(x, Take(rest, n - 1), id);
  }

  lemma NoneTaken(ids: seq<nat>)
    ensures Take(ids, 0) == []
  {
  }

  lemma {:induction false} WithoutIsMinus(cache: Cache, id: nat)
    ensures IdsIn(Without(cache, id)) == Minus(IdsIn(cache), id)
    ensures Lookup(cache, id).Some? <==> id in IdsIn(cache)
  {
    if cache != [] {
      WithoutIsMinus(cache[1..], id);
      assert IdsIn(cache)[1..] == IdsIn(cache[1..]);
      assert IdsIn(cache) == [cache[0].0] + IdsIn(cache[1..]);
    }
  }

  lemma UsedIds(cache: Cache, capacity: nat, id: nat, page: Page)
    requires capacity > 0 && |cache| <= capacity && AllDiffer(IdsIn(cache))
    ensures IdsIn(Used(cache, capacity, id, page)) == Take([id] + Minus(IdsIn(cache), id), capacity)
  {
    hide Without, Lookup, Minus;
    var all := [(id, page)] + Without(cache, id);
    WithoutIsMinus(cache, id);
    MinusDiffers(IdsIn(cache), id);
    assert IdsIn(all) == [id] + IdsIn(Without(cache, id));
    if |all| > capacity {
      assert IdsIn(all[..capacity]) == IdsIn(all)[..capacity];
    }
  }

  /** After any requests the cache holds exactly the chunks that were used last. */
  lemma {:induction false} KeepsTheLatest(capacity: nat, uses: seq<(nat, Page)>)
    requires capacity > 0
    ensures AllDiffer(Latest(uses)) && IdsIn(AfterUses(capacity, uses)) == Take(Latest(uses), capacity)
  {
    if uses != [] {
      hide Latest, Without, Lookup, Minus, Take, AllDiffer, Used;
      var init, last := uses[..|uses| - 1], uses[|uses| - 1];
      var before, latest, id := AfterUses(capacity, init), Latest(init), last.0;
      KeepsTheLatest(capacity, init);
      LatestMore(uses);
      TakeFirst(id, latest, capacity);
      TakeDiffers(latest, capacity);
      UsedIds(before, capacity, id, last.1);
      MinusDiffers(Take(latest, capacity), id);
      TakeFirst(id, Minus(Take(latest, capacity), id), capacity);
      TakeFirst(id, Minus(latest, id), capacity);
      TakeMinus(latest, capacity, id);
      TakeTwice(Minus(latest, id), capacity - 1);
    }
  }

  lemma TakeTwice(ids: seq<nat>, n: nat)
    ensures Take(Take(ids, n), n) == Take(ids, n)
  {
  }

  lemma LatestMore(uses: seq<(nat, Page)>)
    requires uses != [] && AllDiffer(Latest(uses[..|uses| - 1]))
    ensures Latest(uses) == [uses[|uses| - 1].0] + Minus(Latest(uses[..|uses| - 1]), uses[|uses| - 1].0)
    ensures AllDiffer(Latest(uses))
  {
    hide Minus, AllDiffer;
    var latest, id := Latest(uses[..|uses| - 1]), uses[|uses| - 1].0;
    MinusDiffers(latest, id);
    MinusHas(latest, id, id);
    FrontDiffers(id, Minus(latest, id));
  }

  lemma FrontDiffers(x: nat, rest: seq<nat>)
    requires AllDiffer(rest) && x !in rest
    ensures AllDiffer([x] + rest)
  {
  }
}
