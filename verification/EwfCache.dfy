// The chunk cache of the EWF reader: a bounded least-recently-used list, and the three steps by
// which concurrent readers use it. Under every interleaving a reader gets the decoded page.
module EwfCache {
  import opened Basics
  import opened EwfImage

  type Page = seq<Byte>

  /** Most recently used first. */
  type Cache = seq<(nat, Page)>

  function Without(cache: Cache, id: nat): Cache {
    if cache == [] then []
    else if cache[0].0 == id then Without(cache[1..], id)
    else [cache[0]] + Without(cache[1..], id)
  }

  function Lookup(cache: Cache, id: nat): Option<Page> {
    if cache == [] then None
    else if cache[0].0 == id then Some(cache[0].1)
    else Lookup(cache[1..], id)
  }

  /** A hit moves its entry to the front. */
  function Touched(cache: Cache, id: nat, page: Page): Cache {
    [(id, page)] + Without(cache, id)
  }

  /** Inserting replaces an entry of the same chunk and evicts the least recently used one. */
  function Inserted(cache: Cache, capacity: nat, id: nat, page: Page): Cache
    requires capacity > 0
  {
    var all := [(id, page)] + Without(cache, id);
    if |all| > capacity then all[..capacity] else all
  }

  /** Bounded, one entry per chunk, and every entry is that chunk's decoded page. */
  ghost predicate Coherent(image: Image, capacity: nat, cache: Cache) {
    && |cache| <= capacity
    && (forall i, j :: 0 <= i < j < |cache| ==> cache[i].0 != cache[j].0)
    && (forall e <- cache :: image.Page(e.0) == Ok(e.1))
  }

  lemma {:induction false} WithoutMeans(cache: Cache, id: nat, e: (nat, Page))
    ensures e in Without(cache, id) <==> e in cache && e.0 != id
    ensures |Without(cache, id)| <= |cache|
  {
    if cache != [] {
      WithoutMeans(cache[1..], id, e);
      assert cache == [cache[0]] + cache[1..];
    }
  }

  lemma {:induction false} WithoutDistinct(cache: Cache, id: nat)
    requires forall i, j :: 0 <= i < j < |cache| ==> cache[i].0 != cache[j].0
    ensures var w := Without(cache, id); forall i, j :: 0 <= i < j < |w| ==> w[i].0 != w[j].0
  {
    if cache != [] {
      WithoutDistinct(cache[1..], id);
      if cache[0].0 != id {
        var rest := Without(cache[1..], id);
        forall k | 0 <= k < |rest| ensures rest[k].0 != cache[0].0 {
          WithoutMeans(cache[1..], id, rest[k]);
        }
      }
    }
  }

  lemma {:induction false} WithoutShorter(cache: Cache, id: nat)
    requires Lookup(cache, id).Some?
    ensures |Without(cache, id)| < |cache|
  {
    if cache[0].0 == id {
      WithoutMeans(cache[1..], id, cache[0]);
    } else {
      WithoutShorter(cache[1..], id);
    }
  }

  lemma {:induction false} LookupMeans(cache: Cache, id: nat)
    ensures Lookup(cache, id).Some? ==> (id, Lookup(cache, id).value) in cache
    ensures Lookup(cache, id).None? ==> forall e <- cache :: e.0 != id
  {
    if cache != [] {
      LookupMeans(cache[1..], id);
      assert cache == [cache[0]] + cache[1..];
    }
  }

  lemma FrontCoherent(image: Image, capacity: nat, cache: Cache, id: nat, page: Page)
    requires Coherent(image, capacity, cache) && image.Page(id) == Ok(page)
    ensures Coherent(image, capacity + 1, [(id, page)] + Without(cache, id))
  {
    hide Without;
    var w := Without(cache, id);
    WithoutDistinct(cache, id);
    WithoutMeans(cache, id, (id, page));
    forall e | e in w ensures image.Page(e.0) == Ok(e.1) && e.0 != id {
      WithoutMeans(cache, id, e);
    }
    var all := [(id, page)] + w;
    forall i, j | 0 <= i < j < |all| ensures all[i].0 != all[j].0 {
      assert all[j] == w[j - 1] && w[j - 1] in w;
    }
  }

  lemma TouchedCoherent(image: Image, capacity: nat, cache: Cache, id: nat)
    requires Coherent(image, capacity, cache) && Lookup(cache, id).Some?
    ensures image.Page(id) == Ok(Lookup(cache, id).value)
    ensures Coherent(image, capacity, Touched(cache, id, Lookup(cache, id).value))
  {
    LookupMeans(cache, id);
    WithoutShorter(cache, id);
    FrontCoherent(image, capacity, cache, id, Lookup(cache, id).value);
  }

  lemma InsertedCoherent(image: Image, capacity: nat, cache: Cache, id: nat, page: Page)
    requires capacity > 0 && Coherent(image, capacity, cache) && image.Page(id) == Ok(page)
    ensures Coherent(image, capacity, Inserted(cache, capacity, id, page))
  {
    FrontCoherent(image, capacity, cache, id, page);
  }

  // ---------------------------------------------------------------- concurrent readers

  /** Where a thread is in `read_chunk`; the cache lock is held within one step only. */
  datatype Thread = Idle | Missed(id: nat) | Decoded(id: nat, page: Page) | Finished(id: nat, result: EwfResult<Page>)

  datatype State = State(cache: Cache, threads: map<nat, Thread>)

  /** Thread `t` probes the cache for a chunk, decodes the chunk it missed, or inserts its page. */
  datatype Action = Probe(t: nat, id: nat) | Decode(t: nat) | Insert(t: nat)

  function Phase(st: State, t: nat): Thread {
    if t in st.threads then st.threads[t] else Idle
  }

  /** The effect of an action; one that is not enabled changes nothing. */
  function Apply(image: Image, capacity: nat, st: State, action: Action): State
    requires capacity > 0
  {
    match action
    case Probe(t, id) =>
      if Phase(st, t).Missed? || Phase(st, t).Decoded? then st
      else
        (match Lookup(st.cache, id)
         case Some(page) => State(Touched(st.cache, id, page), st.threads[t := Finished(id, Ok(page))])
         case None => State(st.cache, st.threads[t := Missed(id)]))
    case Decode(t) =>
      if !Phase(st, t).Missed? then st
      else
        var id := Phase(st, t).id;
        (match image.Page(id)
         case Ok(page) => State(st.cache, st.threads[t := Decoded(id, page)])
         case Err(error) => State(st.cache, st.threads[t := Finished(id, Err(error))]))
    case Insert(t) =>
      if !Phase(st, t).Decoded? then st
      else
        var Decoded(id, page) := Phase(st, t);
        State(Inserted(st.cache, capacity, id, page), st.threads[t := Finished(id, Ok(page))])
  }

  /** Any number of threads, any order of their steps. */
  function Run(image: Image, capacity: nat, st: State, actions: seq<Action>): State
    requires capacity > 0
  {
    if actions == [] then st
    else Apply(image, capacity, Run(image, capacity, st, actions[..|actions| - 1]), actions[|actions| - 1])
  }

  /** The cache is coherent and every thread carries and returns nothing but decoded pages. */
  ghost predicate Sound(image: Image, capacity: nat, st: State) {
    && Coherent(image, capacity, st.cache)
    && (forall t <- st.threads ::
          match st.threads[t]
          case Idle => true
          case Missed(id) => true
          case Decoded(id, page) => image.Page(id) == Ok(page)
          case Finished(id, result) => result == image.Page(id))
  }

  lemma ApplySound(image: Image, capacity: nat, st: State, action: Action)
    requires capacity > 0 && Sound(image, capacity, st)
    ensures Sound(image, capacity, Apply(image, capacity, st, action))
  {
    hide Coherent, Lookup, Touched, Inserted;
    match action
    case Probe(t, id) =>
      if Lookup(st.cache, id).Some? {
        TouchedCoherent(image, capacity, st.cache, id);
      }
    case Decode(t) =>
    case Insert(t) =>
      if Phase(st, t).Decoded? {
        InsertedCoherent(image, capacity, st.cache, Phase(st, t).id, Phase(st, t).page);
      }
  }

  /** Under every interleaving the cache stays bounded and coherent and every result is the page. */
  lemma {:induction false} EveryInterleaving(image: Image, capacity: nat, actions: seq<Action>)
    requires capacity > 0
    ensures Sound(image, capacity, Run(image, capacity, State([], map[]), actions))
  {
    hide Apply;
    if actions != [] {
      EveryInterleaving(image, capacity, actions[..|actions| - 1]);
      ApplySound(image, capacity, Run(image, capacity, State([], map[]), actions[..|actions| - 1]), actions[|actions| - 1]);
    }
  }

  /** So what a finished read returns depends neither on the schedule nor on the cache size. */
  lemma ResultIndependent(image: Image, c1: nat, a1: seq<Action>, c2: nat, a2: seq<Action>, t1: nat, t2: nat)
    requires c1 > 0 && c2 > 0
    requires var p1, p2 := Phase(Run(image, c1, State([], map[]), a1), t1), Phase(Run(image, c2, State([], map[]), a2), t2);
             p1.Finished? && p2.Finished? && p1.id == p2.id
    ensures Phase(Run(image, c1, State([], map[]), a1), t1).result == Phase(Run(image, c2, State([], map[]), a2), t2).result
  {
    EveryInterleaving(image, c1, a1);
    EveryInterleaving(image, c2, a2);
  }
}
