// What a complete tree export is: the files of every directory below the start, by structural
// recursion to the depth guard, on any directory graph.
module ExportTree {
  import opened Basics

  const MAX_PATH_DEPTH: nat := 1024
  const EXPORT_MAX_BYTES: nat := 1024 * 1024 * 1024

  /**
   * One directory entry: a subdirectory, a file with its declared size and what reading it gives,
   * an entry that cannot be read, or one of the two self references.
   */
  datatype Child<+H> = Dir(name: string, handle: H) | File(name: string, size: nat, content: Option<seq<Byte>>) | Bad | Dot

  datatype Listing<+H> = Unreadable | Listed(children: seq<Child<H>>, diagnostics: nat)

  /** A file to export, with the path components below the start. */
  datatype Exported = Exported(path: seq<string>, content: seq<Byte>)

  datatype Item<+H> = Item(handle: H, rel: seq<string>)

  // ---------------------------------------------------------------- structural recursion

  predicate FileClean<H>(child: Child<H>) {
    child.File? ==> child.size <= EXPORT_MAX_BYTES && child.content.Some? && |child.content.value| <= EXPORT_MAX_BYTES
  }

  function ChildRow<H>(c: Child<H>, rel: seq<string>): seq<Exported> {
    if c.File? && c.content.Some? then [Exported(rel + [c.name], c.content.value)] else []
  }

  function ChildItem<H>(c: Child<H>, rel: seq<string>): seq<Item<H>> {
    if c.Dir? then [Item(c.handle, rel + [c.name])] else []
  }

  predicate ChildClean<H>(c: Child<H>, rel: seq<string>) {
    !c.Bad? && FileClean(c) && (c.Dir? ==> |rel| + 1 <= MAX_PATH_DEPTH)
  }

  /** The files among the first `n` children, in listing order. */
  function FileRows<H>(children: seq<Child<H>>, rel: seq<string>, n: nat): seq<Exported>
    requires n <= |children|
  {
    if n == 0 then [] else FileRows(children, rel, n - 1) + ChildRow(children[n - 1], rel)
  }

  /** The subdirectories among the first `n` children, in listing order. */
  function DirItems<H>(children: seq<Child<H>>, rel: seq<string>, n: nat): seq<Item<H>>
    requires n <= |children|
  {
    if n == 0 then [] else DirItems(children, rel, n - 1) + ChildItem(children[n - 1], rel)
  }

  /** All files below a directory: its own, then those below its subdirectories, last one first. */
  function RowsOf<H>(list: (H, seq<string>) -> Listing<H>, h: H, rel: seq<string>): seq<Exported>
    decreases SatSub(MAX_PATH_DEPTH + 1, |rel|), 1, 0
  {
    match list(h, rel)
    case Unreadable => []
    case Listed(children, _) =>
      FileRows(children, rel, |children|) + if |rel| <= MAX_PATH_DEPTH then SubRows(list, children, rel, |children|) else []
  }

  function SubRows<H>(list: (H, seq<string>) -> Listing<H>, children: seq<Child<H>>, rel: seq<string>, n: nat): seq<Exported>
    requires n <= |children| && |rel| <= MAX_PATH_DEPTH
    decreases SatSub(MAX_PATH_DEPTH + 1, |rel|), 0, n
  {
    if n == 0 then []
    else
      var c := children[n - 1];
      (if c.Dir? then RowsOf(list, c.handle, rel + [c.name]) else []) + SubRows(list, children, rel, n - 1)
  }

  /** Nothing below a directory is unreadable, oversized or too deep. */
  ghost predicate Clean<H>(list: (H, seq<string>) -> Listing<H>, h: H, rel: seq<string>)
    decreases SatSub(MAX_PATH_DEPTH + 1, |rel|), 1, 0
  {
    match list(h, rel)
    case Unreadable => false
    case Listed(children, diagnostics) =>
      && diagnostics == 0 && |rel| <= MAX_PATH_DEPTH && SubClean(list, children, rel, |children|)
  }

  ghost predicate SubClean<H>(list: (H, seq<string>) -> Listing<H>, children: seq<Child<H>>, rel: seq<string>, n: nat)
    requires n <= |children| && |rel| <= MAX_PATH_DEPTH
    decreases SatSub(MAX_PATH_DEPTH + 1, |rel|), 0, n
  {
    n > 0 ==>
      var c := children[n - 1];
      && SubClean(list, children, rel, n - 1) && ChildClean(c, rel)
      && (c.Dir? ==> Clean(list, c.handle, rel + [c.name]))
  }

  // ---------------------------------------------------------------- stacks

  /** The files that a stack of pending directories still stands for, top first. */
  function StackRows<H>(list: (H, seq<string>) -> Listing<H>, stack: seq<Item<H>>): seq<Exported> {
    if stack == [] then []
    else
      var top := stack[|stack| - 1];
      RowsOf(list, top.handle, top.rel) + StackRows(list, stack[..|stack| - 1])
  }

  ghost predicate StackClean<H>(list: (H, seq<string>) -> Listing<H>, stack: seq<Item<H>>) {
    forall item <- stack :: Clean(list, item.handle, item.rel)
  }

  lemma {:induction false} StackRowsConcat<H>(list: (H, seq<string>) -> Listing<H>, a: seq<Item<H>>, b: seq<Item<H>>)
    ensures StackRows(list, a + b) == StackRows(list, b) + StackRows(list, a)
    decreases |b|
  {
    hide RowsOf;
    if b == [] {
      assert a + b == a;
    } else {
      var init := b[..|b| - 1];
      assert (a + b)[..|a + b| - 1] == a + init;
      StackRowsConcat(list, a, init);
    }
  }

  lemma {:induction false} SubRowsAreStackRows<H>(list: (H, seq<string>) -> Listing<H>, children: seq<Child<H>>, rel: seq<string>, n: nat)
    requires n <= |children| && |rel| <= MAX_PATH_DEPTH
    ensures SubRows(list, children, rel, n) == StackRows(list, DirItems(children, rel, n))
  {
    hide RowsOf;
    if n > 0 {
      SubRowsAreStackRows(list, children, rel, n - 1);
      var c, before := children[n - 1], DirItems(children, rel, n - 1);
      if c.Dir? {
        StackRowsConcat(list, before, [Item(c.handle, rel + [c.name])]);
        OneItem(list, Item(c.handle, rel + [c.name]));
      } else {
        assert DirItems(children, rel, n) == before;
      }
    }
  }

  lemma OneItem<H>(list: (H, seq<string>) -> Listing<H>, item: Item<H>)
    ensures StackRows(list, [item]) == RowsOf(list, item.handle, item.rel)
  {
    hide RowsOf;
    assert [item][..0] == [];
  }

  /** Every child among the first `n` is readable, small enough and not too deep. */
  ghost predicate ListingClean<H>(children: seq<Child<H>>, rel: seq<string>, n: nat)
    requires n <= |children|
  {
    forall i :: 0 <= i < n ==> ChildClean(children[i], rel)
  }

  /** One more entry of a listing. */
  lemma ListingStep<H>(children: seq<Child<H>>, rel: seq<string>, n: nat)
    requires n < |children|
    ensures FileRows(children, rel, 0) == [] && DirItems(children, rel, 0) == [] && ListingClean(children, rel, 0)
    ensures FileRows(children, rel, n + 1) == FileRows(children, rel, n) + ChildRow(children[n], rel)
    ensures DirItems(children, rel, n + 1) == DirItems(children, rel, n) + ChildItem(children[n], rel)
    ensures ListingClean(children, rel, n + 1) <==> ListingClean(children, rel, n) && ChildClean(children[n], rel)
  {
  }

  lemma {:induction false} FileRowsPrefix<H>(children: seq<Child<H>>, rel: seq<string>, n: nat, m: nat)
    requires n <= m <= |children|
    ensures FileRows(children, rel, n) <= FileRows(children, rel, m)
    decreases m
  {
    if n < m {
      FileRowsPrefix(children, rel, n, m - 1);
    }
  }

  lemma {:induction false} SubCleanMeans<H>(list: (H, seq<string>) -> Listing<H>, children: seq<Child<H>>, rel: seq<string>, n: nat)
    requires n <= |children| && |rel| <= MAX_PATH_DEPTH
    ensures SubClean(list, children, rel, n) <==> ListingClean(children, rel, n) && StackClean(list, DirItems(children, rel, n))
  {
    hide Clean;
    if n > 0 {
      SubCleanMeans(list, children, rel, n - 1);
    }
  }

  /** Taking a directory off the stack and putting its subdirectories on it: the files. */
  lemma ExpandRows<H>(list: (H, seq<string>) -> Listing<H>, rest: seq<Item<H>>, top: Item<H>)
    requires list(top.handle, top.rel).Listed? && |top.rel| <= MAX_PATH_DEPTH
    ensures var children := list(top.handle, top.rel).children;
            StackRows(list, rest + [top])
            == FileRows(children, top.rel, |children|) + StackRows(list, rest + DirItems(children, top.rel, |children|))
  {
    hide FileRows, DirItems, SubRows, StackRows;
    var children := list(top.handle, top.rel).children;
    var files, items := FileRows(children, top.rel, |children|), DirItems(children, top.rel, |children|);
    StackRowsConcat(list, rest, [top]);
    OneItem(list, top);
    SubRowsAreStackRows(list, children, top.rel, |children|);
    StackRowsConcat(list, rest, items);
    assert (files + StackRows(list, items)) + StackRows(list, rest) == files + (StackRows(list, items) + StackRows(list, rest));
  }

  /** The same for what is clean below the stack. */
  lemma ExpandClean<H>(list: (H, seq<string>) -> Listing<H>, rest: seq<Item<H>>, top: Item<H>)
    requires list(top.handle, top.rel).Listed? && |top.rel| <= MAX_PATH_DEPTH && list(top.handle, top.rel).diagnostics == 0
    requires ListingClean(list(top.handle, top.rel).children, top.rel, |list(top.handle, top.rel).children|)
    ensures var children := list(top.handle, top.rel).children;
            StackClean(list, rest + DirItems(children, top.rel, |children|)) <==> StackClean(list, rest + [top])
  {
    hide DirItems, SubClean, ListingClean;
    var children := list(top.handle, top.rel).children;
    var items := DirItems(children, top.rel, |children|);
    SubCleanMeans(list, children, top.rel, |children|);
    assert Clean(list, top.handle, top.rel) <==> StackClean(list, items);
    hide Clean;
    assert top in rest + [top];
    assert forall item <- rest :: item in rest + [top] && item in rest + items;
    assert forall item <- items :: item in rest + items;
  }

  /** The files exported so far and the stack together still make up the whole tree. */
  ghost predicate Pending<H>(list: (H, seq<string>) -> Listing<H>, start: H, stack: seq<Item<H>>, exported: seq<Exported>) {
    && exported + StackRows(list, stack) == RowsOf(list, start, [])
    && (StackClean(list, stack) <==> Clean(list, start, []))
  }

  lemma PendingInit<H>(list: (H, seq<string>) -> Listing<H>, start: H)
    ensures Pending(list, start, [Item(start, [])], [])
  {
    hide RowsOf, Clean;
    OneItem(list, Item(start, []));
  }

  lemma PendingStep<H>(list: (H, seq<string>) -> Listing<H>, start: H, rest: seq<Item<H>>, top: Item<H>, before: seq<Exported>)
    requires Pending(list, start, rest + [top], before) && |top.rel| <= MAX_PATH_DEPTH
    requires list(top.handle, top.rel).Listed? && list(top.handle, top.rel).diagnostics == 0
    requires ListingClean(list(top.handle, top.rel).children, top.rel, |list(top.handle, top.rel).children|)
    ensures var children := list(top.handle, top.rel).children;
            Pending(list, start, rest + DirItems(children, top.rel, |children|), before + FileRows(children, top.rel, |children|))
  {
    var children := list(top.handle, top.rel).children;
    ExpandRows(list, rest, top);
    ExpandClean(list, rest, top);
    hide RowsOf, Clean, StackClean, StackRows, ListingClean, FileRows, DirItems;
    var rows, after := FileRows(children, top.rel, |children|), rest + DirItems(children, top.rel, |children|);
    assert (before + rows) + StackRows(list, after) == before + (rows + StackRows(list, after));
  }

  /** What is exported begins the rows of the whole tree. */
  lemma PendingPrefix<H>(list: (H, seq<string>) -> Listing<H>, start: H, stack: seq<Item<H>>, exported: seq<Exported>)
    requires Pending(list, start, stack, exported)
    ensures exported <= RowsOf(list, start, [])
  {
    hide RowsOf, StackRows, Clean;
    assert exported <= exported + StackRows(list, stack);
  }

  /** So do the files of the next directory after it. */
  lemma PendingRows<H>(list: (H, seq<string>) -> Listing<H>, start: H, rest: seq<Item<H>>, top: Item<H>, before: seq<Exported>)
    requires Pending(list, start, rest + [top], before) && list(top.handle, top.rel).Listed? && |top.rel| <= MAX_PATH_DEPTH
    ensures var children := list(top.handle, top.rel).children;
            before + FileRows(children, top.rel, |children|) <= RowsOf(list, start, [])
  {
    hide RowsOf, StackRows, Clean, FileRows;
    ExpandRows(list, rest, top);
    var children := list(top.handle, top.rel).children;
    var files := FileRows(children, top.rel, |children|);
    var others := StackRows(list, rest + DirItems(children, top.rel, |children|));
    assert before + (files + others) == (before + files) + others;
  }

  lemma PendingDone<H>(list: (H, seq<string>) -> Listing<H>, start: H, exported: seq<Exported>)
    requires Pending(list, start, [], exported)
    ensures Clean(list, start, []) && exported == RowsOf(list, start, [])
  {
    hide RowsOf, Clean;
    assert exported + [] == exported;
  }

  /** The top of a stack that still makes up a clean tree lists cleanly. */
  lemma PendingClean<H>(list: (H, seq<string>) -> Listing<H>, start: H, rest: seq<Item<H>>, top: Item<H>, before: seq<Exported>)
    requires Pending(list, start, rest + [top], before) && Clean(list, start, []) && |top.rel| <= MAX_PATH_DEPTH
    ensures list(top.handle, top.rel).Listed? && list(top.handle, top.rel).diagnostics == 0
    ensures ListingClean(list(top.handle, top.rel).children, top.rel, |list(top.handle, top.rel).children|)
  {
    hide RowsOf, StackRows;
    assert top in rest + [top];
    assert Clean(list, top.handle, top.rel);
    SubCleanMeans(list, list(top.handle, top.rel).children, top.rel, |list(top.handle, top.rel).children|);
  }

  // ---------------------------------------------------------------- which directories there are

  /** A directory and all those below it, as far as the depth guard allows, with repetitions. */
  function Dirs<H>(list: (H, seq<string>) -> Listing<H>, h: H, rel: seq<string>): multiset<H>
    decreases SatSub(MAX_PATH_DEPTH + 1, |rel|), 1, 0
  {
    match list(h, rel)
    case Unreadable => multiset{h}
    case Listed(children, _) =>
      multiset{h} + if |rel| <= MAX_PATH_DEPTH then SubDirs(list, children, rel, |children|) else multiset{}
  }

  function SubDirs<H>(list: (H, seq<string>) -> Listing<H>, children: seq<Child<H>>, rel: seq<string>, n: nat): multiset<H>
    requires n <= |children| && |rel| <= MAX_PATH_DEPTH
    decreases SatSub(MAX_PATH_DEPTH + 1, |rel|), 0, n
  {
    if n == 0 then multiset{}
    else
      var c := children[n - 1];
      SubDirs(list, children, rel, n - 1) + if c.Dir? then Dirs(list, c.handle, rel + [c.name]) else multiset{}
  }

  function StackDirs<H>(list: (H, seq<string>) -> Listing<H>, stack: seq<Item<H>>): multiset<H> {
    if stack == [] then multiset{}
    else StackDirs(list, stack[..|stack| - 1]) + Dirs(list, stack[|stack| - 1].handle, stack[|stack| - 1].rel)
  }

  /** The depth guard's unfolding is a tree: no directory occurs twice in it. */
  ghost predicate NoRepeats<H(!new)>(dirs: multiset<H>) {
    forall h :: dirs[h] <= 1
  }

  lemma {:induction false} StackDirsConcat<H>(list: (H, seq<string>) -> Listing<H>, a: seq<Item<H>>, b: seq<Item<H>>)
    ensures StackDirs(list, a + b) == StackDirs(list, a) + StackDirs(list, b)
    decreases |b|
  {
    hide Dirs;
    if b == [] {
      assert a + b == a;
    } else {
      assert (a + b)[..|a + b| - 1] == a + b[..|b| - 1];
      StackDirsConcat(list, a, b[..|b| - 1]);
    }
  }

  lemma OneDir<H>(list: (H, seq<string>) -> Listing<H>, item: Item<H>)
    ensures StackDirs(list, [item]) == Dirs(list, item.handle, item.rel)
  {
    hide Dirs;
    assert [item][..0] == [];
  }

  lemma {:induction false} SubDirsAreStackDirs<H>(list: (H, seq<string>) -> Listing<H>, children: seq<Child<H>>, rel: seq<string>, n: nat)
    requires n <= |children| && |rel| <= MAX_PATH_DEPTH
    ensures SubDirs(list, children, rel, n) == StackDirs(list, DirItems(children, rel, n))
  {
    hide Dirs, StackDirs;
    NoDirs(list);
    if n > 0 {
      SubDirsAreStackDirs(list, children, rel, n - 1);
      var c, before := children[n - 1], DirItems(children, rel, n - 1);
      StackDirsConcat(list, before, ChildItem(c, rel));
      if c.Dir? {
        OneDir(list, Item(c.handle, rel + [c.name]));
      }
    }
  }

  lemma NoDirs<H>(list: (H, seq<string>) -> Listing<H>)
    ensures StackDirs(list, []) == multiset{}
  {
  }

  /** Taking a directory off the stack and putting its subdirectories on it loses only itself. */
  lemma ExpandDirs<H>(list: (H, seq<string>) -> Listing<H>, rest: seq<Item<H>>, top: Item<H>)
    requires list(top.handle, top.rel).Listed? && |top.rel| <= MAX_PATH_DEPTH
    ensures var children := list(top.handle, top.rel).children;
            StackDirs(list, rest + [top]) == StackDirs(list, rest + DirItems(children, top.rel, |children|)) + multiset{top.handle}
  {
    hide DirItems, SubDirs, StackDirs;
    var children := list(top.handle, top.rel).children;
    StackDirsConcat(list, rest, [top]);
    OneDir(list, top);
    SubDirsAreStackDirs(list, children, top.rel, |children|);
    StackDirsConcat(list, rest, DirItems(children, top.rel, |children|));
  }

  /** Every stack entry counts for itself. */
  lemma {:induction false} StackDirsHas<H>(list: (H, seq<string>) -> Listing<H>, stack: seq<Item<H>>, i: nat)
    requires i < |stack|
    ensures StackDirs(list, stack)[stack[i].handle] > 0
    ensures forall j :: i < j < |stack| && stack[j].handle == stack[i].handle ==> StackDirs(list, stack)[stack[i].handle] > 1
    decreases |stack|
  {
    hide Dirs;
    var init, last := stack[..|stack| - 1], stack[|stack| - 1];
    DirsHasItself(list, last.handle, last.rel);
    if i < |init| {
      StackDirsHas(list, init, i);
      assert init[i] == stack[i];
      forall j | i < j < |stack| && stack[j].handle == stack[i].handle ensures StackDirs(list, stack)[stack[i].handle] > 1 {
        if j < |init| {
          assert init[j] == stack[j];
        }
      }
    }
  }

  lemma DirsHasItself<H>(list: (H, seq<string>) -> Listing<H>, h: H, rel: seq<string>)
    ensures Dirs(list, h, rel)[h] > 0
  {
    hide SubDirs;
  }

  /** Listed and pending directories together are still all of them. */
  ghost predicate AllDirs<H>(list: (H, seq<string>) -> Listing<H>, start: H, visited: seq<H>, stack: seq<Item<H>>) {
    multiset(visited) + StackDirs(list, stack) == Dirs(list, start, [])
  }

  lemma AllDirsStart<H>(list: (H, seq<string>) -> Listing<H>, start: H)
    ensures AllDirs(list, start, [], [Item(start, [])])
  {
    hide Dirs;
    OneDir(list, Item(start, []));
  }

  lemma AllDirsStep<H>(list: (H, seq<string>) -> Listing<H>, start: H, visited: seq<H>, rest: seq<Item<H>>, top: Item<H>)
    requires AllDirs(list, start, visited, rest + [top]) && list(top.handle, top.rel).Listed? && |top.rel| <= MAX_PATH_DEPTH
    ensures var children := list(top.handle, top.rel).children;
            AllDirs(list, start, visited + [top.handle], rest + DirItems(children, top.rel, |children|))
  {
    hide Dirs, StackDirs, DirItems;
    ExpandDirs(list, rest, top);
    assert multiset(visited + [top.handle]) == multiset(visited) + multiset{top.handle};
  }

  /** In a tree the next directory was not listed before. */
  lemma TopIsNew<H(!new)>(list: (H, seq<string>) -> Listing<H>, start: H, visited: seq<H>, rest: seq<Item<H>>, top: Item<H>)
    requires AllDirs(list, start, visited, rest + [top]) && NoRepeats(Dirs(list, start, []))
    ensures top.handle !in visited
  {
    hide Dirs, StackDirs;
    StackDirsHas(list, rest + [top], |rest|);
    assert (rest + [top])[|rest|] == top;
    assert top.handle in visited <==> multiset(visited)[top.handle] > 0;
    assert Dirs(list, start, [])[top.handle] == multiset(visited)[top.handle] + StackDirs(list, rest + [top])[top.handle];
  }

  /** In a tree the directories that are put on the stack are not listed or pending, and differ. */
  lemma ItemsAreNew<H(!new)>(list: (H, seq<string>) -> Listing<H>, start: H, visited: seq<H>, rest: seq<Item<H>>, items: seq<Item<H>>, i: nat)
    requires AllDirs(list, start, visited, rest + items) && NoRepeats(Dirs(list, start, [])) && i < |items|
    ensures items[i].handle !in visited && (forall item <- rest :: item.handle != items[i].handle)
    ensures forall j :: i < j < |items| ==> items[j].handle != items[i].handle
  {
    hide Dirs, StackDirs;
    var h := items[i].handle;
    StackDirsConcat(list, rest, items);
    StackDirsHas(list, items, i);
    assert Dirs(list, start, [])[h] <= 1;
    assert h in visited <==> multiset(visited)[h] > 0;
    forall item <- rest ensures item.handle != h {
      var k :| 0 <= k < |rest| && rest[k] == item;
      StackDirsHas(list, rest, k);
    }
  }

  /** If all directories were listed once, none occurs twice. */
  lemma ListedOnce<H(!new)>(list: (H, seq<string>) -> Listing<H>, start: H, visited: seq<H>)
    requires AllDirs(list, start, visited, []) && forall i, j :: 0 <= i < j < |visited| ==> visited[i] != visited[j]
    ensures NoRepeats(Dirs(list, start, []))
  {
    hide Dirs;
    OnceEach(visited);
    assert multiset(visited) + multiset{} == multiset(visited);
  }

  lemma {:induction false} OnceEach<H>(s: seq<H>)
    requires forall i, j :: 0 <= i < j < |s| ==> s[i] != s[j]
    ensures forall h <- s :: multiset(s)[h] == 1
    ensures forall h :: multiset(s)[h] <= 1
  {
    if s != [] {
      var init, last := s[..|s| - 1], s[|s| - 1];
      OnceEach(init);
      assert s == init + [last] && last !in init;
      assert multiset(s) == multiset(init) + multiset{last};
    }
  }

  // ---------------------------------------------------------------- the depth guard alone bounds the work

  /** One more than the number of directories below this one, as far as the depth guard allows. */
  function Cost<H>(list: (H, seq<string>) -> Listing<H>, h: H, rel: seq<string>): (cost: nat)
    ensures cost > 0
    decreases SatSub(MAX_PATH_DEPTH + 1, |rel|), 1, 0
  {
    match list(h, rel)
    case Unreadable => 1
    case Listed(children, _) => 1 + if |rel| < MAX_PATH_DEPTH then SubCost(list, children, rel, |children|) else 0
  }

  function SubCost<H>(list: (H, seq<string>) -> Listing<H>, children: seq<Child<H>>, rel: seq<string>, n: nat): nat
    requires n <= |children| && |rel| < MAX_PATH_DEPTH
    decreases SatSub(MAX_PATH_DEPTH + 1, |rel|), 0, n
  {
    if n == 0 then 0
    else
      var c := children[n - 1];
      SubCost(list, children, rel, n - 1) + if c.Dir? then Cost(list, c.handle, rel + [c.name]) else 0
  }

  function StackCost<H>(list: (H, seq<string>) -> Listing<H>, stack: seq<Item<H>>): nat {
    if stack == [] then 0
    else StackCost(list, stack[..|stack| - 1]) + Cost(list, stack[|stack| - 1].handle, stack[|stack| - 1].rel)
  }

  lemma {:induction false} StackCostConcat<H>(list: (H, seq<string>) -> Listing<H>, a: seq<Item<H>>, b: seq<Item<H>>)
    ensures StackCost(list, a + b) == StackCost(list, a) + StackCost(list, b)
    decreases |b|
  {
    hide Cost;
    if b == [] {
      assert a + b == a;
    } else {
      assert (a + b)[..|a + b| - 1] == a + b[..|b| - 1];
      StackCostConcat(list, a, b[..|b| - 1]);
    }
  }

  lemma {:induction false} SubCostIsStackCost<H>(list: (H, seq<string>) -> Listing<H>, children: seq<Child<H>>, rel: seq<string>, n: nat, m: nat)
    requires n <= m <= |children| && |rel| < MAX_PATH_DEPTH
    ensures StackCost(list, DirItems(children, rel, n)) == SubCost(list, children, rel, n) <= SubCost(list, children, rel, m)
    decreases m
  {
    hide Cost;
    if n < m {
      SubCostIsStackCost(list, children, rel, n, m - 1);
    } else if n > 0 {
      SubCostIsStackCost(list, children, rel, n - 1, n - 1);
      var c, before := children[n - 1], DirItems(children, rel, n - 1);
      StackCostConcat(list, before, ChildItem(c, rel));
      if c.Dir? {
        assert [Item(c.handle, rel + [c.name])][..0] == [];
      }
    }
  }

  lemma CostPop<H>(list: (H, seq<string>) -> Listing<H>, rest: seq<Item<H>>, top: Item<H>)
    ensures StackCost(list, rest + [top]) == StackCost(list, rest) + Cost(list, top.handle, top.rel) > StackCost(list, rest)
  {
    hide Cost;
    StackCostConcat(list, rest, [top]);
    assert [top][..0] == [];
  }

  /** Replacing a directory by any number of its first subdirectories lowers the cost. */
  lemma CostDrops<H>(list: (H, seq<string>) -> Listing<H>, rest: seq<Item<H>>, top: Item<H>, n: nat)
    requires list(top.handle, top.rel).Listed? && n <= |list(top.handle, top.rel).children|
    ensures var items := if |top.rel| < MAX_PATH_DEPTH then DirItems(list(top.handle, top.rel).children, top.rel, n) else [];
            StackCost(list, rest + items) < StackCost(list, rest + [top])
  {
    var children := list(top.handle, top.rel).children;
    CostPop(list, rest, top);
    if |top.rel| < MAX_PATH_DEPTH {
      SubCostIsStackCost(list, children, top.rel, n, |children|);
      StackCostConcat(list, rest, DirItems(children, top.rel, n));
    } else {
      assert rest + [] == rest;
    }
  }

  // ---------------------------------------------------------------- every reachable file

  /** Following child indices from a directory ends at a file with this path and content. */
  ghost predicate Leads<H>(list: (H, seq<string>) -> Listing<H>, h: H, rel: seq<string>, trail: seq<nat>, file: Exported)
    decreases |trail|
  {
    && trail != [] && list(h, rel).Listed? && trail[0] < |list(h, rel).children|
    && var c := list(h, rel).children[trail[0]];
       if |trail| == 1 then c.File? && c.content == Some(file.content) && file.path == rel + [c.name]
       else c.Dir? && Leads(list, c.handle, rel + [c.name], trail[1..], file)
  }

  /** Following child indices from a directory ends at this directory. */
  ghost predicate LeadsTo<H>(list: (H, seq<string>) -> Listing<H>, h: H, rel: seq<string>, trail: seq<nat>, item: Item<H>)
    decreases |trail|
  {
    if trail == [] then item == Item(h, rel)
    else
      && list(h, rel).Listed? && trail[0] < |list(h, rel).children|
      && var c := list(h, rel).children[trail[0]];
         c.Dir? && LeadsTo(list, c.handle, rel + [c.name], trail[1..], item)
  }

  /** Some trail from the start ends at this file. */
  ghost predicate Led<H>(list: (H, seq<string>) -> Listing<H>, start: H, file: Exported) {
    exists trail :: Leads(list, start, [], trail, file)
  }

  ghost predicate Reached<H>(list: (H, seq<string>) -> Listing<H>, start: H, item: Item<H>) {
    exists trail :: LeadsTo(list, start, [], trail, item)
  }

  /** What is exported and what is pending was found on the way from the start. */
  ghost predicate Found<H>(list: (H, seq<string>) -> Listing<H>, start: H, stack: seq<Item<H>>, exported: seq<Exported>) {
    (forall row <- exported :: Led(list, start, row)) && (forall item <- stack :: Reached(list, start, item))
  }

  lemma {:induction false} TrailToFile<H>(list: (H, seq<string>) -> Listing<H>, h: H, rel: seq<string>, trail: seq<nat>, item: Item<H>, i: nat)
    requires LeadsTo(list, h, rel, trail, item) && list(item.handle, item.rel).Listed? && i < |list(item.handle, item.rel).children|
    requires list(item.handle, item.rel).children[i].File? && list(item.handle, item.rel).children[i].content.Some?
    ensures var c := list(item.handle, item.rel).children[i];
            Leads(list, h, rel, trail + [i], Exported(item.rel + [c.name], c.content.value))
    decreases |trail|
  {
    if trail != [] {
      var c := list(h, rel).children[trail[0]];
      TrailToFile(list, c.handle, rel + [c.name], trail[1..], item, i);
      assert (trail + [i])[1..] == trail[1..] + [i];
    }
  }

  lemma {:induction false} TrailToDir<H>(list: (H, seq<string>) -> Listing<H>, h: H, rel: seq<string>, trail: seq<nat>, item: Item<H>, i: nat)
    requires LeadsTo(list, h, rel, trail, item) && list(item.handle, item.rel).Listed? && i < |list(item.handle, item.rel).children|
    requires list(item.handle, item.rel).children[i].Dir?
    ensures var c := list(item.handle, item.rel).children[i]; LeadsTo(list, h, rel, trail + [i], Item(c.handle, item.rel + [c.name]))
    decreases |trail|
  {
    if trail == [] {
      assert [i][1..] == [];
    } else {
      var c := list(h, rel).children[trail[0]];
      TrailToDir(list, c.handle, rel + [c.name], trail[1..], item, i);
      assert (trail + [i])[1..] == trail[1..] + [i];
    }
  }

  lemma {:induction false} RowFrom<H>(children: seq<Child<H>>, rel: seq<string>, n: nat, row: Exported) returns (i: nat)
    requires n <= |children| && row in FileRows(children, rel, n)
    ensures i < n && children[i].File? && children[i].content.Some?
    ensures row == Exported(rel + [children[i].name], children[i].content.value)
  {
    if row in ChildRow(children[n - 1], rel) {
      i := n - 1;
    } else {
      i := RowFrom(children, rel, n - 1, row);
    }
  }

  lemma {:induction false} ItemFrom<H>(children: seq<Child<H>>, rel: seq<string>, n: nat, item: Item<H>) returns (i: nat)
    requires n <= |children| && item in DirItems(children, rel, n)
    ensures i < n && children[i].Dir? && item == Item(children[i].handle, rel + [children[i].name])
  {
    if item in ChildItem(children[n - 1], rel) {
      i := n - 1;
    } else {
      i := ItemFrom(children, rel, n - 1, item);
    }
  }

  lemma FoundStart<H>(list: (H, seq<string>) -> Listing<H>, start: H)
    ensures Found(list, start, [Item(start, [])], [])
  {
    assert LeadsTo(list, start, [], [], Item(start, []));
  }

  /** Rows and subdirectories of a directory on the stack are found as well. */
  lemma FoundStep<H>(list: (H, seq<string>) -> Listing<H>, start: H, rest: seq<Item<H>>, top: Item<H>, items: seq<Item<H>>,
                     was: seq<Exported>, now: seq<Exported>)
    requires Found(list, start, rest + [top], was) && list(top.handle, top.rel).Listed?
    requires var children := list(top.handle, top.rel).children;
             && (forall row <- now :: row in was || row in FileRows(children, top.rel, |children|))
             && (forall item <- items :: item in DirItems(children, top.rel, |children|))
    ensures Found(list, start, rest + items, now)
  {
    hide FileRows, DirItems, Leads, LeadsTo;
    var children := list(top.handle, top.rel).children;
    assert top in rest + [top] && forall item <- rest :: item in rest + [top];
    var trail :| LeadsTo(list, start, [], trail, top);
    forall row <- now ensures Led(list, start, row) {
      if row !in was {
        var i := RowFrom(children, top.rel, |children|, row);
        TrailToFile(list, start, [], trail, top, i);
      }
    }
    forall item <- items ensures Reached(list, start, item) {
      var i := ItemFrom(children, top.rel, |children|, item);
      TrailToDir(list, start, [], trail, top, i);
    }
  }

  lemma FoundPop<H>(list: (H, seq<string>) -> Listing<H>, start: H, rest: seq<Item<H>>, top: Item<H>, exported: seq<Exported>)
    requires Found(list, start, rest + [top], exported)
    ensures Found(list, start, rest, exported)
  {
    assert forall item <- rest :: item in rest + [top];
  }

  lemma FoundNothingPending<H>(list: (H, seq<string>) -> Listing<H>, start: H, stack: seq<Item<H>>, exported: seq<Exported>)
    requires Found(list, start, stack, exported)
    ensures Found(list, start, [], exported)
  {
  }

  lemma FoundMeans<H>(list: (H, seq<string>) -> Listing<H>, start: H, stack: seq<Item<H>>, exported: seq<Exported>)
    requires Found(list, start, stack, exported)
    ensures forall row <- exported :: Led(list, start, row)
  {
  }

  lemma {:induction false} FileRowsHas<H>(children: seq<Child<H>>, rel: seq<string>, n: nat, i: nat)
    requires i < n <= |children| && children[i].File? && children[i].content.Some?
    ensures Exported(rel + [children[i].name], children[i].content.value) in FileRows(children, rel, n)
  {
    if i < n - 1 {
      FileRowsHas(children, rel, n - 1, i);
    }
  }

  lemma {:induction false} SubRowsHas<H>(list: (H, seq<string>) -> Listing<H>, children: seq<Child<H>>, rel: seq<string>, n: nat, i: nat, row: Exported)
    requires i < n <= |children| && |rel| <= MAX_PATH_DEPTH && children[i].Dir?
    requires row in RowsOf(list, children[i].handle, rel + [children[i].name])
    ensures row in SubRows(list, children, rel, n)
  {
    hide RowsOf;
    if i < n - 1 {
      SubRowsHas(list, children, rel, n - 1, i, row);
    }
  }

  lemma {:induction false} SubCleanAt<H>(list: (H, seq<string>) -> Listing<H>, children: seq<Child<H>>, rel: seq<string>, n: nat, i: nat)
    requires i < n <= |children| && |rel| <= MAX_PATH_DEPTH && SubClean(list, children, rel, n) && children[i].Dir?
    ensures Clean(list, children[i].handle, rel + [children[i].name])
  {
    hide Clean;
    if i < n - 1 {
      SubCleanAt(list, children, rel, n - 1, i);
    }
  }

  /** In a clean tree every file that any trail reaches, however long, is among the rows. */
  lemma {:induction false} EveryReachableFile<H>(list: (H, seq<string>) -> Listing<H>, h: H, rel: seq<string>, trail: seq<nat>, file: Exported)
    requires Clean(list, h, rel) && Leads(list, h, rel, trail, file)
    ensures file in RowsOf(list, h, rel)
    decreases |trail|
  {
    var children, i := list(h, rel).children, trail[0];
    if |trail| == 1 {
      FileRowsHas(children, rel, |children|, i);
    } else {
      SubCleanAt(list, children, rel, |children|, i);
      EveryReachableFile(list, children[i].handle, rel + [children[i].name], trail[1..], file);
      SubRowsHas(list, children, rel, |children|, i, file);
    }
  }
}
