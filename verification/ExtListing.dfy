// Directory listings of EXT volumes: the listing that the export sees leaves out every entry whose
// inode does not load, and reads every file by its path. This decides whether an export of what is
// listed is one of what is stored.
module ExtListings {
  import opened Basics
  import opened Directory
  import opened ExportTree
  import opened ExtPaths

  /** What loading an inode by its number gives, and what reading its data gives. */
  datatype ExtVolume = ExtVolume(load: Inodes, read: U64 -> Option<seq<Byte>>)

  predicate IsSelf(entry: DirEntry) {
    entry.name == "." || entry.name == ".."
  }

  /** What an entry is read as. */
  type Contents = DirEntry -> Option<seq<Byte>>

  /** The data behind a path. */
  function ReadPath(volume: ExtVolume, path: string): Option<seq<Byte>> {
    var n := Resolve(volume.load, path);
    if n.Some? && volume.load(n.value).Some? then volume.read(n.value) else None
  }

  /** The entries of the directory at `path` are read by their paths. */
  function ByPath(volume: ExtVolume, path: string): Contents {
    (entry: DirEntry) => ReadPath(volume, ChildPath(path, entry.name))
  }

  /** Each entry is read from its own inode. */
  function ByInode(volume: ExtVolume): Contents {
    (entry: DirEntry) => volume.read(entry.inode)
  }

  function ChildOf(entry: DirEntry, inode: ExtInode, content: Option<seq<Byte>>): Child<U64> {
    match inode
    case DirectoryInode(_) => Child.Dir(entry.name, entry.inode)
    case OtherInode(size) => Child.File(entry.name, size, content)
  }

  /** The first `n` entries as the export sees them. */
  function Kept(load: Inodes, contents: Contents, entries: seq<DirEntry>, n: nat): seq<Child<U64>>
    requires n <= |entries|
  {
    if n == 0 then []
    else
      var entry := entries[n - 1];
      var inode := load(entry.inode);
      Kept(load, contents, entries, n - 1)
      + if IsSelf(entry) || inode.None? then [] else [ChildOf(entry, inode.value, contents(entry))]
  }

  /** The first `n` entries as they are stored: one that does not load is an entry all the same. */
  function AllEntries(load: Inodes, contents: Contents, entries: seq<DirEntry>, n: nat): seq<Child<U64>>
    requires n <= |entries|
  {
    if n == 0 then []
    else
      var entry := entries[n - 1];
      var inode := load(entry.inode);
      AllEntries(load, contents, entries, n - 1)
      + if IsSelf(entry) then [] else if inode.None? then [Child.Bad] else [ChildOf(entry, inode.value, contents(entry))]
  }

  function ListingOf(load: Inodes, contents: Contents, n: Option<U64>): Listing<U64> {
    if n.None? || EntriesOf(load, n.value).None? then Unreadable
    else var entries := EntriesOf(load, n.value).value; Listed(Kept(load, contents, entries, |entries|), 0)
  }

  /** What the export sees: the directory that the path names, its files read by their paths. */
  function Listings(volume: ExtVolume, base: string): (U64, seq<string>) -> Listing<U64> {
    (h, rel) => var path := PathOf(base, rel); ListingOf(volume.load, ByPath(volume, path), Resolve(volume.load, path))
  }

  /** The same with every directory and file taken from its own inode. */
  function OwnListings(volume: ExtVolume): (U64, seq<string>) -> Listing<U64> {
    (h, rel) => ListingOf(volume.load, ByInode(volume), Some(h))
  }

  /** What is stored. */
  function StoredListings(volume: ExtVolume): (U64, seq<string>) -> Listing<U64> {
    (h, rel) => match EntriesOf(volume.load, h)
      case None => Unreadable
      case Some(entries) => Listed(AllEntries(volume.load, ByInode(volume), entries, |entries|), 0)
  }

  /** The listing of one directory by its path: an entry whose inode does not load is reported elsewhere and left out. */
  method ListDir(volume: ExtVolume, base: string, ghost h: U64, rel: seq<string>) returns (listing: Listing<U64>)
    ensures listing == Listings(volume, base)(h, rel)
  {
    hide Resolve, PathOf, ReadPath;
    var path := PathOf(base, rel);
    var n := ResolvePath(volume.load, path);
    if n.None? {
      return Unreadable;
    }
    var dirInode := volume.load(n.value);
    if dirInode.None? || !dirInode.value.DirectoryInode? || dirInode.value.entries.None? {
      return Unreadable;
    }
    var entries := dirInode.value.entries.value;
    var children: seq<Child<U64>> := [];
    for i := 0 to |entries|
      invariant children == Kept(volume.load, ByPath(volume, path), entries, i)
    {
      if entries[i].name == "." || entries[i].name == ".." {
        continue;
      }
      var inode := volume.load(entries[i].inode);
      if inode.None? {
        continue;
      }
      match inode.value
      case DirectoryInode(_) => children := children + [Child.Dir(entries[i].name, entries[i].inode)];
      case OtherInode(size) =>
        var content := ReadFile(volume, ChildPath(path, entries[i].name));
        children := children + [Child.File(entries[i].name, size, content)];
    }
    listing := Listed(children, 0);
  }

  /** The data of the file that a path names, whatever entry the path was made from. */
  method ReadFile(volume: ExtVolume, path: string) returns (content: Option<seq<Byte>>)
    ensures content == ReadPath(volume, path)
  {
    var n := ResolvePath(volume.load, path);
    if n.None? || volume.load(n.value).None? {
      return None;
    }
    content := volume.read(n.value);
  }

  lemma ListingIsQuiet(volume: ExtVolume, base: string, h: U64, rel: seq<string>)
    ensures Listings(volume, base)(h, rel).Listed? ==> Listings(volume, base)(h, rel).diagnostics == 0
  {
  }

  // ---------------------------------------------------------------- what is listed and what is stored

  /** Every entry among the first `n`, other than the self references, has an inode that loads. */
  predicate AllLoad(load: Inodes, entries: seq<DirEntry>, n: nat)
    requires n <= |entries|
  {
    forall i :: 0 <= i < n && entries[i].name != "." && entries[i].name != ".." ==> load(entries[i].inode).Some?
  }

  lemma OneMoreLoads(load: Inodes, entries: seq<DirEntry>, n: nat)
    requires n < |entries|
    ensures AllLoad(load, entries, n + 1) <==>
              AllLoad(load, entries, n) && (IsSelf(entries[n]) || load(entries[n].inode).Some?)
  {
  }

  lemma NoneToLoad(load: Inodes, entries: seq<DirEntry>)
    ensures AllLoad(load, entries, 0)
  {
  }

  predicate EntriesLoad(load: Inodes, h: U64) {
    var entries := EntriesOf(load, h);
    entries.Some? ==> AllLoad(load, entries.value, |entries.value|)
  }

  lemma {:induction false} RowsAppend<H>(a: seq<Child<H>>, b: seq<Child<H>>, rel: seq<string>, n: nat)
    requires n <= |a|
    ensures FileRows(a + b, rel, n) == FileRows(a, rel, n) && DirItems(a + b, rel, n) == DirItems(a, rel, n)
    ensures ListingClean(a + b, rel, n) <==> ListingClean(a, rel, n)
  {
    if n > 0 {
      RowsAppend(a, b, rel, n - 1);
    }
  }

  lemma OneMoreChild<H>(a: seq<Child<H>>, c: Child<H>, rel: seq<string>)
    ensures FileRows(a + [c], rel, |a| + 1) == FileRows(a, rel, |a|) + ChildRow(c, rel)
    ensures DirItems(a + [c], rel, |a| + 1) == DirItems(a, rel, |a|) + ChildItem(c, rel)
    ensures ListingClean(a + [c], rel, |a| + 1) <==> ListingClean(a, rel, |a|) && ChildClean(c, rel)
  {
    hide FileRows, DirItems, ListingClean, ChildRow, ChildItem, ChildClean;
    RowsAppend(a, [c], rel, |a|);
    ListingStep(a + [c], rel, |a|);
  }

  /** Listed and stored entries have the same files and subdirectories; the stored ones are clean only if all load. */
  lemma {:induction false} SameFiles(load: Inodes, contents: Contents, entries: seq<DirEntry>, rel: seq<string>, n: nat)
    requires n <= |entries|
    ensures var kept, all := Kept(load, contents, entries, n), AllEntries(load, contents, entries, n);
            && FileRows(kept, rel, |kept|) == FileRows(all, rel, |all|)
            && DirItems(kept, rel, |kept|) == DirItems(all, rel, |all|)
            && (ListingClean(all, rel, |all|) <==> ListingClean(kept, rel, |kept|) && AllLoad(load, entries, n))
  {
    hide FileRows, DirItems, ListingClean, ChildRow, ChildItem, ChildClean, AllLoad, IsSelf, ChildOf;
    if n == 0 {
      NoneToLoad(load, entries);
      NothingListed<U64>(rel);
    } else {
      SameFiles(load, contents, entries, rel, n - 1);
      OneMoreLoads(load, entries, n - 1);
      var entry := entries[n - 1];
      var inode := load(entry.inode);
      var kept, all := Kept(load, contents, entries, n - 1), AllEntries(load, contents, entries, n - 1);
      assert kept + [] == kept && all + [] == all;
      if !IsSelf(entry) {
        if inode.None? {
          OneMoreChild(all, Child.Bad, rel);
          BadChild<U64>(rel);
        } else {
          OneMoreChild(kept, ChildOf(entry, inode.value, contents(entry)), rel);
          OneMoreChild(all, ChildOf(entry, inode.value, contents(entry)), rel);
        }
      }
    }
  }

  lemma NothingListed<H>(rel: seq<string>)
    ensures var none: seq<Child<H>> := []; FileRows(none, rel, 0) == [] && DirItems(none, rel, 0) == [] && ListingClean(none, rel, 0)
  {
  }

  lemma BadChild<H>(rel: seq<string>)
    ensures var bad: Child<H> := Child.Bad; ChildRow(bad, rel) == [] && ChildItem(bad, rel) == [] && !ChildClean(bad, rel)
  {
  }

  lemma {:induction false} ItemsDeeper<H>(children: seq<Child<H>>, rel: seq<string>, n: nat)
    requires n <= |children|
    ensures forall item <- DirItems(children, rel, n) :: |item.rel| == |rel| + 1
  {
    if n > 0 {
      ItemsDeeper(children, rel, n - 1);
    }
  }

  /** All of these directories have only entries with inodes that load. */
  ghost predicate LoadAll(load: Inodes, dirs: multiset<U64>) {
    forall d <- dirs :: EntriesLoad(load, d)
  }

  lemma LoadAllJoined(load: Inodes, a: multiset<U64>, b: multiset<U64>)
    ensures LoadAll(load, a + b) <==> LoadAll(load, a) && LoadAll(load, b)
  {
    hide EntriesLoad;
    assert forall d :: d in a + b <==> d in a || d in b;
  }

  lemma {:induction false} LoadAllOfStack(load: Inodes, list: (U64, seq<string>) -> Listing<U64>, stack: seq<Item<U64>>)
    ensures LoadAll(load, StackDirs(list, stack)) <==> forall item <- stack :: LoadAll(load, Dirs(list, item.handle, item.rel))
  {
    hide Dirs, EntriesLoad;
    if stack == [] {
      assert StackDirs(list, stack) == multiset{};
    } else {
      var init, last := stack[..|stack| - 1], stack[|stack| - 1];
      LoadAllOfStack(load, list, init);
      LoadAllJoined(load, StackDirs(list, init), Dirs(list, last.handle, last.rel));
      hide LoadAll;
      assert stack == init + [last] && last in stack && forall item <- init :: item in stack;
    }
  }

  /** The rows of a tree and what is clean in it, one level down. */
  lemma OneLevel<H>(list: (H, seq<string>) -> Listing<H>, h: H, rel: seq<string>)
    requires list(h, rel).Listed? && |rel| <= MAX_PATH_DEPTH
    ensures var children := list(h, rel).children; var items := DirItems(children, rel, |children|);
            && RowsOf(list, h, rel) == FileRows(children, rel, |children|) + StackRows(list, items)
            && (Clean(list, h, rel) <==>
                list(h, rel).diagnostics == 0 && ListingClean(children, rel, |children|) && StackClean(list, items))
            && Dirs(list, h, rel) == multiset{h} + StackDirs(list, items)
  {
    var children := list(h, rel).children;
    SubRowsAreStackRows(list, children, rel, |children|);
    SubCleanMeans(list, children, rel, |children|);
    SubDirsAreStackDirs(list, children, rel, |children|);
  }

  /** Of a tree that is listed cleanly, what is stored is clean exactly if every entry met has an inode that loads. */
  lemma {:induction false} StoredIsClean(volume: ExtVolume, h: U64, rel: seq<string>)
    requires Clean(OwnListings(volume), h, rel)
    ensures Clean(StoredListings(volume), h, rel) <==> LoadAll(volume.load, Dirs(OwnListings(volume), h, rel))
    decreases SatSub(MAX_PATH_DEPTH + 1, |rel|)
  {
    var load, contents := volume.load, ByInode(volume);
    var entries := EntriesOf(load, h).value;
    var list, stored := OwnListings(volume), StoredListings(volume);
    var kept, all := Kept(load, contents, entries, |entries|), AllEntries(load, contents, entries, |entries|);
    var items := DirItems(kept, rel, |kept|);
    assert list(h, rel) == Listed(kept, 0) && stored(h, rel) == Listed(all, 0) && |rel| <= MAX_PATH_DEPTH;
    hide Clean, Dirs, RowsOf, StackDirs, FileRows, DirItems, ListingClean, OwnListings, StoredListings, Kept, AllEntries,
         AllLoad, LoadAll, EntriesLoad;
    SameFiles(load, contents, entries, rel, |entries|);
    OneLevel(list, h, rel);
    OneLevel(stored, h, rel);
    ItemsDeeper(kept, rel, |kept|);
    forall item <- items
      ensures Clean(stored, item.handle, item.rel) <==> LoadAll(load, Dirs(list, item.handle, item.rel))
    {
      StoredIsClean(volume, item.handle, item.rel);
    }
    LoadAllOfStack(load, list, items);
    LoadAllJoined(load, multiset{h}, StackDirs(list, items));
    OneDirLoads(load, h, entries);
  }

  lemma OneDirLoads(load: Inodes, h: U64, entries: seq<DirEntry>)
    requires EntriesOf(load, h) == Some(entries)
    ensures LoadAll(load, multiset{h}) <==> AllLoad(load, entries, |entries|)
  {
    assert h in multiset{h};
  }

  /** What is stored and does load has the same files: only clean or not differs. */
  lemma {:induction false} StoredHasSameRows(volume: ExtVolume, h: U64, rel: seq<string>)
    requires Clean(OwnListings(volume), h, rel)
    ensures RowsOf(StoredListings(volume), h, rel) == RowsOf(OwnListings(volume), h, rel)
    decreases SatSub(MAX_PATH_DEPTH + 1, |rel|)
  {
    var load, contents := volume.load, ByInode(volume);
    var entries := EntriesOf(load, h).value;
    var list, stored := OwnListings(volume), StoredListings(volume);
    var kept, all := Kept(load, contents, entries, |entries|), AllEntries(load, contents, entries, |entries|);
    var items := DirItems(kept, rel, |kept|);
    assert list(h, rel) == Listed(kept, 0) && stored(h, rel) == Listed(all, 0) && |rel| <= MAX_PATH_DEPTH;
    hide Clean, Dirs, RowsOf, StackDirs, FileRows, DirItems, ListingClean, OwnListings, StoredListings, Kept, AllEntries, AllLoad;
    SameFiles(load, contents, entries, rel, |entries|);
    OneLevel(list, h, rel);
    OneLevel(stored, h, rel);
    ItemsDeeper(kept, rel, |kept|);
    forall item <- items ensures RowsOf(stored, item.handle, item.rel) == RowsOf(list, item.handle, item.rel) {
      StoredHasSameRows(volume, item.handle, item.rel);
    }
    SameStackRows(list, stored, items);
  }

  lemma {:induction false} SameStackRows<H>(a: (H, seq<string>) -> Listing<H>, b: (H, seq<string>) -> Listing<H>, stack: seq<Item<H>>)
    requires forall item <- stack :: RowsOf(a, item.handle, item.rel) == RowsOf(b, item.handle, item.rel)
    ensures StackRows(a, stack) == StackRows(b, stack)
  {
    hide RowsOf;
    if stack != [] {
      SameStackRows(a, b, stack[..|stack| - 1]);
    }
  }

}
