// When reading an EXT volume by paths reads what is stored: exactly when the path of every entry met
// leads back to the entry's own inode. Plain names that stand for one inode each are enough.
module ExtNames {
  import opened Basics
  import opened Directory
  import opened ExportTree
  import opened ExtPaths
  import opened ExtListings

  // ---------------------------------------------------------------- entries that their paths lead to

  predicate OwnPath(load: Inodes, path: string, entry: DirEntry) {
    Resolve(load, ChildPath(path, entry.name)) == Some(entry.inode)
  }

  /** An entry that the export lists. */
  predicate IsListed(load: Inodes, entry: DirEntry) {
    !IsSelf(entry) && load(entry.inode).Some?
  }

  predicate IsSubdirectory(load: Inodes, entry: DirEntry) {
    IsListed(load, entry) && load(entry.inode).value.DirectoryInode?
  }

  /** The paths of the directory's listed entries lead to their own inodes. */
  ghost predicate EntriesOwn(load: Inodes, path: string, entries: seq<DirEntry>) {
    forall entry <- entries :: IsListed(load, entry) ==> OwnPath(load, path, entry)
  }

  ghost predicate SubdirectoriesOwn(load: Inodes, path: string, entries: seq<DirEntry>) {
    forall entry <- entries :: IsSubdirectory(load, entry) ==> OwnPath(load, path, entry)
  }

  /** The same for all directories below this one. */
  ghost predicate Owned(load: Inodes, base: string, h: U64, rel: seq<string>)
    decreases SatSub(MAX_PATH_DEPTH + 1, |rel|)
  {
    EntriesOf(load, h).Some? ==>
      var entries := EntriesOf(load, h).value;
      && EntriesOwn(load, PathOf(base, rel), entries)
      && (|rel| <= MAX_PATH_DEPTH ==>
            forall entry <- entries :: IsSubdirectory(load, entry) ==> Owned(load, base, entry.inode, rel + [entry.name]))
  }

  /** Every directory met is the one that its path leads to; files may be others. */
  ghost predicate DirsOwned(load: Inodes, base: string, h: U64, rel: seq<string>)
    decreases SatSub(MAX_PATH_DEPTH + 1, |rel|)
  {
    EntriesOf(load, h).Some? ==>
      var entries := EntriesOf(load, h).value;
      && SubdirectoriesOwn(load, PathOf(base, rel), entries)
      && (|rel| <= MAX_PATH_DEPTH ==>
            forall entry <- entries :: IsSubdirectory(load, entry) ==> DirsOwned(load, base, entry.inode, rel + [entry.name]))
  }

  /** Each subdirectory of such a directory is one, and is the one that its path leads to. */
  lemma OwnedChild(load: Inodes, base: string, h: U64, rel: seq<string>, entry: DirEntry)
    requires Owned(load, base, h, rel) && EntriesOf(load, h).Some? && entry in EntriesOf(load, h).value
    requires IsSubdirectory(load, entry) && |rel| <= MAX_PATH_DEPTH
    ensures Owned(load, base, entry.inode, rel + [entry.name])
    ensures Resolve(load, PathOf(base, rel + [entry.name])) == Some(entry.inode)
  {
    hide Resolve;
    PathOfChild(base, rel, entry.name);
  }

  lemma {:induction false} OwnedDirs(load: Inodes, base: string, h: U64, rel: seq<string>)
    requires Owned(load, base, h, rel)
    ensures DirsOwned(load, base, h, rel)
    decreases SatSub(MAX_PATH_DEPTH + 1, |rel|)
  {
    if EntriesOf(load, h).Some? && |rel| <= MAX_PATH_DEPTH {
      var entries := EntriesOf(load, h).value;
      forall entry <- entries | IsSubdirectory(load, entry) ensures DirsOwned(load, base, entry.inode, rel + [entry.name]) {
        OwnedDirs(load, base, entry.inode, rel + [entry.name]);
      }
    }
  }

  // ---------------------------------------------------------------- what is kept of the entries

  /** The child that an entry becomes. */
  function ChildAt(load: Inodes, contents: Contents, entry: DirEntry): Child<U64>
    requires IsListed(load, entry)
  {
    ChildOf(entry, load(entry.inode).value, contents(entry))
  }

  /** What one more entry adds to a listing. */
  lemma OneMoreEntry(load: Inodes, contents: Contents, entries: seq<DirEntry>, rel: seq<string>, n: nat)
    requires n < |entries|
    ensures var kept, more, entry := Kept(load, contents, entries, n), Kept(load, contents, entries, n + 1), entries[n];
            if IsListed(load, entry) then
              && FileRows(more, rel, |more|) == FileRows(kept, rel, |kept|) + ChildRow(ChildAt(load, contents, entry), rel)
              && DirItems(more, rel, |more|) == DirItems(kept, rel, |kept|) + ChildItem(ChildAt(load, contents, entry), rel)
              && (ListingClean(more, rel, |more|) <==>
                  ListingClean(kept, rel, |kept|) && ChildClean(ChildAt(load, contents, entry), rel))
            else more == kept
  {
    hide FileRows, DirItems, ListingClean, ChildRow, ChildItem, ChildClean, ChildOf;
    var kept, entry := Kept(load, contents, entries, n), entries[n];
    if IsListed(load, entry) {
      OneMoreChild(kept, ChildAt(load, contents, entry), rel);
    } else {
      assert kept + [] == kept;
    }
  }

  /** A listing of no entries. */
  lemma NoEntries(load: Inodes, contents: Contents, entries: seq<DirEntry>, rel: seq<string>)
    ensures var kept := Kept(load, contents, entries, 0);
            FileRows(kept, rel, |kept|) == [] && DirItems(kept, rel, |kept|) == [] && ListingClean(kept, rel, |kept|)
  {
    NothingListed<U64>(rel);
  }

  /** A listed subdirectory is a stack entry of the listing, whatever the contents. */
  lemma {:induction false} ItemOf(load: Inodes, contents: Contents, entries: seq<DirEntry>, rel: seq<string>, n: nat, i: nat)
    requires i < n <= |entries| && IsSubdirectory(load, entries[i])
    ensures var kept := Kept(load, contents, entries, n);
            Item(entries[i].inode, rel + [entries[i].name]) in DirItems(kept, rel, |kept|)
  {
    hide DirItems, FileRows, ListingClean, Kept;
    OneMoreEntry(load, contents, entries, rel, n - 1);
    if i < n - 1 {
      ItemOf(load, contents, entries, rel, n - 1, i);
    }
  }

  /** And there are no others. */
  lemma {:induction false} EntryOfItem(load: Inodes, contents: Contents, entries: seq<DirEntry>, rel: seq<string>, n: nat, item: Item<U64>)
    returns (i: nat)
    requires n <= |entries| && var kept := Kept(load, contents, entries, n); item in DirItems(kept, rel, |kept|)
    ensures i < n && IsSubdirectory(load, entries[i]) && item == Item(entries[i].inode, rel + [entries[i].name])
  {
    hide DirItems, FileRows, ListingClean, Kept;
    NoEntries(load, contents, entries, rel);
    OneMoreEntry(load, contents, entries, rel, n - 1);
    var kept := Kept(load, contents, entries, n - 1);
    if item in DirItems(kept, rel, |kept|) {
      i := EntryOfItem(load, contents, entries, rel, n - 1, item);
    } else {
      i := n - 1;
    }
  }

  /** Contents that agree on what is listed give the same children. */
  lemma {:induction false} SameKept(load: Inodes, a: Contents, b: Contents, entries: seq<DirEntry>, n: nat)
    requires n <= |entries|
    requires forall i :: 0 <= i < n && IsListed(load, entries[i]) ==> a(entries[i]) == b(entries[i])
    ensures Kept(load, a, entries, n) == Kept(load, b, entries, n)
  {
    if n > 0 {
      SameKept(load, a, b, entries, n - 1);
    }
  }

  /** A directory that its path leads to, and whose entries' paths lead to them, is listed as if by inodes. */
  lemma SameListing(volume: ExtVolume, base: string, h: U64, rel: seq<string>)
    requires Resolve(volume.load, PathOf(base, rel)) == Some(h)
    requires EntriesOf(volume.load, h).Some? ==> EntriesOwn(volume.load, PathOf(base, rel), EntriesOf(volume.load, h).value)
    ensures Listings(volume, base)(h, rel) == OwnListings(volume)(h, rel)
  {
    if EntriesOf(volume.load, h).Some? {
      var entries := EntriesOf(volume.load, h).value;
      SameKept(volume.load, ByPath(volume, PathOf(base, rel)), ByInode(volume), entries, |entries|);
    }
  }

  /** Where every path leads to its own inode, reading by paths is reading by inodes. */
  lemma {:induction false} OwnedIsSame(volume: ExtVolume, base: string, h: U64, rel: seq<string>)
    requires Resolve(volume.load, PathOf(base, rel)) == Some(h) && Owned(volume.load, base, h, rel)
    ensures var a, b := Listings(volume, base), OwnListings(volume);
            && RowsOf(a, h, rel) == RowsOf(b, h, rel)
            && (Clean(a, h, rel) <==> Clean(b, h, rel))
            && Dirs(a, h, rel) == Dirs(b, h, rel)
    decreases SatSub(MAX_PATH_DEPTH + 1, |rel|)
  {
    var a, b := Listings(volume, base), OwnListings(volume);
    hide Resolve;
    assert Owned(volume.load, base, h, rel);
    SameListing(volume, base, h, rel);
    if a(h, rel).Listed? && |rel| <= MAX_PATH_DEPTH {
      var entries := EntriesOf(volume.load, h).value;
      var children := a(h, rel).children;
      var items := DirItems(children, rel, |children|);
      OneLevel(a, h, rel);
      OneLevel(b, h, rel);
      var contents := ByInode(volume);
      assert children == Kept(volume.load, contents, entries, |entries|);
      hide Clean, Dirs, RowsOf, StackDirs, StackRows, FileRows, DirItems, ListingClean, Listings, OwnListings, Kept, Owned, IsSubdirectory;
      forall item <- items
        ensures RowsOf(a, item.handle, item.rel) == RowsOf(b, item.handle, item.rel)
        ensures Clean(a, item.handle, item.rel) <==> Clean(b, item.handle, item.rel)
        ensures Dirs(a, item.handle, item.rel) == Dirs(b, item.handle, item.rel)
      {
        var i := EntryOfItem(volume.load, contents, entries, rel, |entries|, item);
        OwnedChild(volume.load, base, h, rel, entries[i]);
        OwnedIsSame(volume, base, item.handle, item.rel);
      }
      SameStackRows(a, b, items);
      SameStackDirs(a, b, items);
    }
  }

  lemma {:induction false} SameStackDirs<H>(a: (H, seq<string>) -> Listing<H>, b: (H, seq<string>) -> Listing<H>, stack: seq<Item<H>>)
    requires forall item <- stack :: Dirs(a, item.handle, item.rel) == Dirs(b, item.handle, item.rel)
    ensures StackDirs(a, stack) == StackDirs(b, stack)
  {
    hide Dirs;
    if stack != [] {
      SameStackDirs(a, b, stack[..|stack| - 1]);
    }
  }

  // ---------------------------------------------------------------- names that are enough

  predicate Plain(name: string) {
    name != "" && '/' !in name
  }

  /** No entry has the name of an earlier one with another inode. */
  predicate Unambiguous(entries: seq<DirEntry>) {
    forall i, j :: 0 <= i < j < |entries| && entries[i].name == entries[j].name ==> IsSelf(entries[j]) || entries[i].inode == entries[j].inode
  }

  predicate PlainEntries(entries: seq<DirEntry>) {
    forall entry <- entries :: IsSelf(entry) || Plain(entry.name)
  }

  /** A directory's names are not empty, have no slash, and stand for one inode each. */
  predicate PlainNames(load: Inodes, h: U64) {
    var entries := EntriesOf(load, h);
    entries.Some? ==> PlainEntries(entries.value) && Unambiguous(entries.value)
  }

  /** The path of an entry with a plain name leads to the first entry of that name. */
  lemma LeadsToFirst(load: Inodes, path: string, h: U64, entries: seq<DirEntry>, name: string) returns (first: nat)
    requires Resolve(load, path) == Some(h) && EntriesOf(load, h) == Some(entries) && Plain(name)
    requires exists entry <- entries :: entry.name == name
    ensures first < |entries| && entries[first].name == name && forall j :: 0 <= j < first ==> entries[j].name != name
    ensures Resolve(load, ChildPath(path, name)) == Some(entries[first].inode)
  {
    ResolveChild(load, path, name);
    FirstNamedMeans(entries, name);
    first :| 0 <= first < |entries| && entries[first].name == name && Some(entries[first].inode) == FirstNamed(entries, name)
             && forall j :: 0 <= j < first ==> entries[j].name != name;
  }

  /** Among plain names whose inodes load, the paths lead to their entries exactly if each name stands for one inode. */
  lemma NamesExact(load: Inodes, path: string, h: U64, entries: seq<DirEntry>)
    requires Resolve(load, path) == Some(h) && EntriesOf(load, h) == Some(entries) && PlainEntries(entries)
    ensures Unambiguous(entries) ==> EntriesOwn(load, path, entries)
    ensures AllLoad(load, entries, |entries|) && EntriesOwn(load, path, entries) ==> Unambiguous(entries)
  {
    hide Resolve;
    if Unambiguous(entries) {
      forall entry <- entries | IsListed(load, entry) ensures OwnPath(load, path, entry) {
        var j :| 0 <= j < |entries| && entries[j] == entry;
        var first := LeadsToFirst(load, path, h, entries, entry.name);
        assert first <= j;
      }
    }
    if AllLoad(load, entries, |entries|) && EntriesOwn(load, path, entries) {
      forall i, j | 0 <= i < j < |entries| && entries[i].name == entries[j].name
        ensures IsSelf(entries[j]) || entries[i].inode == entries[j].inode
      {
        assert entries[i] in entries && entries[j] in entries;
      }
    }
  }

  /** If all directories met have such names, every path leads to its own inode. */
  lemma {:induction false} PlainIsOwned(volume: ExtVolume, base: string, h: U64, rel: seq<string>)
    requires Resolve(volume.load, PathOf(base, rel)) == Some(h)
    requires forall d <- Dirs(Listings(volume, base), h, rel) :: PlainNames(volume.load, d)
    ensures Owned(volume.load, base, h, rel)
    decreases SatSub(MAX_PATH_DEPTH + 1, |rel|)
  {
    hide Resolve, Dirs, Listings, PlainNames, PathOf, Lists;
    var a, load, path := Listings(volume, base), volume.load, PathOf(base, rel);
    if EntriesOf(load, h).Some? {
      var entries := EntriesOf(load, h).value;
      DirsHasItself(a, h, rel);
      PlainAreOwn(load, path, h, entries);
      if |rel| <= MAX_PATH_DEPTH {
        forall entry <- entries | IsSubdirectory(load, entry) ensures Owned(load, base, entry.inode, rel + [entry.name]) {
          hide Owned;
          IsItem(volume, base, h, rel, entries, entry);
          var item := ItemFor(entry, rel);
          DirsBelow(a, h, rel, item);
          PathOfChild(base, rel, entry.name);
          assert OwnPath(load, path, entry);
          PlainIsOwned(volume, base, item.handle, item.rel);
        }
      }
    }
  }

  lemma PlainAreOwn(load: Inodes, path: string, h: U64, entries: seq<DirEntry>)
    requires Resolve(load, path) == Some(h) && EntriesOf(load, h) == Some(entries) && PlainNames(load, h)
    ensures EntriesOwn(load, path, entries)
  {
    hide Resolve;
    NamesExact(load, path, h, entries);
  }

  function ItemFor(entry: DirEntry, rel: seq<string>): Item<U64> {
    Item(entry.inode, rel + [entry.name])
  }

  ghost predicate Lists<H>(list: (H, seq<string>) -> Listing<H>, h: H, rel: seq<string>, item: Item<H>) {
    list(h, rel).Listed? && item in DirItems(list(h, rel).children, rel, |list(h, rel).children|)
  }

  /** The directories below a stack entry of a listing are among those below the directory. */
  lemma DirsBelow<H>(list: (H, seq<string>) -> Listing<H>, h: H, rel: seq<string>, item: Item<H>)
    requires Lists(list, h, rel, item) && |rel| <= MAX_PATH_DEPTH
    ensures forall d <- Dirs(list, item.handle, item.rel) :: d in Dirs(list, h, rel)
  {
    hide Dirs, RowsOf, Clean, DirItems, FileRows, ListingClean, StackDirs, StackRows, StackClean;
    var children := list(h, rel).children;
    OneLevel(list, h, rel);
    StackDirsIncludes(list, DirItems(children, rel, |children|), item);
  }

  /** A listed subdirectory is a stack entry of the listing of the directory that its path leads to. */
  lemma IsItem(volume: ExtVolume, base: string, h: U64, rel: seq<string>, entries: seq<DirEntry>, entry: DirEntry)
    requires Resolve(volume.load, PathOf(base, rel)) == Some(h) && EntriesOf(volume.load, h) == Some(entries)
    requires entry in entries && IsSubdirectory(volume.load, entry)
    ensures Lists(Listings(volume, base), h, rel, ItemFor(entry, rel))
  {
    hide Resolve, Kept, DirItems, PathOf;
    var i :| 0 <= i < |entries| && entries[i] == entry;
    ItemOf(volume.load, ByPath(volume, PathOf(base, rel)), entries, rel, |entries|, i);
  }

  lemma {:induction false} StackDirsIncludes<H>(list: (H, seq<string>) -> Listing<H>, stack: seq<Item<H>>, item: Item<H>)
    requires item in stack
    ensures Dirs(list, item.handle, item.rel) <= StackDirs(list, stack)
  {
    hide Dirs;
    if item != stack[|stack| - 1] {
      StackDirsIncludes(list, stack[..|stack| - 1], item);
    }
  }

  // ---------------------------------------------------------------- no weaker condition will do

  function Zeros(n: nat): (s: seq<Byte>)
    ensures |s| == n
  {
    seq<Byte>(n, _ => 0)
  }

  /** The volume with other data in its files. */
  function WithData(volume: ExtVolume, read: U64 -> Option<seq<Byte>>): ExtVolume {
    volume.(read := read)
  }

  /** The volume whose files are as long as their inode numbers, so that no two have the same data. */
  function Labelled(volume: ExtVolume): ExtVolume {
    WithData(volume, n => Some(Zeros(n)))
  }

  predicate FileOwn(load: Inodes, path: string, entry: DirEntry) {
    IsListed(load, entry) && load(entry.inode).value.OtherInode? ==> OwnPath(load, path, entry)
  }

  lemma EntryTells(volume: ExtVolume, path: string, entry: DirEntry, rel: seq<string>)
    requires IsListed(volume.load, entry)
    requires ChildClean(ChildAt(volume.load, ByPath(volume, path), entry), rel)
    ensures var v := Labelled(volume);
            var a, b := ChildAt(volume.load, ByPath(v, path), entry), ChildAt(volume.load, ByInode(v), entry);
            && |ChildRow(a, rel)| == |ChildRow(b, rel)| && ChildItem(a, rel) == ChildItem(b, rel)
            && (ChildRow(a, rel) == ChildRow(b, rel) ==> FileOwn(volume.load, path, entry))
  {
    hide Resolve;
    var v := Labelled(volume);
    if volume.load(entry.inode).value.OtherInode? {
      var n := Resolve(volume.load, ChildPath(path, entry.name)).value;
      assert ReadPath(v, ChildPath(path, entry.name)) == Some(Zeros(n)) && v.read(entry.inode) == Some(Zeros(entry.inode));
    }
  }

  /** If a directory is listed cleanly, its labelled files tell whether they were read from their own inodes. */
  lemma {:induction false} FilesTell(volume: ExtVolume, path: string, entries: seq<DirEntry>, rel: seq<string>, n: nat)
    requires n <= |entries|
    requires var kept := Kept(volume.load, ByPath(volume, path), entries, n); ListingClean(kept, rel, |kept|)
    ensures var v := Labelled(volume);
            var a, b := Kept(v.load, ByPath(v, path), entries, n), Kept(v.load, ByInode(v), entries, n);
            && |FileRows(a, rel, |a|)| == |FileRows(b, rel, |b|)| && DirItems(a, rel, |a|) == DirItems(b, rel, |b|)
            && (FileRows(a, rel, |a|) == FileRows(b, rel, |b|) ==> forall i :: 0 <= i < n ==> FileOwn(volume.load, path, entries[i]))
  {
    hide FileRows, DirItems, ListingClean, Resolve, ChildRow, ChildItem, ChildClean, FileOwn, ChildAt, ByPath, ByInode, Labelled, Kept, IsListed;
    var v, load := Labelled(volume), volume.load;
    var seen, byPath, byInode := ByPath(volume, path), ByPath(v, path), ByInode(v);
    SameLoads(volume);
    if n == 0 {
      NoEntries(load, byPath, entries, rel);
      NoEntries(load, byInode, entries, rel);
    } else {
      var entry, a, b := entries[n - 1], Kept(load, byPath, entries, n - 1), Kept(load, byInode, entries, n - 1);
      OneMoreEntry(load, seen, entries, rel, n - 1);
      OneMoreEntry(load, byPath, entries, rel, n - 1);
      OneMoreEntry(load, byInode, entries, rel, n - 1);
      FilesTell(volume, path, entries, rel, n - 1);
      if IsListed(load, entry) {
        EntryTells(volume, path, entry, rel);
        SameParts(FileRows(a, rel, |a|), ChildRow(ChildAt(load, byPath, entry), rel),
                  FileRows(b, rel, |b|), ChildRow(ChildAt(load, byInode, entry), rel));
      } else {
        UnlistedIsOwn(load, path, entry);
      }
    }
  }

  lemma SameLoads(volume: ExtVolume)
    ensures Labelled(volume).load == volume.load
  {
  }

  lemma UnlistedIsOwn(load: Inodes, path: string, entry: DirEntry)
    requires !IsListed(load, entry)
    ensures FileOwn(load, path, entry)
  {
  }

  lemma {:induction false} StacksTell<H>(a: (H, seq<string>) -> Listing<H>, b: (H, seq<string>) -> Listing<H>, stack: seq<Item<H>>)
    requires forall item <- stack :: |RowsOf(a, item.handle, item.rel)| == |RowsOf(b, item.handle, item.rel)|
    ensures |StackRows(a, stack)| == |StackRows(b, stack)|
    ensures StackRows(a, stack) == StackRows(b, stack) ==>
              forall item <- stack :: RowsOf(a, item.handle, item.rel) == RowsOf(b, item.handle, item.rel)
  {
    hide RowsOf;
    if stack != [] {
      var init, top := stack[..|stack| - 1], stack[|stack| - 1];
      StacksTell(a, b, init);
      SameParts(RowsOf(a, top.handle, top.rel), StackRows(a, init), RowsOf(b, top.handle, top.rel), StackRows(b, init));
      assert stack == init + [top];
    }
  }

  lemma SameParts<T>(a: seq<T>, b: seq<T>, c: seq<T>, d: seq<T>)
    requires |a| == |c|
    ensures a + b == c + d ==> a == c && b == d
  {
    assert a == (a + b)[..|a|] && b == (a + b)[|a|..];
    assert c == (c + d)[..|a|] && d == (c + d)[|a|..];
  }

  /** The subdirectories that the export lists of the directory at `rel`. */
  function ItemsAt(volume: ExtVolume, base: string, rel: seq<string>, entries: seq<DirEntry>): seq<Item<U64>> {
    var kept := Kept(volume.load, ByPath(volume, PathOf(base, rel)), entries, |entries|);
    DirItems(kept, rel, |kept|)
  }

  /** One level of a cleanly listed volume: what its labelled files tell, and its subdirectories. */
  lemma LevelTells(volume: ExtVolume, base: string, h: U64, rel: seq<string>, entries: seq<DirEntry>)
    returns (fa: seq<Exported>, fb: seq<Exported>)
    requires Resolve(volume.load, PathOf(base, rel)) == Some(h) && EntriesOf(volume.load, h) == Some(entries)
    requires Clean(Listings(volume, base), h, rel)
    ensures |rel| <= MAX_PATH_DEPTH && |fa| == |fb|
    ensures fa == fb ==> forall i :: 0 <= i < |entries| ==> FileOwn(volume.load, PathOf(base, rel), entries[i])
    ensures var a, b, items := Listings(Labelled(volume), base), OwnListings(Labelled(volume)), ItemsAt(volume, base, rel, entries);
            && RowsOf(a, h, rel) == fa + StackRows(a, items) && RowsOf(b, h, rel) == fb + StackRows(b, items)
            && forall item <- items :: Clean(Listings(volume, base), item.handle, item.rel)
  {
    hide Resolve, RowsOf, Dirs, StackDirs, StackRows, FileRows, DirItems, ListingClean, Kept, FileOwn, PathOf, StackClean;
    var v, load, path := Labelled(volume), volume.load, PathOf(base, rel);
    var seen, a, b := Listings(volume, base), Listings(v, base), OwnListings(v);
    var ca, cb := Kept(load, ByPath(v, path), entries, |entries|), Kept(load, ByInode(v), entries, |entries|);
    fa, fb := FileRows(ca, rel, |ca|), FileRows(cb, rel, |cb|);
    OneLevel(seen, h, rel);
    OneLevel(a, h, rel);
    OneLevel(b, h, rel);
    FilesTell(volume, path, entries, rel, |entries|);
    ItemsSame(load, ByPath(volume, path), ByPath(v, path), entries, rel, |entries|);
    StackCleanMeans(seen, ItemsAt(volume, base, rel, entries));
  }

  lemma StackCleanMeans<H>(list: (H, seq<string>) -> Listing<H>, stack: seq<Item<H>>)
    requires StackClean(list, stack)
    ensures forall item <- stack :: Clean(list, item.handle, item.rel)
  {
  }

  /** The rows of the labelled volume tell whether all paths lead to their own inodes. */
  lemma {:induction false} RowsTell(volume: ExtVolume, base: string, h: U64, rel: seq<string>)
    requires Resolve(volume.load, PathOf(base, rel)) == Some(h) && DirsOwned(volume.load, base, h, rel)
    requires EntriesOf(volume.load, h).Some? && Clean(Listings(volume, base), h, rel)
    ensures var a, b := Listings(Labelled(volume), base), OwnListings(Labelled(volume));
            && |RowsOf(a, h, rel)| == |RowsOf(b, h, rel)|
            && (RowsOf(a, h, rel) == RowsOf(b, h, rel) ==> Owned(volume.load, base, h, rel))
    decreases SatSub(MAX_PATH_DEPTH + 1, |rel|)
  {
    hide Resolve, RowsOf, Dirs, StackDirs, StackRows, FileRows, DirItems, ListingClean, Listings, OwnListings, Kept,
         Clean, Owned, DirsOwned, FileOwn, IsSubdirectory, Labelled, PathOf;
    var load, entries := volume.load, EntriesOf(volume.load, h).value;
    var a, b, items := Listings(Labelled(volume), base), OwnListings(Labelled(volume)), ItemsAt(volume, base, rel, entries);
    var fa, fb := LevelTells(volume, base, h, rel, entries);
    var contents := ByPath(volume, PathOf(base, rel));
    forall item <- items
      ensures |RowsOf(a, item.handle, item.rel)| == |RowsOf(b, item.handle, item.rel)|
      ensures RowsOf(a, item.handle, item.rel) == RowsOf(b, item.handle, item.rel) ==> Owned(load, base, item.handle, item.rel)
    {
      var i := EntryOfItem(load, contents, entries, rel, |entries|, item);
      DirsOwnedChild(load, base, h, rel, entries[i]);
      CleanHasEntries(volume, base, item.handle, item.rel);
      RowsTell(volume, base, item.handle, item.rel);
    }
    StacksTell(a, b, items);
    SameParts(fa, StackRows(a, items), fb, StackRows(b, items));
    if RowsOf(a, h, rel) == RowsOf(b, h, rel) {
      forall entry <- entries | IsSubdirectory(load, entry) ensures Owned(load, base, entry.inode, rel + [entry.name]) {
        var i :| 0 <= i < |entries| && entries[i] == entry;
        ItemOf(load, contents, entries, rel, |entries|, i);
      }
      OwnedFrom(load, base, h, rel, entries);
    }
  }

  /** A directory that is listed cleanly has entries that can be read. */
  lemma CleanHasEntries(volume: ExtVolume, base: string, h: U64, rel: seq<string>)
    requires Resolve(volume.load, PathOf(base, rel)) == Some(h) && Clean(Listings(volume, base), h, rel)
    ensures EntriesOf(volume.load, h).Some?
  {
    hide Resolve;
  }

  lemma OwnedFrom(load: Inodes, base: string, h: U64, rel: seq<string>, entries: seq<DirEntry>)
    requires EntriesOf(load, h) == Some(entries) && DirsOwned(load, base, h, rel)
    requires forall i :: 0 <= i < |entries| ==> FileOwn(load, PathOf(base, rel), entries[i])
    requires forall entry <- entries :: IsSubdirectory(load, entry) ==> Owned(load, base, entry.inode, rel + [entry.name])
    ensures Owned(load, base, h, rel)
  {
    hide Resolve;
    forall entry <- entries | IsListed(load, entry) ensures OwnPath(load, PathOf(base, rel), entry) {
      var i :| 0 <= i < |entries| && entries[i] == entry;
      assert FileOwn(load, PathOf(base, rel), entries[i]);
    }
  }

  lemma DirsOwnedChild(load: Inodes, base: string, h: U64, rel: seq<string>, entry: DirEntry)
    requires DirsOwned(load, base, h, rel) && EntriesOf(load, h).Some? && entry in EntriesOf(load, h).value
    requires IsSubdirectory(load, entry) && |rel| <= MAX_PATH_DEPTH
    ensures DirsOwned(load, base, entry.inode, rel + [entry.name])
    ensures Resolve(load, PathOf(base, rel + [entry.name])) == Some(entry.inode)
  {
    hide Resolve;
    PathOfChild(base, rel, entry.name);
  }

  /** Contents do not change which subdirectories are listed. */
  lemma {:induction false} ItemsSame(load: Inodes, a: Contents, b: Contents, entries: seq<DirEntry>, rel: seq<string>, n: nat)
    requires n <= |entries|
    ensures var ka, kb := Kept(load, a, entries, n), Kept(load, b, entries, n);
            DirItems(ka, rel, |ka|) == DirItems(kb, rel, |kb|)
  {
    hide DirItems, FileRows, ListingClean, Kept, IsListed;
    if n == 0 {
      NoEntries(load, a, entries, rel);
      NoEntries(load, b, entries, rel);
    } else {
      ItemsSame(load, a, b, entries, rel, n - 1);
      OneMoreEntry(load, a, entries, rel, n - 1);
      OneMoreEntry(load, b, entries, rel, n - 1);
    }
  }

  /** Every directory is the one its path leads to, and whatever the files hold, each is read from its own inode. */
  ghost predicate ReadsOwn(volume: ExtVolume, base: string, h: U64) {
    && DirsOwned(volume.load, base, h, [])
    && forall read: U64 -> Option<seq<Byte>> :: var v := WithData(volume, read);
         RowsOf(Listings(v, base), h, []) == RowsOf(OwnListings(v), h, [])
  }

  /** Reading a cleanly listed volume by paths is reading it by inodes exactly if all paths lead to their own inodes. */
  lemma PathsExact(volume: ExtVolume, base: string, h: U64)
    requires Resolve(volume.load, base) == Some(h) && Clean(Listings(volume, base), h, [])
    ensures ReadsOwn(volume, base, h) <==> Owned(volume.load, base, h, [])
  {
    hide Resolve, Owned, DirsOwned, RowsOf, Clean, Listings, OwnListings;
    if Owned(volume.load, base, h, []) {
      OwnedDirs(volume.load, base, h, []);
      forall read: U64 -> Option<seq<Byte>>
        ensures var v := WithData(volume, read); RowsOf(Listings(v, base), h, []) == RowsOf(OwnListings(v), h, [])
      {
        OwnedIsSame(WithData(volume, read), base, h, []);
      }
    }
    if ReadsOwn(volume, base, h) {
      CleanHasEntries(volume, base, h, []);
      RowsTell(volume, base, h, []);
    }
  }

  // ---------------------------------------------------------------- inputs that show it

  /** A volume whose root directory has one entry, with an inode that does not load. */
  function UnloadableEntry(): ExtVolume {
    ExtVolume(h => if h == ROOT then Some(DirectoryInode(Some([DirEntry(12, "evidence.txt", RegularFile)]))) else None, h => None)
  }

  lemma RootIsRoot(load: Inodes)
    ensures Resolve(load, "/") == Some(2)
  {
    assert Split("/"[1..]) == [""];
    assert Split("/") == ["", ""] && ["", ""][1..] == [""] && [""][1..] == [];
    assert Follow(load, Some(ROOT), [""]) == Some(ROOT);
  }

  /** Its root is listed as an empty directory, which is clean, while what is stored is not. */
  lemma EntryIsOmitted()
    ensures var list := Listings(UnloadableEntry(), "/");
            Clean(list, ROOT, []) && RowsOf(list, ROOT, []) == [] && NoRepeats(Dirs(list, ROOT, []))
    ensures PlainNames(UnloadableEntry().load, ROOT)
    ensures !EntriesLoad(UnloadableEntry().load, ROOT) && !Clean(StoredListings(UnloadableEntry()), ROOT, [])
  {
    hide Resolve, Clean, Dirs, RowsOf, Kept, AllEntries, SubRows;
    var volume, list, stored := UnloadableEntry(), Listings(UnloadableEntry(), "/"), StoredListings(UnloadableEntry());
    var entries := [DirEntry(12, "evidence.txt", RegularFile)];
    var rel: seq<string> := [];
    RootIsRoot(volume.load);
    assert EntriesOf(volume.load, ROOT) == Some(entries) && !IsSelf(entries[0]);
    NothingKept(volume.load, ByPath(volume, "/"), ByInode(volume), entries);
    assert list(ROOT, rel) == Listed([], 0) && stored(ROOT, rel) == Listed([Child.Bad], 0);
    NoRows(list, ROOT);
    NotClean(stored, ROOT);
  }

  lemma NotClean(list: (U64, seq<string>) -> Listing<U64>, h: U64)
    requires list(h, []) == Listed([Child.Bad], 0)
    ensures !Clean(list, h, [])
  {
    OneLevel(list, h, []);
    BadChild<U64>([]);
  }

  lemma NothingKept(load: Inodes, a: Contents, b: Contents, entries: seq<DirEntry>)
    requires |entries| == 1 && load(entries[0].inode).None? && !IsSelf(entries[0])
    ensures |Kept(load, a, entries, 1)| == 0 && |AllEntries(load, b, entries, 1)| == 1 && AllEntries(load, b, entries, 1)[0] == Child.Bad
  {
  }

  lemma NoRows(list: (U64, seq<string>) -> Listing<U64>, h: U64)
    requires list(h, []) == Listed([], 0)
    ensures Clean(list, h, []) && RowsOf(list, h, []) == [] && NoRepeats(Dirs(list, h, []))
  {
    hide Clean, Dirs, RowsOf;
    OneLevel(list, h, []);
    NothingListed<U64>([]);
    assert StackRows(list, []) == [] && StackDirs(list, []) == multiset{} && StackClean(list, []);
  }

  lemma NoStackRows<H>(list: (H, seq<string>) -> Listing<H>)
    ensures StackRows(list, []) == []
  {
  }

  /** A volume whose root directory has two files of the same name. */
  function TwoOfOneName(): ExtVolume {
    ExtVolume(
      h => if h == ROOT then Some(DirectoryInode(Some([DirEntry(12, "a", RegularFile), DirEntry(13, "a", RegularFile)])))
           else if h == 12 || h == 13 then Some(OtherInode(1)) else None,
      h => if h == 12 then Some([1]) else if h == 13 then Some([2]) else None)
  }

  /** The first of them is read twice, although everything loads and is clean. */
  lemma SecondIsNotRead()
    ensures var list := Listings(TwoOfOneName(), "/");
            && Clean(list, ROOT, []) && NoRepeats(Dirs(list, ROOT, []))
            && RowsOf(list, ROOT, []) == [Exported(["a"], [1]), Exported(["a"], [1])]
    ensures Clean(StoredListings(TwoOfOneName()), ROOT, [])
    ensures RowsOf(StoredListings(TwoOfOneName()), ROOT, []) == [Exported(["a"], [1]), Exported(["a"], [2])]
    ensures EntriesLoad(TwoOfOneName().load, ROOT) && !PlainNames(TwoOfOneName().load, ROOT)
  {
    hide Resolve, Clean, Dirs, RowsOf, Kept, AllEntries;
    var volume := TwoOfOneName();
    var load, list, stored := volume.load, Listings(volume, "/"), StoredListings(volume);
    var entries := [DirEntry(12, "a", RegularFile), DirEntry(13, "a", RegularFile)];
    var root: U64, rel: seq<string> := ROOT, [];
    FirstOfTwo();
    assert EntriesOf(load, root) == Some(entries);
    var a, b := Child.File("a", 1, Some([1])), Child.File("a", 1, Some([2]));
    TwoFiles(load, ByPath(volume, "/"), entries, a, a);
    TwoFiles(load, ByInode(volume), entries, a, b);
    assert list(root, rel) == Listed([a, a], 0) && stored(root, rel) == Listed([a, b], 0);
    TwoRows(list, root, a, a);
    TwoRows(stored, root, a, b);
    assert entries[0].name == entries[1].name;
  }

  lemma FirstOfTwo()
    ensures var load := TwoOfOneName().load; Resolve(load, "/") == Some(ROOT) && Resolve(load, ChildPath("/", "a")) == Some(12)
  {
    hide Resolve;
    var load := TwoOfOneName().load;
    var entries := [DirEntry(12, "a", RegularFile), DirEntry(13, "a", RegularFile)];
    RootIsRoot(load);
    assert EntriesOf(load, ROOT) == Some(entries) && entries[0] in entries;
    var first := LeadsToFirst(load, "/", ROOT, entries, "a");
    assert first == 0;
  }

  lemma TwoFiles(load: Inodes, contents: Contents, entries: seq<DirEntry>, a: Child<U64>, b: Child<U64>)
    requires |entries| == 2 && IsListed(load, entries[0]) && IsListed(load, entries[1])
    requires ChildOf(entries[0], load(entries[0].inode).value, contents(entries[0])) == a
    requires ChildOf(entries[1], load(entries[1].inode).value, contents(entries[1])) == b
    ensures Kept(load, contents, entries, 2) == [a, b] == AllEntries(load, contents, entries, 2)
  {
    assert Kept(load, contents, entries, 1) == [a] && AllEntries(load, contents, entries, 1) == [a];
  }

  lemma TwoRows(list: (U64, seq<string>) -> Listing<U64>, h: U64, a: Child<U64>, b: Child<U64>)
    requires list(h, []) == Listed([a, b], 0) && a.File? && b.File? && ChildClean(a, []) && ChildClean(b, [])
    ensures Clean(list, h, []) && NoRepeats(Dirs(list, h, []))
    ensures RowsOf(list, h, []) == [Exported([a.name], a.content.value), Exported([b.name], b.content.value)]
  {
    var children, rel: seq<string> := [a, b], [];
    hide FileRows, DirItems, Clean, RowsOf, Dirs, SubRows, StackRows;
    NoStackRows(list);
    ListingStep(children, rel, 0);
    ListingStep(children, rel, 1);
    OneLevel(list, h, rel);
    assert rel + [a.name] == [a.name] && rel + [b.name] == [b.name];
    assert DirItems(children, rel, 2) == [];
    assert FileRows(children, rel, 2) == [Exported([a.name], a.content.value), Exported([b.name], b.content.value)];
    assert StackDirs(list, []) == multiset{} && StackClean(list, []);
  }
}
