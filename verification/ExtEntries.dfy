// An EXT export in terms of directory entries: which files lie behind which trails of entries, and
// that the rows of the tree are exactly these.
module ExtEntries {
  import opened Basics
  import opened Directory
  import opened ExportTree
  import opened ExtPaths
  import opened ExtListings
  import opened ExtNames

  /** The entry is in the directory and is neither the directory itself nor the one above. */
  predicate IsEntryOf(load: Inodes, h: U64, entry: DirEntry) {
    && load(h).Some? && load(h).value.DirectoryInode? && load(h).value.entries.Some? && entry in load(h).value.entries.value
    && entry.name != "." && entry.name != ".."
  }

  /** Following these entries from a directory, each through its own inode, ends at a file with this path and data. */
  ghost predicate EntryTrail(volume: ExtVolume, h: U64, rel: seq<string>, trail: seq<DirEntry>, file: Exported)
    decreases |trail|
  {
    && trail != [] && IsEntryOf(volume.load, h, trail[0])
    && var entry := trail[0];
       && volume.load(entry.inode).Some?
       && if |trail| == 1 then
            && volume.load(entry.inode).value.OtherInode?
            && volume.read(entry.inode) == Some(file.content) && file.path == rel + [entry.name]
          else
            && volume.load(entry.inode).value.DirectoryInode?
            && EntryTrail(volume, entry.inode, rel + [entry.name], trail[1..], file)
  }

  /** The volume has this file somewhere below the start. */
  ghost predicate HasFile(volume: ExtVolume, start: U64, file: Exported) {
    exists trail :: EntryTrail(volume, start, [], trail, file)
  }

  // ---------------------------------------------------------------- entries and children

  /** A listed entry is one of the children. */
  lemma {:induction false} ChildOfEntry(load: Inodes, contents: Contents, entries: seq<DirEntry>, n: nat, i: nat) returns (k: nat)
    requires i < n <= |entries| && IsListed(load, entries[i])
    ensures k < |Kept(load, contents, entries, n)| && Kept(load, contents, entries, n)[k] == ChildAt(load, contents, entries[i])
  {
    hide ChildOf;
    if i == n - 1 {
      k := |Kept(load, contents, entries, n - 1)|;
    } else {
      k := ChildOfEntry(load, contents, entries, n - 1, i);
    }
  }

  /** And every child is a listed entry. */
  lemma {:induction false} EntryOfChild(load: Inodes, contents: Contents, entries: seq<DirEntry>, n: nat, k: nat) returns (i: nat)
    requires n <= |entries| && k < |Kept(load, contents, entries, n)|
    ensures i < n && IsListed(load, entries[i]) && Kept(load, contents, entries, n)[k] == ChildAt(load, contents, entries[i])
  {
    if k < |Kept(load, contents, entries, n - 1)| {
      i := EntryOfChild(load, contents, entries, n - 1, k);
    } else {
      i := n - 1;
    }
  }

  // ---------------------------------------------------------------- trails of entries and of children

  /** A trail of entries is one through the listings. */
  lemma {:induction false} TrailOfChildren(volume: ExtVolume, h: U64, rel: seq<string>, trail: seq<DirEntry>, file: Exported)
    returns (children: seq<nat>)
    requires EntryTrail(volume, h, rel, trail, file)
    ensures Leads(OwnListings(volume), h, rel, children, file)
    decreases |trail|
  {
    var load, entry, contents := volume.load, trail[0], ByInode(volume);
    var entries := EntriesOf(load, h).value;
    var i :| 0 <= i < |entries| && entries[i] == entry;
    var k := ChildOfEntry(load, contents, entries, |entries|, i);
    if |trail| == 1 {
      children := [k];
    } else {
      var rest := TrailOfChildren(volume, entry.inode, rel + [entry.name], trail[1..], file);
      children := [k] + rest;
      assert children[1..] == rest && rest != [];
    }
  }

  /** A trail through the listings is one of entries. */
  lemma {:induction false} TrailOfEntries(volume: ExtVolume, h: U64, rel: seq<string>, children: seq<nat>, file: Exported)
    returns (trail: seq<DirEntry>)
    requires Leads(OwnListings(volume), h, rel, children, file)
    ensures EntryTrail(volume, h, rel, trail, file)
    decreases |children|
  {
    var load, contents := volume.load, ByInode(volume);
    var entries := EntriesOf(load, h).value;
    var i := EntryOfChild(load, contents, entries, |entries|, children[0]);
    var entry := entries[i];
    if |children| == 1 {
      trail := [entry];
    } else {
      var rest := TrailOfEntries(volume, entry.inode, rel + [entry.name], children[1..], file);
      trail := [entry] + rest;
      assert trail[1..] == rest && rest != [];
    }
  }

  /** Every row of a tree lies at the end of a trail. */
  lemma {:induction false} RowHasTrail<H>(list: (H, seq<string>) -> Listing<H>, h: H, rel: seq<string>, row: Exported)
    returns (trail: seq<nat>)
    requires row in RowsOf(list, h, rel)
    ensures Leads(list, h, rel, trail, row)
    decreases SatSub(MAX_PATH_DEPTH + 1, |rel|), 1, 0
  {
    var children := list(h, rel).children;
    if row in FileRows(children, rel, |children|) {
      var i := RowFrom(children, rel, |children|, row);
      trail := [i];
    } else {
      var i, rest := SubRowHasTrail(list, children, rel, |children|, row);
      trail := [i] + rest;
      assert trail[1..] == rest;
    }
  }

  lemma {:induction false} SubRowHasTrail<H>(list: (H, seq<string>) -> Listing<H>, children: seq<Child<H>>, rel: seq<string>, n: nat, row: Exported)
    returns (i: nat, rest: seq<nat>)
    requires n <= |children| && |rel| <= MAX_PATH_DEPTH && row in SubRows(list, children, rel, n)
    ensures i < n && children[i].Dir? && rest != [] && Leads(list, children[i].handle, rel + [children[i].name], rest, row)
    decreases SatSub(MAX_PATH_DEPTH + 1, |rel|), 0, n
  {
    hide RowsOf;
    var c := children[n - 1];
    if c.Dir? && row in RowsOf(list, c.handle, rel + [c.name]) {
      i := n - 1;
      rest := RowHasTrail(list, c.handle, rel + [c.name], row);
    } else {
      i, rest := SubRowHasTrail(list, children, rel, n - 1, row);
    }
  }

  /** The rows of a cleanly listed volume are exactly its files. */
  lemma RowsAreFiles(volume: ExtVolume, start: U64)
    requires Clean(OwnListings(volume), start, [])
    ensures forall file :: file in RowsOf(OwnListings(volume), start, []) <==> HasFile(volume, start, file)
  {
    hide RowsOf, Clean, Leads, EntryTrail, OwnListings;
    forall file ensures file in RowsOf(OwnListings(volume), start, []) <==> HasFile(volume, start, file) {
      if file in RowsOf(OwnListings(volume), start, []) {
        var children := RowHasTrail(OwnListings(volume), start, [], file);
        var trail := TrailOfEntries(volume, start, [], children, file);
      }
      if HasFile(volume, start, file) {
        var trail :| EntryTrail(volume, start, [], trail, file);
        var children := TrailOfChildren(volume, start, [], trail, file);
        EveryReachableFile(OwnListings(volume), start, [], children, file);
      }
    }
  }

  // ---------------------------------------------------------------- what is clean, by entries

  /** Following these entries, all of them directories, ends at this directory. */
  ghost predicate DirTrail(load: Inodes, h: U64, rel: seq<string>, trail: seq<DirEntry>, dir: Item<U64>)
    decreases |trail|
  {
    if trail == [] then dir == Item(h, rel)
    else
      && IsEntryOf(load, h, trail[0]) && load(trail[0].inode).Some? && load(trail[0].inode).value.DirectoryInode?
      && DirTrail(load, trail[0].inode, rel + [trail[0].name], trail[1..], dir)
  }

  predicate SmallEnough(size: nat) {
    size <= 0x4000_0000
  }

  /** The data can be read, and neither its declared nor its real size is above 1 GiB. */
  predicate FileFits(volume: ExtVolume, entry: DirEntry) {
    var inode := volume.load(entry.inode);
    inode.Some? && inode.value.OtherInode? ==>
      SmallEnough(inode.value.size) && volume.read(entry.inode).Some? && SmallEnough(|volume.read(entry.inode).value|)
  }

  /** The directory can be listed, is at most 1024 names deep, and its files fit. */
  ghost predicate DirFits(volume: ExtVolume, dir: Item<U64>) {
    && EntriesOf(volume.load, dir.handle).Some? && |dir.rel| <= 1024
    && forall entry :: IsEntryOf(volume.load, dir.handle, entry) ==> FileFits(volume, entry)
  }

  ghost predicate AllFit(volume: ExtVolume, h: U64, rel: seq<string>) {
    forall trail, dir :: DirTrail(volume.load, h, rel, trail, dir) ==> DirFits(volume, dir)
  }

  lemma {:induction false} CleanChildren(volume: ExtVolume, entries: seq<DirEntry>, rel: seq<string>, n: nat)
    requires n <= |entries|
    ensures var kept := Kept(volume.load, ByInode(volume), entries, n);
            ListingClean(kept, rel, |kept|) <==>
              forall i :: 0 <= i < n && IsListed(volume.load, entries[i]) ==>
                FileFits(volume, entries[i]) && (IsSubdirectory(volume.load, entries[i]) ==> |rel| < 1024)
  {
    hide ListingClean, FileRows, DirItems, ChildRow, ChildItem, Kept;
    if n == 0 {
      NoEntries(volume.load, ByInode(volume), entries, rel);
    } else {
      CleanChildren(volume, entries, rel, n - 1);
      OneMoreEntry(volume.load, ByInode(volume), entries, rel, n - 1);
    }
  }

  lemma Itself(volume: ExtVolume, h: U64, rel: seq<string>)
    ensures AllFit(volume, h, rel) ==> DirFits(volume, Item(h, rel))
  {
    assert DirTrail(volume.load, h, rel, [], Item(h, rel));
  }

  /** All directories fit if the first one does and all below each of its subdirectories. */
  lemma AllFitStep(volume: ExtVolume, h: U64, rel: seq<string>, entries: seq<DirEntry>)
    requires EntriesOf(volume.load, h) == Some(entries)
    ensures AllFit(volume, h, rel) <==>
              && DirFits(volume, Item(h, rel))
              && forall i :: 0 <= i < |entries| && IsSubdirectory(volume.load, entries[i]) ==>
                   AllFit(volume, entries[i].inode, rel + [entries[i].name])
  {
    hide DirFits;
    var load := volume.load;
    Itself(volume, h, rel);
    if AllFit(volume, h, rel) {
      forall i | 0 <= i < |entries| && IsSubdirectory(load, entries[i])
        ensures AllFit(volume, entries[i].inode, rel + [entries[i].name])
      {
        forall trail, dir | DirTrail(load, entries[i].inode, rel + [entries[i].name], trail, dir) ensures DirFits(volume, dir) {
          assert ([entries[i]] + trail)[1..] == trail;
          assert DirTrail(load, h, rel, [entries[i]] + trail, dir);
        }
      }
    }
    if DirFits(volume, Item(h, rel)) && forall i :: 0 <= i < |entries| && IsSubdirectory(load, entries[i]) ==>
                                          AllFit(volume, entries[i].inode, rel + [entries[i].name])
    {
      forall trail, dir | DirTrail(load, h, rel, trail, dir) ensures DirFits(volume, dir) {
        if trail != [] {
          var i :| 0 <= i < |entries| && entries[i] == trail[0];
          assert DirTrail(load, entries[i].inode, rel + [entries[i].name], trail[1..], dir);
        }
      }
    }
  }

  /** The directory fits if its listed files do. */
  lemma DirFitsMeans(volume: ExtVolume, h: U64, rel: seq<string>, entries: seq<DirEntry>)
    requires EntriesOf(volume.load, h) == Some(entries) && |rel| <= 1024
    ensures DirFits(volume, Item(h, rel)) <==>
              forall i :: 0 <= i < |entries| && IsListed(volume.load, entries[i]) ==> FileFits(volume, entries[i])
  {
    if forall i :: 0 <= i < |entries| && IsListed(volume.load, entries[i]) ==> FileFits(volume, entries[i]) {
      forall entry | IsEntryOf(volume.load, h, entry) ensures FileFits(volume, entry) {
        var i :| 0 <= i < |entries| && entries[i] == entry;
      }
    }
  }

  /** A volume lists cleanly exactly if all its directories fit. */
  lemma {:induction false} CleanMeansFits(volume: ExtVolume, h: U64, rel: seq<string>)
    ensures Clean(OwnListings(volume), h, rel) <==> AllFit(volume, h, rel)
    decreases SatSub(MAX_PATH_DEPTH + 1, |rel|)
  {
    Itself(volume, h, rel);
    if EntriesOf(volume.load, h).Some? && |rel| <= 1024 {
      var entries := EntriesOf(volume.load, h).value;
      var items := OwnItems(volume, rel, entries);
      hide Clean, AllFit, OwnListings, OwnItems, IsSubdirectory, DirFits, FileFits;
      OwnLevel(volume, h, rel, entries);
      AllFitStep(volume, h, rel, entries);
      DirFitsMeans(volume, h, rel, entries);
      forall i | 0 <= i < |entries| && IsSubdirectory(volume.load, entries[i])
        ensures |rel| < 1024 ==> (OwnClean(volume, entries[i].inode, rel + [entries[i].name]) <==>
                                  AllFit(volume, entries[i].inode, rel + [entries[i].name]))
        ensures AllFit(volume, entries[i].inode, rel + [entries[i].name]) ==> |rel| < 1024
      {
        CleanMeansFits(volume, entries[i].inode, rel + [entries[i].name]);
        DepthFits(volume, entries[i].inode, rel + [entries[i].name]);
      }
    }
  }

  ghost predicate OwnClean(volume: ExtVolume, h: U64, rel: seq<string>) {
    Clean(OwnListings(volume), h, rel)
  }

  lemma DepthFits(volume: ExtVolume, h: U64, rel: seq<string>)
    ensures AllFit(volume, h, rel) ==> |rel| <= 1024
  {
    hide AllFit;
    Itself(volume, h, rel);
  }

  function OwnItems(volume: ExtVolume, rel: seq<string>, entries: seq<DirEntry>): seq<Item<U64>> {
    var kept := Kept(volume.load, ByInode(volume), entries, |entries|);
    DirItems(kept, rel, |kept|)
  }

  /** What is clean one level down. */
  lemma OwnLevel(volume: ExtVolume, h: U64, rel: seq<string>, entries: seq<DirEntry>)
    requires EntriesOf(volume.load, h) == Some(entries) && |rel| <= 1024
    ensures Clean(OwnListings(volume), h, rel) <==>
              forall i :: 0 <= i < |entries| && IsListed(volume.load, entries[i]) ==>
                && FileFits(volume, entries[i])
                && (IsSubdirectory(volume.load, entries[i]) ==>
                      |rel| < 1024 && OwnClean(volume, entries[i].inode, rel + [entries[i].name]))
  {
    hide Clean, RowsOf, Dirs, Kept, DirItems, FileRows, ListingClean, StackDirs, StackRows, FileFits;
    var load, list, contents := volume.load, OwnListings(volume), ByInode(volume);
    var kept := Kept(load, contents, entries, |entries|);
    var items := DirItems(kept, rel, |kept|);
    assert list(h, rel) == Listed(kept, 0);
    OneLevel(list, h, rel);
    CleanChildren(volume, entries, rel, |entries|);
    hide OwnListings, IsSubdirectory;
    forall item <- items
      ensures exists i :: 0 <= i < |entries| && IsSubdirectory(load, entries[i]) && IsListed(load, entries[i])
                          && item == Item(entries[i].inode, rel + [entries[i].name])
    {
      var i := EntryOfItem(load, contents, entries, rel, |entries|, item);
      IsListedToo(load, entries[i]);
    }
    forall i | 0 <= i < |entries| && IsSubdirectory(load, entries[i]) ensures ItemFor(entries[i], rel) in items {
      ItemOf(load, contents, entries, rel, |entries|, i);
    }
  }

  lemma IsListedToo(load: Inodes, entry: DirEntry)
    ensures IsSubdirectory(load, entry) ==> IsListed(load, entry)
  {
  }
}
