// The tree export: the sink with its limits and counters, and the three walks over EXT, FAT and
// NTFS directories. An export that does not say it is truncated has every file that was listed.
module Export {
  import opened Basics
  import opened Decimals
  import opened ExportTree
  import opened ExtPaths
  import opened ExtListings
  import opened ExtNames
  import opened ExtEntries

  const MAX_SKIP_NOTES: nat := 100
  const MAX_NTFS_DIAGNOSTICS: nat := 8

  function TotalSize(rows: seq<Exported>): nat {
    if rows == [] then 0 else TotalSize(rows[..|rows| - 1]) + |rows[|rows| - 1].content|
  }

  lemma TotalSizeStep(rows: seq<Exported>, row: Exported)
    ensures TotalSize(rows + [row]) == TotalSize(rows) + |row.content|
  {
    assert (rows + [row])[..|rows|] == rows;
  }

  /** Each exported file has an output path of its own: a new one, numbered from its sanitized path. */
  ghost predicate OutputsAgree(sanitize: seq<string> -> string, outputs: seq<string>, exported: seq<Exported>,
                               written: set<string>, existing: set<string>)
  {
    && |outputs| == |exported|
    && (forall i, j :: 0 <= i < j < |outputs| ==> outputs[i] != outputs[j])
    && (forall o <- outputs :: o in written && o !in existing)
    && (forall i :: 0 <= i < |outputs| ==> Variant(outputs[i], sanitize(exported[i].path)))
  }

  lemma OutputsMore(sanitize: seq<string> -> string, outputs: seq<string>, exported: seq<Exported>,
                    written: set<string>, more: set<string>, existing: set<string>)
    requires OutputsAgree(sanitize, outputs, exported, written, existing) && written <= more
    ensures OutputsAgree(sanitize, outputs, exported, more, existing)
  {
    hide Variant;
  }

  lemma OutputsPush(sanitize: seq<string> -> string, outputs: seq<string>, exported: seq<Exported>,
                    written: set<string>, existing: set<string>, row: Exported, unique: string)
    requires OutputsAgree(sanitize, outputs, exported, written, existing) && unique !in written && unique !in existing
    requires Variant(unique, sanitize(row.path))
    ensures OutputsAgree(sanitize, outputs + [unique], exported + [row], written + {unique}, existing)
  {
    hide Variant;
  }

  class TreeExportSink {
    const maxFiles: Option<nat>
    const existing: set<string>
    const sanitize: seq<string> -> string
    const writeFails: string -> bool
    var files: nat
    var bytes: nat
    var dirs: nat
    var skippedCount: nat
    var skippedNotes: nat
    var oversizedFilesSkipped: nat
    var fileLimitReached: bool
    var truncated: bool
    var written: set<string>
    var folders: set<string>
    var exported: seq<Exported>
    var outputs: seq<string>

    /**
     * A limit of zero files means no limit. `existing` are the paths already in the output folder,
     * `writeFails` tells for which output paths creating the folders or writing the file fails.
     */
    constructor (maxFiles: Option<nat>, existing: set<string>, sanitize: seq<string> -> string, writeFails: string -> bool)
      ensures Valid() && !truncated && exported == [] && dirs == 0
      ensures this.maxFiles == (if maxFiles == Some(0) then None else maxFiles) && this.existing == existing
      ensures this.sanitize == sanitize && this.writeFails == writeFails
    {
      this.maxFiles := if maxFiles == Some(0) then None else maxFiles;
      this.existing, this.sanitize, this.writeFails := existing, sanitize, writeFails;
      files, bytes, dirs, skippedCount, skippedNotes, oversizedFilesSkipped := 0, 0, 0, 0, 0, 0;
      fileLimitReached, truncated, written, folders, exported, outputs := false, false, {}, {}, [], [];
    }

    /** Counters, manifest rows and outputs agree; the limit holds; nothing is lost silently. */
    ghost predicate Valid()
      reads this
    {
      && files == |exported| == |outputs| && bytes == TotalSize(exported)
      && (maxFiles.Some? ==> files <= maxFiles.value)
      && OutputsAgree(sanitize, outputs, exported, written, existing)
      && (skippedCount > 0 || fileLimitReached ==> truncated)
      && skippedNotes == Min(skippedCount, 100)
      && oversizedFilesSkipped <= skippedCount
    }

    predicate FileBudgetLeft()
      reads this
    {
      maxFiles.Some? ==> files < maxFiles.value
    }

    /** No write to the output folder fails. */
    ghost predicate AlwaysWrites() {
      forall path :: !writeFails(path)
    }

    method MarkFileLimitReached()
      requires Valid()
      modifies this`fileLimitReached, this`truncated
      ensures Valid() && truncated && fileLimitReached
    {
      fileLimitReached, truncated := true, true;
    }

    method Skip()
      requires Valid()
      modifies this`skippedCount, this`skippedNotes, this`truncated
      ensures Valid() && truncated && skippedCount == old(skippedCount) + 1
    {
      skippedCount := skippedCount + 1;
      truncated := true;
      if skippedNotes < MAX_SKIP_NOTES {
        skippedNotes := skippedNotes + 1;
      }
    }

    method SkipOversized()
      requires Valid()
      modifies this`skippedCount, this`skippedNotes, this`truncated, this`oversizedFilesSkipped
      ensures Valid() && truncated && skippedCount == old(skippedCount) + 1
      ensures oversizedFilesSkipped == old(oversizedFilesSkipped) + 1
    {
      Skip();
      oversizedFilesSkipped := oversizedFilesSkipped + 1;
    }

    /** The folders above a path. */
    ghost function FoldersOf(rel: seq<string>, n: nat): set<string>
      requires n <= |rel|
    {
      if n == 0 then {} else FoldersOf(rel, n - 1) + {sanitize(rel[..n])}
    }

    method CreateFolders(rel: seq<string>)
      requires rel != []
      modifies this`folders
      ensures folders == old(folders) + FoldersOf(rel, |rel| - 1)
    {
      for i := 0 to |rel| - 1
        invariant folders == old(folders) + FoldersOf(rel, i)
      {
        folders := folders + {sanitize(rel[..i + 1])};
      }
    }

    /**
     * A fresh output path: the first one of the sanitized path, path-2, path-3 and so on that is
     * not there yet, neither as a file nor as a folder, which includes the folders made for it.
     */
    method UniqueOutputPath(rel: seq<string>) returns (unique: string)
      requires rel != []
      modifies this`written, this`folders
      ensures folders == old(folders) + FoldersOf(rel, |rel| - 1)
      ensures unique !in existing + folders && unique !in old(written) && written == old(written) + {unique}
      ensures FirstFree(unique, sanitize(rel), existing + folders + old(written)) && Variant(unique, sanitize(rel))
    {
      hide Variants, Numbered;
      CreateFolders(rel);
      var target := sanitize(rel);
      unique := target;
      var suffix := 2;
      VariantFresh(target, 1);
      while unique in existing || unique in folders || unique in written
        invariant written == old(written) && folders == old(folders) + FoldersOf(rel, |rel| - 1)
        invariant suffix >= 2 && unique == Numbered(target, suffix - 1)
        invariant Variants(target, suffix - 1) <= existing + folders + written
        decreases existing + folders + written - Variants(target, suffix - 1)
      {
        VariantFresh(target, suffix - 1);
        VariantFresh(target, suffix);
        unique := Numbered(target, suffix);
        suffix := suffix + 1;
      }
      assert FirstFree(unique, target, existing + folders + written) by {
        assert unique == Numbered(target, suffix - 1);
      }
      written := written + {unique};
    }

    /** Publishes one file and its manifest row; `false` is a write error that ends the export. */
    method WriteFile(rel: seq<string>, content: seq<Byte>) returns (ok: bool)
      requires Valid() && FileBudgetLeft() && rel != []
      modifies this
      ensures Valid() && dirs == old(dirs)
      ensures old(truncated) ==> truncated
      ensures !ok ==> exported == old(exported)
      ensures |content| > EXPORT_MAX_BYTES ==> ok && truncated && exported == old(exported)
      ensures ok && |content| <= EXPORT_MAX_BYTES ==>
                exported == old(exported) + [Exported(rel, content)] && truncated == old(truncated)
      ensures AlwaysWrites() ==> ok
    {
      hide FirstFree, Variant, TotalSize, OutputsAgree;
      if |content| > EXPORT_MAX_BYTES {
        SkipOversized();
        return true;
      }
      ghost var before := written;
      var unique := UniqueOutputPath(rel);
      OutputsMore(sanitize, outputs, exported, before, written, existing);
      if writeFails(unique) {
        return false;
      }
      OutputsPush(sanitize, outputs, exported, before, existing, Exported(rel, content), unique);
      TotalSizeStep(exported, Exported(rel, content));
      exported := exported + [Exported(rel, content)];
      outputs := outputs + [unique];
      files := files + 1;
      bytes := bytes + |content|;
      ok := true;
    }

    /** The file arm of a walk: too large, unreadable, or written. */
    method ExportFile<H>(child: Child<H>, rel: seq<string>) returns (ok: bool)
      requires Valid() && FileBudgetLeft() && child.File?
      modifies this
      ensures Valid() && dirs == old(dirs)
      ensures !FileClean(child) || old(truncated) ==> truncated
      ensures ok && FileClean(child) ==>
                exported == old(exported) + [Exported(rel + [child.name], child.content.value)] && truncated == old(truncated)
      ensures !ok || !FileClean(child) ==> exported == old(exported)
      ensures !FileClean(child) ==> ok
      ensures AlwaysWrites() ==> ok
    {
      ok := true;
      if child.size > EXPORT_MAX_BYTES {
        SkipOversized();
      } else if child.content.None? {
        Skip();
      } else {
        ok := WriteFile(rel + [child.name], child.content.value);
      }
    }

    /** One entry of a directory: what it adds to the stack, unless its handle is `seen`. */
    method ExportChild<H(==)>(child: Child<H>, rel: seq<string>, seen: set<H>) returns (ok: bool, pushed: seq<Item<H>>)
      requires Valid() && FileBudgetLeft()
      modifies this
      ensures Valid() && dirs == old(dirs) && (old(truncated) ==> truncated)
      ensures child.Dir? && child.handle in seen ==> pushed == []
      ensures pushed != [] ==> pushed[0].handle !in seen
      ensures !(child.Dir? && child.handle in seen) ==>
                && pushed == (if |rel| < MAX_PATH_DEPTH then ChildItem(child, rel) else [])
                && (ok ==> truncated == (old(truncated) || !ChildClean(child, rel)))
      ensures ok && !truncated ==>
                && exported == old(exported) + ChildRow(child, rel)
                && pushed == ChildItem(child, rel)
                && ChildClean(child, rel)
      ensures exported == old(exported) || exported == old(exported) + ChildRow(child, rel)
      ensures AlwaysWrites() ==> ok
    {
      ok, pushed := true, [];
      match child
      case Dot =>
      case Bad => Skip();
      case File(_, _, _) => ok := ExportFile(child, rel);
      case Dir(name, handle) =>
        if |rel| + 1 > MAX_PATH_DEPTH {
          Skip();
        } else if handle in seen {
          Skip();
        } else {
          pushed := [Item(handle, rel + [name])];
        }
    }

    /**
     * The loop over one directory's entries. `seen` is consulted and extended for each
     * subdirectory if `once` is set, as in the EXT walk. Unless the export becomes truncated,
     * every file is written and every subdirectory is put on the stack.
     */
    method ExportChildren<H(==)>(children: seq<Child<H>>, rel: seq<string>, stack: seq<Item<H>>, seen: set<H>, once: bool)
      returns (ok: bool, newStack: seq<Item<H>>, newSeen: set<H>, ghost items: seq<Item<H>>, ghost n: nat)
      requires Valid()
      modifies this
      ensures Valid() && dirs == old(dirs) && (old(truncated) ==> truncated)
      ensures newStack == stack + items && Below(items, rel)
      ensures once ==> New(items, seen) && newSeen == seen + Handles(items)
      ensures !once ==> n <= |children| && items == if |rel| < MAX_PATH_DEPTH then DirItems(children, rel, n) else []
      ensures ok && !truncated ==>
                && exported == old(exported) + FileRows(children, rel, |children|)
                && items == DirItems(children, rel, |children|)
                && ListingClean(children, rel, |children|)
      ensures !old(truncated) && ok && Untroubled(children, rel, |children|, seen, once) && truncated ==>
                Limited(old(exported) + FileRows(children, rel, |children|))
      ensures Picked(children, rel, |children|, items, old(exported), exported)
      ensures AlwaysWrites() ==> ok
    {
      hide Valid, AlwaysWrites, FileRows, DirItems, ListingClean, ChildClean, ChildRow, ChildItem, Below, New, Handles,
           Untroubled, Processed, Marked, Picked, FileBudgetLeft, Limited;
      ok, newStack, newSeen := true, stack, seen;
      items := [];
      n := 0;
      ghost var was, partial := exported, truncated;
      NothingProcessed(children, rel, seen, once, was, partial);
      NothingPicked(children, rel, was);
      for i := 0 to |children|
        invariant n == i && ok && Valid() && dirs == old(dirs) && (partial ==> truncated)
        invariant newStack == stack + items && Marked(items, rel, seen, once, newSeen)
        invariant Processed(children, rel, i, seen, once, items, was, exported, partial, truncated)
        invariant Picked(children, rel, i, items, was, exported)
      {
        ProcessedMeans(children, rel, i, seen, once, items, was, exported, partial, truncated);
        MarkedMeans(items, rel, seen, once, newSeen);
        if !FileBudgetLeft() {
          StopListing(children, rel, i, seen, once, items, was, partial);
          return;
        }
        n := i + 1;
        var pushed: seq<Item<H>>;
        ok, pushed, newSeen := ExportNext(children, i, rel, newSeen, once, seen, items, was, partial);
        newStack := newStack + pushed;
        items := items + pushed;
        if !ok {
          MarkedMeans(items, rel, seen, once, newSeen);
          PickedPrefix(children, rel, i + 1, items, was, exported);
          return;
        }
      }
      MarkedMeans(items, rel, seen, once, newSeen);
      ProcessedMeans(children, rel, n, seen, once, items, was, exported, partial, truncated);
    }

    /** One round of the loop; the subdirectory it finds is marked if `once` is set. */
    method ExportNext<H(==)>(children: seq<Child<H>>, i: nat, rel: seq<string>, marked: set<H>, once: bool,
                             ghost seen: set<H>, ghost items: seq<Item<H>>, ghost was: seq<Exported>, ghost partial: bool)
      returns (ok: bool, pushed: seq<Item<H>>, newMarked: set<H>)
      requires Valid() && FileBudgetLeft() && i < |children|
      requires Marked(items, rel, seen, once, marked)
      requires Processed(children, rel, i, seen, once, items, was, exported, partial, truncated)
      requires Picked(children, rel, i, items, was, exported)
      modifies this
      ensures Valid() && dirs == old(dirs) && (old(truncated) ==> truncated)
      ensures Marked(items + pushed, rel, seen, once, newMarked)
      ensures ok ==> Processed(children, rel, i + 1, seen, once, items + pushed, was, exported, partial, truncated)
      ensures !once ==> items + pushed == if |rel| < MAX_PATH_DEPTH then DirItems(children, rel, i + 1) else []
      ensures Picked(children, rel, i + 1, items + pushed, was, exported)
      ensures AlwaysWrites() ==> ok
    {
      hide Valid, AlwaysWrites, FileRows, DirItems, ListingClean, ChildClean, ChildRow, ChildItem, Below, New, Handles,
           Untroubled, Processed, Marked, Picked, FileBudgetLeft;
      ghost var before, partialBefore := exported, truncated;
      ProcessedMeans(children, rel, i, seen, once, items, was, exported, partial, truncated);
      MarkedMeans(items, rel, seen, once, marked);
      ok, pushed := ExportChild(children[i], rel, if once then marked else {});
      MarkedStep(items, rel, seen, once, marked, children[i], pushed);
      if ok {
        ProcessedStep(children, rel, i, seen, once, items, pushed, was, before, exported, partial, partialBefore, truncated);
      }
      ItemsStep(children, rel, i, once, items, pushed);
      PickedStep(children, rel, i, items, pushed, was, before, exported);
      newMarked := if once && pushed != [] then marked + {pushed[0].handle} else marked;
    }

    /** A file limit that is used up within a listing. */
    method StopListing<H>(ghost children: seq<Child<H>>, ghost rel: seq<string>, ghost i: nat, ghost seen: set<H>, ghost once: bool,
                          ghost items: seq<Item<H>>, ghost was: seq<Exported>, ghost partial: bool)
      requires Valid() && !FileBudgetLeft() && i <= |children|
      requires Processed(children, rel, i, seen, once, items, was, exported, partial, truncated)
      requires Picked(children, rel, i, items, was, exported)
      modifies this`fileLimitReached, this`truncated
      ensures Valid() && truncated && Picked(children, rel, |children|, items, was, exported)
      ensures !partial && Untroubled(children, rel, |children|, seen, once) ==> Limited(was + FileRows(children, rel, |children|))
    {
      hide Valid, FileRows, DirItems, ListingClean, Untroubled, Processed, Picked, FileBudgetLeft, Limited;
      ProcessedMeans(children, rel, i, seen, once, items, was, exported, partial, truncated);
      PickedPrefix(children, rel, i, items, was, exported);
      if Untroubled(children, rel, |children|, seen, once) {
        UntroubledPrefix(children, rel, i, seen, once);
      }
      FileRowsPrefix(children, rel, i, |children|);
      BudgetGone(was + FileRows(children, rel, |children|));
      MarkFileLimitReached();
    }

    /** The file limit is used up, by the first of these rows. */
    ghost predicate Limited(all: seq<Exported>)
      reads this`exported
    {
      maxFiles.Some? && |exported| == maxFiles.value && exported <= all
    }

    lemma BudgetGone(all: seq<Exported>)
      requires Valid() && !FileBudgetLeft()
      ensures exported <= all ==> Limited(all)
    {
      hide TotalSize, OutputsAgree;
    }

    /** What holds between two rounds of a walk; `tree` says that nothing but a file limit can make it partial. */
    ghost predicate Progress<H>(list: (H, seq<string>) -> Listing<H>, start: H, stack: seq<Item<H>>, tree: bool)
      reads this
    {
      && Valid() && Shallow(stack) && Found(list, start, stack, exported)
      && (!truncated ==> Pending(list, start, stack, exported))
      && (tree && truncated ==> Limited(RowsOf(list, start, [])))
    }

    /** A walk begins with an empty sink. */
    lemma ProgressStart<H>(list: (H, seq<string>) -> Listing<H>, start: H, tree: bool)
      requires Valid() && exported == [] && !truncated
      ensures Progress(list, start, [Item(start, [])], tree)
    {
      hide Valid, Pending, Found, RowsOf;
      PendingInit(list, start);
      FoundStart(list, start);
    }

    /** A file limit that is used up before the next directory is listed. */
    method StopAtLimit<H>(ghost list: (H, seq<string>) -> Listing<H>, ghost start: H, ghost rest: seq<Item<H>>, ghost top: Item<H>, ghost tree: bool)
      requires Progress(list, start, rest + [top], tree) && !FileBudgetLeft()
      modifies this`fileLimitReached, this`truncated
      ensures Progress(list, start, [], tree) && truncated
    {
      hide Valid, Found, RowsOf, Pending, FileBudgetLeft;
      BudgetGone(RowsOf(list, start, []));
      if !truncated {
        PendingPrefix(list, start, rest + [top], exported);
      }
      FoundNothingPending(list, start, rest + [top], exported);
      MarkFileLimitReached();
    }

    /** The directory at the top of the stack cannot be listed. */
    method SkipDirectory<H>(ghost list: (H, seq<string>) -> Listing<H>, ghost start: H, ghost rest: seq<Item<H>>, ghost top: Item<H>, ghost tree: bool)
      requires Progress(list, start, rest + [top], tree) && list(top.handle, top.rel).Unreadable?
      requires FileBudgetLeft() && (tree ==> Clean(list, start, []))
      modifies this`dirs, this`skippedCount, this`skippedNotes, this`truncated
      ensures Progress(list, start, rest, tree) && truncated && dirs == old(dirs) + 1
    {
      hide Valid, Found, RowsOf, Pending, FileBudgetLeft, Clean;
      TopIsShallow(rest, top);
      UntilLimit(list, start, rest + [top], tree);
      if tree {
        PendingClean(list, start, rest, top, exported);
      }
      FoundPop(list, start, rest, top, exported);
      CountDirectory();
      Skip();
    }

    /** As long as files may be written, only a file limit can have stopped a tree. */
    lemma UntilLimit<H>(list: (H, seq<string>) -> Listing<H>, start: H, stack: seq<Item<H>>, tree: bool)
      requires Progress(list, start, stack, tree) && FileBudgetLeft()
      ensures tree ==> !truncated
    {
      hide Found, RowsOf, Pending, TotalSize, OutputsAgree;
    }

    /** The directory at the top of the stack, listed; `diagnostics` of it are noted first. */
    method ListDirectory<H(==)>(children: seq<Child<H>>, diagnostics: nat, ghost list: (H, seq<string>) -> Listing<H>, ghost start: H,
                                rest: seq<Item<H>>, top: Item<H>, seen: set<H>, once: bool, ghost tree: bool)
      returns (ok: bool, stack: seq<Item<H>>, newSeen: set<H>, ghost items: seq<Item<H>>, ghost n: nat)
      requires Progress(list, start, rest + [top], tree) && list(top.handle, top.rel) == Listed(children, diagnostics)
      requires FileBudgetLeft() && (tree ==> Clean(list, start, []))
      requires tree && once ==> New(DirItems(children, top.rel, |children|), seen)
      modifies this
      ensures Valid() && dirs == old(dirs) + 1
      ensures stack == rest + items && Below(items, top.rel)
      ensures once ==> New(items, seen) && newSeen == seen + Handles(items)
      ensures !once ==> n <= |children| && items == if |top.rel| < MAX_PATH_DEPTH then DirItems(children, top.rel, n) else []
      ensures ok ==> Progress(list, start, stack, tree)
      ensures ok && !truncated ==> !old(truncated) && items == DirItems(children, top.rel, |children|)
      ensures forall row <- exported :: Led(list, start, row)
      ensures AlwaysWrites() ==> ok
    {
      hide Valid, Found, RowsOf, Pending, FileBudgetLeft, Clean, FileRows, DirItems, ListingClean, Below, New, Handles,
           AlwaysWrites, Led, Picked, Untroubled;
      TopIsShallow(rest, top);
      UntilLimit(list, start, rest + [top], tree);
      if tree {
        PendingClean(list, start, rest, top, exported);
        UntroubledIs(children, top.rel, seen, once);
      }
      ghost var before := exported;
      if !truncated {
        PendingRows(list, start, rest, top, before);
      }
      CountDirectory();
      SkipDiagnostics(diagnostics);
      ok, stack, newSeen, items, n := ExportChildren(children, top.rel, rest, seen, once);
      PickedMeans(children, top.rel, items, before, exported);
      FoundStep(list, start, rest, top, items, before, exported);
      FoundMeans(list, start, rest + items, exported);
      if !ok {
        return;
      }
      BelowShallow(rest, items, top.rel);
      if !truncated {
        PendingStep(list, start, rest, top, before);
      }
    }

    /** What a finished walk over a tree of listings exports. */
    lemma ProgressDone<H>(list: (H, seq<string>) -> Listing<H>, start: H, tree: bool)
      requires Progress(list, start, [], tree)
      ensures !truncated ==> Clean(list, start, []) && exported == RowsOf(list, start, [])
      ensures tree ==> exported == UpTo(maxFiles, RowsOf(list, start, []))
      ensures tree && maxFiles.None? ==> !truncated
      ensures forall row <- exported :: Led(list, start, row)
    {
      hide RowsOf, Clean, Pending, TotalSize, OutputsAgree, Led;
      if !truncated {
        PendingDone(list, start, exported);
      }
    }

    /** What holds between two rounds of the walks that list no directory twice. */
    ghost predicate Underway(list: (U64, seq<string>) -> Listing<U64>, start: U64, visited: seq<U64>, stack: seq<Item<U64>>)
      reads this
    {
      && Progress(list, start, stack, IsTree(list, start))
      && (!truncated ==> AllDirs(list, start, visited, stack))
    }

    /** One directory of the EXT walk, taken off the top of the stack. */
    method ListExt(volume: ExtVolume, base: string, ghost start: U64, ghost visited: seq<U64>, rest: seq<Item<U64>>, top: Item<U64>,
                   seen: set<U64>)
      returns (ok: bool, stack: seq<Item<U64>>, newSeen: set<U64>)
      requires Underway(Listings(volume, base), start, visited, rest + [top]) && Once(visited, rest + [top], seen) && FileBudgetLeft()
      modifies this
      ensures Valid() && dirs == old(dirs) + 1 && Distinct(visited + [top.handle])
      ensures ok ==>
                Underway(Listings(volume, base), start, visited + [top.handle], stack) && Once(visited + [top.handle], stack, newSeen)
      ensures if newSeen == seen then stack == rest else AllIds() - newSeen < AllIds() - seen
      ensures forall row <- exported :: Led(Listings(volume, base), start, row)
      ensures AlwaysWrites() ==> ok
    {
      hide Valid, Pending, RowsOf, Clean, Once, Distinct, Below, New, FileRows, DirItems, ListingClean, AllIds,
           AlwaysWrites, Dirs, NoRepeats, AllDirs, Found, Led, FileBudgetLeft, IsTree, Listings, Progress;
      ghost var list, tree := Listings(volume, base), IsTree(Listings(volume, base), start);
      ok, stack, newSeen := true, rest, seen;
      OncePop(visited, rest, top, seen);
      OnceDistinct(visited + [top.handle], rest, seen);
      TreeMeans(list, start);
      UntilLimit(list, start, rest + [top], tree);
      ProgressMeans(list, start, rest + [top], tree);
      var listing := ListDir(volume, base, top.handle, top.rel);
      ListingIsQuiet(volume, base, top.handle, top.rel);
      match listing
      case Unreadable =>
        SkipDirectory(list, start, rest, top, tree);
        ProgressMeans(list, start, rest, tree);
      case Listed(children, diagnostics) =>
        ghost var was := truncated;
        if !truncated {
          TopIsShallow(rest, top);
          AllDirsStep(list, start, visited, rest, top);
          if tree {
            NewItems(list, start, visited + [top.handle], rest, seen, DirItems(children, top.rel, |children|));
          }
        }
        ghost var items, n;
        ok, stack, newSeen, items, n := ListDirectory(children, 0, list, start, rest, top, seen, true, tree);
        SeenGrows(seen, items);
        assert rest + [] == rest;
        if !ok {
          return;
        }
        OncePush(visited + [top.handle], rest, seen, items);
    }

    /**
     * The EXT walk: an inode is marked when its directory goes on the stack, so none is marked twice,
     * whatever cycles the links form; directories and files are read by their paths. Without a file
     * limit it is truncated exactly if something listed is not clean or a directory can be reached in
     * two ways. If the names in the marked directories are plain, or the path of every entry met
     * leads to its own inode, then what is exported without truncation is what is stored: every file
     * that any trail of entries reaches, and no other. That is clean exactly if all entries have
     * inodes that load.
     */
    method WalkExt(volume: ExtVolume, dirPath: string) returns (ok: bool, ghost visited: seq<U64>)
      requires Valid() && exported == [] && !truncated
      modifies this
      ensures Valid() && Distinct(visited) && dirs == old(dirs) + |visited|
      ensures var list, at := Listings(volume, StartPath(dirPath)), StartInode(volume.load, dirPath);
              if at.None? then !ok && exported == [] && !truncated
              else
                && (ok && !truncated ==> Clean(list, at.value, []) && exported == RowsOf(list, at.value, []))
                && (ok && maxFiles.None? ==> (!truncated <==> IsTree(list, at.value)))
                && (ok && IsTree(list, at.value) ==> exported == UpTo(maxFiles, RowsOf(list, at.value, [])))
                && (forall row <- exported :: Led(list, at.value, row))
                && (AlwaysWrites() ==> ok)
      ensures ok && !truncated ==>
                var start := StartInode(volume.load, dirPath).value;
                (forall d <- visited :: PlainNames(volume.load, d)) || Owned(volume.load, StartPath(dirPath), start, []) ==>
                  && (forall file :: file in exported <==> HasFile(volume, start, file)) && AllFit(volume, start, [])
                  && exported == RowsOf(StoredListings(volume), start, [])
                  && (Clean(StoredListings(volume), start, []) <==> forall d <- visited :: EntriesLoad(volume.load, d))
    {
      hide Valid, Pending, RowsOf, Clean, Once, Distinct, AllIds, AlwaysWrites, Dirs, NoRepeats, AllDirs, Found, Led,
           IsTree, Listings, StoredListings, EntriesLoad, Progress, PlainNames, Owned, Resolve, HasFile, AllFit;
      ok, visited := false, [];
      OnceInit(ROOT);
      OnceDistinct(visited, [Item(ROOT, [])], {ROOT});
      var base := StartPath(dirPath);
      var at := ResolvePath(volume.load, base);
      if at.None? || volume.load(at.value).None? {
        return;
      }
      var start := at.value;
      ghost var list, tree := Listings(volume, base), IsTree(Listings(volume, base), start);
      ok := true;
      var stack, seen := [Item(start, [])], {start};
      ProgressStart(list, start, tree);
      AllDirsStart(list, start);
      OnceInit(start);
      OnceDistinct([], stack, seen);
      while stack != []
        invariant ok && Valid() && dirs == old(dirs) + |visited| && Underway(list, start, visited, stack)
        invariant Once(visited, stack, seen) && Distinct(visited)
        decreases AllIds() - seen, |stack|
      {
        var rest, top := stack[..|stack| - 1], stack[|stack| - 1];
        assert stack == rest + [top];
        if !FileBudgetLeft() {
          StopAtLimit(list, start, rest, top, tree);
          stack := [];
          ProgressMeans(list, start, stack, tree);
          break;
        }
        ok, stack, seen := ListExt(volume, base, start, visited, rest, top, seen);
        visited := visited + [top.handle];
        if !ok {
          return;
        }
      }
      ProgressDone(list, start, tree);
      TreeMeans(list, start);
      if !truncated {
        DistinctMeans(visited);
        ListedOnce(list, start, visited);
        CompleteIfOwned(volume, base, start, visited);
      }
    }

    /** One directory of the NTFS walk that was not listed before. */
    method ListNtfs(list: (U64, seq<string>) -> Listing<U64>, ghost start: U64, ghost visited: seq<U64>, rest: seq<Item<U64>>, top: Item<U64>)
      returns (ok: bool, stack: seq<Item<U64>>)
      requires Underway(list, start, visited, rest + [top]) && FileBudgetLeft()
      modifies this
      ensures Valid() && dirs == old(dirs) + 1
      ensures ok ==> Underway(list, start, visited + [top.handle], stack)
      ensures forall row <- exported :: Led(list, start, row)
      ensures AlwaysWrites() ==> ok
    {
      hide Valid, Pending, RowsOf, Clean, Below, FileRows, DirItems, ListingClean, New, AlwaysWrites, Dirs, NoRepeats,
           AllDirs, Found, Led, FileBudgetLeft, IsTree, Progress;
      ghost var tree := IsTree(list, start);
      ok, stack := true, rest;
      TreeMeans(list, start);
      UntilLimit(list, start, rest + [top], tree);
      ProgressMeans(list, start, rest + [top], tree);
      match list(top.handle, top.rel)
      case Unreadable =>
        SkipDirectory(list, start, rest, top, tree);
        ProgressMeans(list, start, rest, tree);
      case Listed(children, diagnostics) =>
        if !truncated {
          TopIsShallow(rest, top);
          AllDirsStep(list, start, visited, rest, top);
        }
        ghost var items, n;
        var same: set<U64>;
        ok, stack, same, items, n := ListDirectory(children, diagnostics, list, start, rest, top, {}, false, tree);
    }

    /**
     * The NTFS walk: a record is marked when it comes off the stack; a repeated one is skipped.
     * Without a file limit it too is truncated exactly if the tree is not clean or not a tree.
     */
    method WalkNtfs(list: (U64, seq<string>) -> Listing<U64>, start: U64) returns (ok: bool, ghost visited: seq<U64>)
      requires Valid() && exported == [] && !truncated
      modifies this
      ensures Valid() && Distinct(visited) && dirs == old(dirs) + |visited|
      ensures ok && !truncated ==> Clean(list, start, []) && exported == RowsOf(list, start, [])
      ensures ok && maxFiles.None? ==> (!truncated <==> IsTree(list, start))
      ensures ok && IsTree(list, start) ==> exported == UpTo(maxFiles, RowsOf(list, start, []))
      ensures forall row <- exported :: Led(list, start, row)
      ensures AlwaysWrites() ==> ok
    {
      hide Valid, Pending, RowsOf, Clean, AllIds, AlwaysWrites, Dirs, NoRepeats, AllDirs, Found, Led, IsTree, Progress;
      ghost var tree := IsTree(list, start);
      ok, visited := true, [];
      var stack: seq<Item<U64>>, seen: set<U64> := [Item(start, [])], {};
      ProgressStart(list, start, tree);
      AllDirsStart(list, start);
      TreeMeans(list, start);
      while stack != []
        invariant ok && Valid() && dirs == old(dirs) + |visited| && Underway(list, start, visited, stack)
        invariant Distinct(visited) && forall v :: v in visited <==> v in seen
        decreases AllIds() - seen, |stack|
      {
        var rest, top := stack[..|stack| - 1], stack[|stack| - 1];
        assert stack == rest + [top];
        if !FileBudgetLeft() {
          StopAtLimit(list, start, rest, top, tree);
          stack := [];
          ProgressMeans(list, start, stack, tree);
          break;
        }
        UntilLimit(list, start, rest + [top], tree);
        if tree {
          TopIsNew(list, start, visited, rest, top);
        }
        if top.handle in seen {
          SkipRepeated(list, start, rest, top, tree);
          stack := rest;
          continue;
        }
        InAllIds(top.handle);
        seen := seen + {top.handle};
        ok, stack := ListNtfs(list, start, visited, rest, top);
        visited := visited + [top.handle];
        if !ok {
          return;
        }
      }
      ProgressDone(list, start, tree);
      if !truncated {
        ListedOnce(list, start, visited);
      }
    }

    /** A directory that was listed before is a reason to be partial. */
    method SkipRepeated<H>(ghost list: (H, seq<string>) -> Listing<H>, ghost start: H, ghost rest: seq<Item<H>>, ghost top: Item<H>, ghost tree: bool)
      requires Progress(list, start, rest + [top], tree) && !tree
      modifies this`skippedCount, this`skippedNotes, this`truncated
      ensures Valid() && Progress(list, start, rest, tree) && truncated
    {
      hide Valid, Found, RowsOf, Pending;
      TopIsShallow(rest, top);
      FoundPop(list, start, rest, top, exported);
      Skip();
    }

    /**
     * The FAT walk has no memory of visited directories: on cyclic links the depth guard alone
     * ends it. Without a file limit it is truncated exactly if the tree is not clean.
     */
    method WalkFat(list: (string, seq<string>) -> Listing<string>, start: string) returns (ok: bool)
      requires Valid() && exported == [] && !truncated && NoDiagnostics(list)
      modifies this
      ensures Valid()
      ensures ok && !truncated ==> Clean(list, start, []) && exported == RowsOf(list, start, [])
      ensures ok && maxFiles.None? ==> (!truncated <==> Clean(list, start, []))
      ensures ok && Clean(list, start, []) ==> exported == UpTo(maxFiles, RowsOf(list, start, []))
      ensures forall row <- exported :: Led(list, start, row)
      ensures AlwaysWrites() ==> ok
    {
      hide Valid, AlwaysWrites, Pending, RowsOf, Clean, Below, FileRows, DirItems, ListingClean, StackCost, Found, Led, Progress;
      ghost var tree := Clean(list, start, []);
      ok := true;
      var stack := [Item(start, [])];
      ProgressStart(list, start, tree);
      while stack != []
        invariant ok && Valid() && Progress(list, start, stack, tree)
        decreases StackCost(list, stack)
      {
        var rest, top := stack[..|stack| - 1], stack[|stack| - 1];
        assert stack == rest + [top];
        if !FileBudgetLeft() {
          StopAtLimit(list, start, rest, top, tree);
          stack := [];
          ProgressMeans(list, start, stack, tree);
          break;
        }
        CostPop(list, rest, top);
        match list(top.handle, top.rel)
        case Unreadable =>
          SkipDirectory(list, start, rest, top, tree);
          ProgressMeans(list, start, rest, tree);
          stack := rest;
        case Listed(children, diagnostics) =>
          ghost var items, n;
          var same: set<string>;
          ok, stack, same, items, n := ListDirectory(children, 0, list, start, rest, top, {}, false, tree);
          if !ok {
            return;
          }
          CostDrops(list, rest, top, n);
      }
      ProgressDone(list, start, tree);
    }

    lemma ProgressMeans<H>(list: (H, seq<string>) -> Listing<H>, start: H, stack: seq<Item<H>>, tree: bool)
      requires Progress(list, start, stack, tree)
      ensures Valid() && Shallow(stack) && forall row <- exported :: Led(list, start, row)
    {
    }

    method CountDirectory()
      requires Valid()
      modifies this`dirs
      ensures Valid() && dirs == old(dirs) + 1
    {
      dirs := dirs + 1;
    }

    /** At most eight of a directory's diagnostics are noted; any makes the export partial. */
    method SkipDiagnostics(diagnostics: nat)
      requires Valid()
      modifies this`skippedCount, this`skippedNotes, this`truncated
      ensures Valid() && truncated == (old(truncated) || diagnostics > 0)
      ensures skippedCount == old(skippedCount) + Min(diagnostics, 8)
    {
      for i := 0 to Min(diagnostics, MAX_NTFS_DIAGNOSTICS)
        invariant Valid() && truncated == (old(truncated) || i > 0) && skippedCount == old(skippedCount) + i
      {
        Skip();
      }
    }
  }

  /**
   * On a volume whose root has one entry, with an inode that does not load, the export ends without
   * a file, an error or a word of being partial, although what is stored is not clean.
   */
  method OmissionIsNotReported() returns (sink: TreeExportSink, ok: bool)
    ensures ok && !sink.truncated && sink.exported == [] && sink.skippedCount == 0
    ensures EntriesOf(UnloadableEntry().load, ROOT) != Some([]) && !Clean(StoredListings(UnloadableEntry()), ROOT, [])
  {
    hide RowsOf, Dirs, NoRepeats, Listings, StoredListings, Resolve;
    sink := new TreeExportSink(None, {}, rel => "", path => false);
    EntryIsOmitted();
    StartsAtRoot(UnloadableEntry().load);
    TreeMeans(Listings(UnloadableEntry(), "/"), ROOT);
    ghost var visited;
    ok, visited := sink.WalkExt(UnloadableEntry(), "");
  }

  /**
   * On a volume whose root has two files of one name, all of them stored cleanly, the export has the
   * first one twice and the second not at all, and ends without an error or a word of being partial.
   */
  method SecondOfOneNameIsLost() returns (sink: TreeExportSink, ok: bool)
    ensures ok && !sink.truncated && sink.exported == [Exported(["a"], [1]), Exported(["a"], [1])]
    ensures Clean(StoredListings(TwoOfOneName()), ROOT, [])
    ensures RowsOf(StoredListings(TwoOfOneName()), ROOT, []) == [Exported(["a"], [1]), Exported(["a"], [2])]
    ensures EntriesLoad(TwoOfOneName().load, ROOT)
  {
    hide RowsOf, Dirs, NoRepeats, Listings, StoredListings, Resolve;
    sink := new TreeExportSink(None, {}, rel => "", path => false);
    SecondIsNotRead();
    StartsAtRoot(TwoOfOneName().load);
    TreeMeans(Listings(TwoOfOneName(), "/"), ROOT);
    ghost var visited;
    ok, visited := sink.WalkExt(TwoOfOneName(), "");
  }

  /** The path that the export starts from: the slashes around it do not matter. */
  function StartPath(dirPath: string): string {
    "/" + TrimStart(TrimEnd(dirPath))
  }

  /** The start is what the path itself names below the root, however many slashes are around it. */
  lemma StartIsPath(load: Inodes, dirPath: string)
    ensures Resolve(load, StartPath(dirPath)) == Resolve(load, "/" + dirPath)
  {
    hide Follow, Split;
    BelowRoot(load, dirPath);
    BelowRoot(load, TrimStart(TrimEnd(dirPath)));
    TrimStartKeeps(load, TrimEnd(dirPath));
    TrimKeeps(load, dirPath);
  }

  /** The inode there, if there is one that loads. */
  function StartInode(load: Inodes, dirPath: string): Option<U64> {
    var at := Resolve(load, StartPath(dirPath));
    if at.Some? && load(at.value).Some? then at else None
  }

  lemma StartsAtRoot(load: Inodes)
    requires load(ROOT).Some?
    ensures StartPath("") == "/" && StartInode(load, "") == Some(ROOT)
  {
    hide Resolve;
    assert TrimStart(TrimEnd("")) == "" && StartPath("") == "/";
    RootIsRoot(load);
  }

  /**
   * If the directories of a cleanly listed tree have plain names, or the path of every entry leads
   * to its own inode, then the rows are those of what is stored, which is clean if all entries load.
   */
  lemma CompleteIfOwned(volume: ExtVolume, base: string, start: U64, visited: seq<U64>)
    requires Resolve(volume.load, base) == Some(start) && Clean(Listings(volume, base), start, [])
    requires AllDirs(Listings(volume, base), start, visited, [])
    ensures (forall d <- visited :: PlainNames(volume.load, d)) || Owned(volume.load, base, start, []) ==>
              && (forall file :: file in RowsOf(Listings(volume, base), start, []) <==> HasFile(volume, start, file))
              && AllFit(volume, start, [])
              && RowsOf(Listings(volume, base), start, []) == RowsOf(StoredListings(volume), start, [])
              && (Clean(StoredListings(volume), start, []) <==> forall d <- visited :: EntriesLoad(volume.load, d))
  {
    hide PlainNames, Owned, RowsOf, Dirs, Clean, Listings, OwnListings, StoredListings, EntriesLoad, Resolve, LoadAll, HasFile, AllFit;
    var list := Listings(volume, base);
    AllVisited(list, start, visited);
    if forall d <- visited :: PlainNames(volume.load, d) {
      PlainIsOwned(volume, base, start, []);
    }
    if Owned(volume.load, base, start, []) {
      OwnedIsSame(volume, base, start, []);
      RowsAreFiles(volume, start);
      CleanMeansFits(volume, start, []);
      StoredHasSameRows(volume, start, []);
      StoredIsClean(volume, start, []);
      VisitedLoad(volume.load, list, start, visited);
    }
  }

  /** Everything listed is clean, and no directory can be reached in two ways. */
  ghost predicate IsTree<H(!new)>(list: (H, seq<string>) -> Listing<H>, start: H) {
    Clean(list, start, []) && NoRepeats(Dirs(list, start, []))
  }

  lemma TreeMeans<H(!new)>(list: (H, seq<string>) -> Listing<H>, start: H)
    ensures IsTree(list, start) <==> Clean(list, start, []) && NoRepeats(Dirs(list, start, []))
  {
  }

  /** The rows, or the first of them that a limit allows. */
  function UpTo(maxFiles: Option<nat>, rows: seq<Exported>): seq<Exported> {
    if maxFiles.Some? && maxFiles.value < |rows| then rows[..maxFiles.value] else rows
  }

  lemma TopIsShallow<H>(rest: seq<Item<H>>, top: Item<H>)
    requires Shallow(rest + [top])
    ensures Shallow(rest) && |top.rel| <= MAX_PATH_DEPTH
  {
    assert top in rest + [top] && forall item <- rest :: item in rest + [top];
  }

  lemma UntroubledIs<H>(children: seq<Child<H>>, rel: seq<string>, seen: set<H>, once: bool)
    requires ListingClean(children, rel, |children|) && (once ==> New(DirItems(children, rel, |children|), seen))
    ensures Untroubled(children, rel, |children|, seen, once)
  {
  }

  lemma PickedMeans<H>(children: seq<Child<H>>, rel: seq<string>, items: seq<Item<H>>, was: seq<Exported>, now: seq<Exported>)
    requires Picked(children, rel, |children|, items, was, now)
    ensures forall item <- items :: item in DirItems(children, rel, |children|)
    ensures forall row <- now :: row in was || row in FileRows(children, rel, |children|)
  {
  }

  /** Listed directories all load exactly if all directories of the tree do, when they are the same. */
  lemma AllVisited<H>(list: (H, seq<string>) -> Listing<H>, start: H, visited: seq<H>)
    requires AllDirs(list, start, visited, [])
    ensures forall d :: d in visited <==> d in Dirs(list, start, [])
  {
    hide Dirs;
    assert multiset(visited) + multiset{} == multiset(visited);
    assert forall d :: d in visited <==> d in multiset(visited);
  }

  lemma VisitedLoad(load: Inodes, list: (U64, seq<string>) -> Listing<U64>, start: U64, visited: seq<U64>)
    requires AllDirs(list, start, visited, [])
    ensures LoadAll(load, Dirs(list, start, [])) <==> forall d <- visited :: EntriesLoad(load, d)
  {
    hide EntriesLoad, Dirs;
    AllVisited(list, start, visited);
  }

  ghost predicate NoDiagnostics<H(!new)>(list: (H, seq<string>) -> Listing<H>) {
    forall h, rel :: list(h, rel).Listed? ==> list(h, rel).diagnostics == 0
  }

  ghost predicate Shallow<H>(stack: seq<Item<H>>) {
    forall item <- stack :: |item.rel| <= MAX_PATH_DEPTH
  }

  ghost predicate Distinct<T>(s: seq<T>) {
    forall i, j :: 0 <= i < j < |s| ==> s[i] != s[j]
  }

  predicate IsId(x: int) {
    0 <= x <= U64_MAX
  }

  ghost function AllIds(): set<U64> {
    set x: U64 | 0 <= x <= U64_MAX && IsId(x)
  }

  lemma InAllIds(id: U64)
    ensures id in AllIds()
  {
    assert IsId(id);
  }

  /** Listed and pending directories are all different and all marked. */
  ghost predicate Once<H(!new)>(visited: seq<H>, stack: seq<Item<H>>, seen: set<H>) {
    && Distinct(visited)
    && (forall i, j :: 0 <= i < j < |stack| ==> stack[i].handle != stack[j].handle)
    && (forall item <- stack :: item.handle !in visited)
    && (forall h :: h in seen <==> h in visited || h in Handles(stack))
  }

  lemma OnceInit<H(!new)>(start: H)
    ensures Once([], [Item(start, [])], {start})
  {
  }

  lemma OnceDistinct<H(!new)>(visited: seq<H>, stack: seq<Item<H>>, seen: set<H>)
    requires Once(visited, stack, seen)
    ensures Distinct(visited)
  {
  }

  lemma OncePop<H(!new)>(visited: seq<H>, rest: seq<Item<H>>, top: Item<H>, seen: set<H>)
    requires Once(visited, rest + [top], seen)
    ensures Once(visited + [top.handle], rest, seen)
  {
    var stack := rest + [top];
    assert stack[|rest|] == top && top in stack;
    forall item <- rest ensures item in stack && item.handle != top.handle {
      var i :| 0 <= i < |rest| && rest[i] == item;
      assert stack[i] == item && stack[i].handle != stack[|rest|].handle;
    }
    forall i, j | 0 <= i < j < |rest| ensures rest[i].handle != rest[j].handle {
      assert stack[i] == rest[i] && stack[j] == rest[j];
    }
  }

  lemma OncePush<H(!new)>(visited: seq<H>, rest: seq<Item<H>>, seen: set<H>, items: seq<Item<H>>)
    requires Once(visited, rest, seen) && New(items, seen)
    ensures Once(visited, rest + items, seen + Handles(items))
  {
    var stack := rest + items;
    forall i, j | 0 <= i < j < |stack| ensures stack[i].handle != stack[j].handle {
      if i < |rest| <= j {
        assert stack[i] in rest && stack[j] in items;
      }
    }
    assert forall item <- stack :: item in rest || item in items;
  }

  lemma DistinctMeans<T>(s: seq<T>)
    requires Distinct(s)
    ensures forall i, j :: 0 <= i < j < |s| ==> s[i] != s[j]
  {
  }

  /** In a tree the subdirectories of the next directory are new to what is marked. */
  lemma NewItems<H(!new)>(list: (H, seq<string>) -> Listing<H>, start: H, visited: seq<H>, rest: seq<Item<H>>, seen: set<H>, items: seq<Item<H>>)
    requires Once(visited, rest, seen)
    requires AllDirs(list, start, visited, rest + items) && NoRepeats(Dirs(list, start, []))
    ensures New(items, seen)
  {
    hide AllDirs, NoRepeats, Dirs, Distinct;
    forall i | 0 <= i < |items|
      ensures items[i].handle !in seen && forall j :: i < j < |items| ==> items[j].handle != items[i].handle
    {
      ItemsAreNew(list, start, visited, rest, items, i);
    }
  }

  lemma BelowShallow<H>(rest: seq<Item<H>>, items: seq<Item<H>>, rel: seq<string>)
    requires Shallow(rest) && Below(items, rel)
    ensures Shallow(rest + items)
  {
  }

  /** Marking new directories uses up directories that could still be marked. */
  lemma SeenGrows(seen: set<U64>, items: seq<Item<U64>>)
    requires New(items, seen)
    ensures var marked := seen + Handles(items);
            if items == [] then marked == seen else AllIds() - marked < AllIds() - seen
  {
    if items != [] {
      var id := items[0].handle;
      assert items[0] in items;
      InAllIds(id);
      assert id in AllIds() - seen && id in Handles(items);
    }
  }

  /** Nothing among the first `n` entries is a reason to skip, other than a file limit. */
  ghost predicate Untroubled<H>(children: seq<Child<H>>, rel: seq<string>, n: nat, seen: set<H>, once: bool)
    requires n <= |children|
  {
    ListingClean(children, rel, n) && (once ==> New(DirItems(children, rel, n), seen))
  }

  lemma UntroubledPrefix<H>(children: seq<Child<H>>, rel: seq<string>, n: nat, seen: set<H>, once: bool)
    requires n <= |children| && Untroubled(children, rel, |children|, seen, once)
    ensures Untroubled(children, rel, n, seen, once)
    decreases |children| - n
  {
    hide New, DirItems, ListingClean, Handles;
    if n < |children| {
      UntroubledPrefix(children, rel, n + 1, seen, once);
      ListingStep(children, rel, n);
      if once {
        NewStep(children, rel, n, seen);
      }
    }
  }

  /** New rows and stack entries come from the first `n` entries. */
  ghost predicate Picked<H>(children: seq<Child<H>>, rel: seq<string>, n: nat, items: seq<Item<H>>, was: seq<Exported>, now: seq<Exported>)
    requires n <= |children|
  {
    && (forall item <- items :: item in DirItems(children, rel, n))
    && (forall row <- now :: row in was || row in FileRows(children, rel, n))
  }

  lemma NothingPicked<H>(children: seq<Child<H>>, rel: seq<string>, was: seq<Exported>)
    ensures Picked(children, rel, 0, [], was, was)
  {
  }

  lemma PickedStep<H>(children: seq<Child<H>>, rel: seq<string>, n: nat, items: seq<Item<H>>, pushed: seq<Item<H>>,
                      was: seq<Exported>, before: seq<Exported>, now: seq<Exported>)
    requires n < |children| && Picked(children, rel, n, items, was, before)
    requires pushed == [] || pushed == ChildItem(children[n], rel)
    requires now == before || now == before + ChildRow(children[n], rel)
    ensures Picked(children, rel, n + 1, items + pushed, was, now)
  {
    hide FileRows, DirItems, ChildRow, ChildItem;
    ListingStep(children, rel, n);
  }

  lemma {:induction false} PickedPrefix<H>(children: seq<Child<H>>, rel: seq<string>, n: nat, items: seq<Item<H>>,
                                           was: seq<Exported>, now: seq<Exported>)
    requires n <= |children| && Picked(children, rel, n, items, was, now)
    ensures Picked(children, rel, |children|, items, was, now)
    decreases |children| - n
  {
    hide Picked;
    if n < |children| {
      PickedStep(children, rel, n, items, [], was, now, now);
      assert items + [] == items;
      PickedPrefix(children, rel, n + 1, items, was, now);
    }
  }

  /** What the first `n` entries of a listing did to the export and to the stack. */
  ghost predicate Processed<H>(children: seq<Child<H>>, rel: seq<string>, n: nat, seen: set<H>, once: bool, items: seq<Item<H>>,
                               was: seq<Exported>, now: seq<Exported>, partial: bool, truncated: bool)
    requires n <= |children|
  {
    && (!once ==> items == if |rel| < MAX_PATH_DEPTH then DirItems(children, rel, n) else [])
    && (!truncated ==>
          now == was + FileRows(children, rel, n) && items == DirItems(children, rel, n) && ListingClean(children, rel, n))
    && (!partial && Untroubled(children, rel, n, seen, once) ==> !truncated)
  }

  lemma ProcessedMeans<H>(children: seq<Child<H>>, rel: seq<string>, n: nat, seen: set<H>, once: bool, items: seq<Item<H>>,
                          was: seq<Exported>, now: seq<Exported>, partial: bool, truncated: bool)
    requires n <= |children| && Processed(children, rel, n, seen, once, items, was, now, partial, truncated)
    ensures !once ==> items == if |rel| < MAX_PATH_DEPTH then DirItems(children, rel, n) else []
    ensures !truncated ==>
              now == was + FileRows(children, rel, n) && items == DirItems(children, rel, n) && ListingClean(children, rel, n)
    ensures !partial && Untroubled(children, rel, n, seen, once) ==> !truncated
  {
  }

  lemma NothingProcessed<H>(children: seq<Child<H>>, rel: seq<string>, seen: set<H>, once: bool, was: seq<Exported>, partial: bool)
    ensures Processed(children, rel, 0, seen, once, [], was, was, partial, partial)
    ensures Marked([], rel, seen, once, seen)
  {
    assert was + [] == was;
  }

  /** The effect of one more entry, given what `ExportChild` did with it. */
  lemma ProcessedStep<H>(children: seq<Child<H>>, rel: seq<string>, n: nat, seen: set<H>, once: bool,
                         items: seq<Item<H>>, pushed: seq<Item<H>>,
                         was: seq<Exported>, before: seq<Exported>, now: seq<Exported>,
                         partial: bool, partialBefore: bool, truncated: bool)
    requires n < |children| && Processed(children, rel, n, seen, once, items, was, before, partial, partialBefore)
    requires partialBefore ==> truncated
    requires var child, marked := children[n], if once then seen + Handles(items) else {};
             && (!(child.Dir? && child.handle in marked) ==>
                   && pushed == (if |rel| < MAX_PATH_DEPTH then ChildItem(child, rel) else [])
                   && truncated == (partialBefore || !ChildClean(child, rel)))
             && (!truncated ==> now == before + ChildRow(child, rel) && pushed == ChildItem(child, rel) && ChildClean(child, rel))
    ensures Processed(children, rel, n + 1, seen, once, items + pushed, was, now, partial, truncated)
  {
    hide New, FileRows, DirItems, ListingClean, ChildClean, ChildRow, ChildItem, Handles;
    ListingStep(children, rel, n);
    if once && Untroubled(children, rel, n + 1, seen, once) {
      NewStep(children, rel, n, seen);
    }
    if !truncated {
      assert now == was + (FileRows(children, rel, n) + ChildRow(children[n], rel));
    }
    ItemsStep(children, rel, n, once, items, pushed);
  }

  lemma ItemsStep<H>(children: seq<Child<H>>, rel: seq<string>, n: nat, once: bool, items: seq<Item<H>>, pushed: seq<Item<H>>)
    requires n < |children|
    requires !once ==>
               && items == (if |rel| < MAX_PATH_DEPTH then DirItems(children, rel, n) else [])
               && pushed == (if |rel| < MAX_PATH_DEPTH then ChildItem(children[n], rel) else [])
    ensures !once ==> items + pushed == if |rel| < MAX_PATH_DEPTH then DirItems(children, rel, n + 1) else []
  {
  }

  /** The new stack entries lie below `rel`, and are marked if each directory is pushed once. */
  ghost predicate Marked<H>(items: seq<Item<H>>, rel: seq<string>, seen: set<H>, once: bool, newSeen: set<H>) {
    Below(items, rel) && (once ==> New(items, seen) && newSeen == seen + Handles(items))
  }

  lemma MarkedMeans<H>(items: seq<Item<H>>, rel: seq<string>, seen: set<H>, once: bool, newSeen: set<H>)
    requires Marked(items, rel, seen, once, newSeen)
    ensures Below(items, rel) && (once ==> New(items, seen) && newSeen == seen + Handles(items))
  {
  }

  lemma MarkedStep<H>(items: seq<Item<H>>, rel: seq<string>, seen: set<H>, once: bool, newSeen: set<H>,
                      child: Child<H>, pushed: seq<Item<H>>)
    requires Marked(items, rel, seen, once, newSeen)
    requires pushed == [] || (pushed == ChildItem(child, rel) && |rel| < MAX_PATH_DEPTH)
    requires once && pushed != [] ==> pushed[0].handle !in newSeen
    ensures |pushed| <= 1
    ensures Marked(items + pushed, rel, seen, once, if once && pushed != [] then newSeen + {pushed[0].handle} else newSeen)
  {
    hide New, Below, Handles;
    PushedOne(items, seen, child, rel, pushed);
  }

  /** The stack entries added for subdirectories of `rel` are within the depth guard. */
  ghost predicate Below<H>(items: seq<Item<H>>, rel: seq<string>) {
    forall item <- items :: |item.rel| == |rel| + 1 <= MAX_PATH_DEPTH
  }

  ghost function Handles<H>(items: seq<Item<H>>): set<H> {
    set item <- items :: item.handle
  }

  /** No handle was seen before, and none comes twice. */
  ghost predicate New<H>(items: seq<Item<H>>, seen: set<H>) {
    && (forall item <- items :: item.handle !in seen)
    && (forall i, j :: 0 <= i < j < |items| ==> items[i].handle != items[j].handle)
  }

  /** If one more entry leaves all subdirectories new, they were new before, and its own is new. */
  lemma NewStep<H>(children: seq<Child<H>>, rel: seq<string>, n: nat, seen: set<H>)
    requires n < |children| && New(DirItems(children, rel, n + 1), seen)
    ensures New(DirItems(children, rel, n), seen)
    ensures children[n].Dir? ==> children[n].handle !in seen + Handles(DirItems(children, rel, n))
  {
    var before, after := DirItems(children, rel, n), DirItems(children, rel, n + 1);
    assert forall item <- before :: item in after;
    assert forall i :: 0 <= i < |before| ==> before[i] == after[i];
    if children[n].Dir? {
      assert after[|before|].handle == children[n].handle && after[|before|] in after;
    }
  }

  lemma PushedOne<H>(items: seq<Item<H>>, seen: set<H>, child: Child<H>, rel: seq<string>, pushed: seq<Item<H>>)
    requires Below(items, rel) && (pushed == [] || (pushed == ChildItem(child, rel) && |rel| < MAX_PATH_DEPTH))
    ensures |pushed| <= 1 && Below(items + pushed, rel)
    ensures Handles(items + pushed) == Handles(items) + if pushed != [] then {pushed[0].handle} else {}
    ensures New(items, seen) && (pushed == [] || pushed[0].handle !in seen + Handles(items)) ==> New(items + pushed, seen)
  {
    assert forall item <- items + pushed :: item in items || item in pushed;
    if pushed != [] {
      assert pushed[0] in items + pushed;
    }
    assert forall item <- items :: item in items + pushed && item.handle in Handles(items);
  }

  /** The path itself, path-2, path-3 and so on. */
  function Numbered(target: string, k: nat): string
    requires k >= 1
  {
    if k == 1 then target else target + "-" + Decimal(k)
  }

  /** The numbered forms before number `k`. */
  function Variants(target: string, k: nat): set<string>
    requires k >= 1
  {
    if k == 1 then {} else Variants(target, k - 1) + {Numbered(target, k - 1)}
  }

  ghost predicate Variant(path: string, target: string) {
    exists k: nat | k >= 1 :: path == Numbered(target, k)
  }

  ghost predicate FirstFree(path: string, target: string, taken: set<string>) {
    path !in taken && exists k: nat | k >= 1 :: path == Numbered(target, k) && Variants(target, k) <= taken
  }

  /** The first form is the path, every other one ends in a dash and its number in decimal digits. */
  lemma NumberedMeans(target: string, k: nat)
    requires k >= 1
    ensures k == 1 ==> Numbered(target, k) == target
    ensures k > 1 ==> exists digits :: AllDigits(digits) && Value(digits) == k && Numbered(target, k) == target + "-" + digits
  {
    DecimalValue(k);
  }

  lemma NumberedInjective(target: string, j: nat, k: nat)
    requires 1 <= j < k
    ensures Numbered(target, j) != Numbered(target, k)
  {
    assert Numbered(target, k)[|target| + 1..] == Decimal(k);
    if j > 1 {
      assert Numbered(target, j)[|target| + 1..] == Decimal(j);
      if Decimal(j) == Decimal(k) {
        DecimalInjective(j, k);
      }
    }
  }

  lemma {:induction false} NotAmong(target: string, j: nat, k: nat)
    requires 1 <= j <= k
    ensures Numbered(target, k) !in Variants(target, j)
  {
    if j > 1 {
      NotAmong(target, j - 1, k);
      NumberedInjective(target, j - 1, k);
    }
  }

  lemma VariantFresh(target: string, k: nat)
    requires k >= 1
    ensures Numbered(target, k) !in Variants(target, k)
    ensures Variants(target, 1) == {} && Numbered(target, 1) == target
    ensures k > 1 ==> Variants(target, k) == Variants(target, k - 1) + {Numbered(target, k - 1)}
  {
    NotAmong(target, k, k);
  }
}
