// Paths on an EXT volume: every directory is listed and every file is read by its path, which leads
// through the first entry of each component's name.
module ExtPaths {
  import opened Basics
  import opened Directory

  const ROOT: U64 := 2

  /** A loaded inode: a directory with its entries, if they can be read, or anything else. */
  datatype ExtInode = DirectoryInode(entries: Option<seq<DirEntry>>) | OtherInode(size: nat)

  /** What loading an inode by its number gives. */
  type Inodes = U64 -> Option<ExtInode>

  /** The entries of a directory that can be listed. */
  function EntriesOf(load: Inodes, n: U64): Option<seq<DirEntry>> {
    var inode := load(n);
    if inode.Some? && inode.value.DirectoryInode? then inode.value.entries else None
  }

  function FirstNamed(entries: seq<DirEntry>, name: string): Option<U64> {
    if entries == [] then None
    else if entries[0].name == name then Some(entries[0].inode)
    else FirstNamed(entries[1..], name)
  }

  /** The inode behind a name in the directory behind `at`, if there is one. */
  function Named(load: Inodes, at: Option<U64>, name: string): Option<U64> {
    if at.None? || EntriesOf(load, at.value).None? then None
    else FirstNamed(EntriesOf(load, at.value).value, name)
  }

  /** The inode that the components of a path lead to; empty ones stay where they are. */
  function Follow(load: Inodes, at: Option<U64>, parts: seq<string>): Option<U64>
    decreases parts
  {
    if parts == [] then at
    else
      Follow(load, if parts[0] == "" then at else Named(load, at, parts[0]), parts[1..])
  }

  function Longer(c: char, parts: seq<string>): (r: seq<string>)
    requires parts != []
    ensures r != []
  {
    [[c] + parts[0]] + parts[1..]
  }

  /** The pieces between the slashes. */
  function Split(path: string): (parts: seq<string>)
    ensures parts != []
    decreases path
  {
    if path == "" then [""]
    else
      var rest := Split(path[1..]);
      if path[0] == '/' then [""] + rest else Longer(path[0], rest)
  }

  function TrimEnd(path: string): string {
    if path != "" && path[|path| - 1] == '/' then TrimEnd(path[..|path| - 1]) else path
  }

  function TrimStart(path: string): string {
    if path != "" && path[0] == '/' then TrimStart(path[1..]) else path
  }

  /** The inode that a path names. */
  function Resolve(load: Inodes, path: string): Option<U64> {
    Follow(load, Some(ROOT), Split(path))
  }

  function ChildPath(path: string, name: string): string {
    if path == "/" then "/" + name else path + "/" + name
  }

  /** The path of the directory that lies at `rel` below the start. */
  function PathOf(base: string, rel: seq<string>): string {
    if rel == [] then base else ChildPath(PathOf(base, rel[..|rel| - 1]), rel[|rel| - 1])
  }

  lemma PathOfChild(base: string, rel: seq<string>, name: string)
    ensures PathOf(base, rel + [name]) == ChildPath(PathOf(base, rel), name)
  {
    assert (rel + [name])[..|rel|] == rel;
  }

  // ---------------------------------------------------------------- splitting

  lemma {:induction false} SplitJoin(a: string, b: string)
    ensures Split(a + "/" + b) == Split(a) + Split(b)
  {
    var joined := a + "/" + b;
    if a == "" {
      assert joined[1..] == b;
    } else {
      SplitJoin(a[1..], b);
      assert joined[1..] == a[1..] + "/" + b && joined[0] == a[0];
      hide Longer;
      LongerJoin(a[0], Split(a[1..]), Split(b));
    }
  }

  lemma LongerJoin(c: char, a: seq<string>, b: seq<string>)
    requires a != []
    ensures Longer(c, a + b) == Longer(c, a) + b
  {
    assert (a + b)[1..] == a[1..] + b;
  }

  lemma {:induction false} SplitPlain(name: string)
    requires '/' !in name
    ensures Split(name) == [name]
  {
    if name != "" {
      SplitPlain(name[1..]);
      assert Longer(name[0], [name[1..]]) == [[name[0]] + name[1..]];
      assert [name[0]] + name[1..] == name;
    }
  }

  /** The last piece of a path that does not end in a slash is not empty. */
  lemma {:induction false} SplitEnd(path: string)
    requires path != "" && path[|path| - 1] != '/'
    ensures var parts := Split(path); parts[|parts| - 1] != ""
  {
    if |path| > 1 {
      SplitEnd(path[1..]);
    }
  }

  lemma {:induction false} FollowConcat(load: Inodes, at: Option<U64>, a: seq<string>, b: seq<string>)
    ensures Follow(load, at, a + b) == Follow(load, Follow(load, at, a), b)
    decreases a
  {
    if a == [] {
      assert a + b == b;
    } else {
      assert (a + b)[1..] == a[1..] + b;
      FollowConcat(load, if a[0] == "" then at else Named(load, at, a[0]), a[1..], b);
    }
  }

  /** Where nothing is loaded no further component leads anywhere. */
  lemma {:induction false} FollowStuck(load: Inodes, at: Option<U64>, parts: seq<string>)
    requires at.None? || load(at.value).None?
    ensures Follow(load, at, parts).None? || Follow(load, at, parts) == at
    decreases parts
  {
    if parts != [] {
      FollowStuck(load, if parts[0] == "" then at else Named(load, at, parts[0]), parts[1..]);
    }
  }

  lemma {:induction false} TrimKeeps(load: Inodes, path: string)
    ensures Resolve(load, TrimEnd(path)) == Resolve(load, path)
    ensures TrimEnd(path) != "" ==> TrimEnd(path)[|TrimEnd(path)| - 1] != '/'
  {
    if path != "" && path[|path| - 1] == '/' {
      var init := path[..|path| - 1];
      TrimKeeps(load, init);
      SplitJoin(init, "");
      assert init + "/" + "" == path;
      FollowConcat(load, Some(ROOT), Split(init), [""]);
    }
  }

  /** A slash in front changes nothing. */
  lemma BelowRoot(load: Inodes, path: string)
    ensures Resolve(load, "/" + path) == Resolve(load, path)
  {
    assert ("/" + path)[1..] == path;
    var parts := Split(path);
    assert Split("/" + path) == [""] + parts && ([""] + parts)[1..] == parts;
  }

  lemma {:induction false} TrimStartKeeps(load: Inodes, path: string)
    ensures Resolve(load, TrimStart(path)) == Resolve(load, path)
  {
    if path != "" && path[0] == '/' {
      TrimStartKeeps(load, path[1..]);
      BelowRoot(load, path[1..]);
      assert "/" + path[1..] == path;
    }
  }

  // ---------------------------------------------------------------- the paths of entries

  /** A name leads on from the directory that the path before it names. */
  lemma ResolveChild(load: Inodes, path: string, name: string)
    ensures Resolve(load, ChildPath(path, name)) == Follow(load, Resolve(load, path), Split(name))
    ensures name != "" && '/' !in name ==> Resolve(load, ChildPath(path, name)) == Named(load, Resolve(load, path), name)
  {
    var before := if path == "/" then "" else path;
    assert ChildPath(path, name) == before + "/" + name;
    SplitJoin(before, name);
    FollowConcat(load, Some(ROOT), Split(before), Split(name));
    if path == "/" {
      assert Split(path[1..]) == [""];
      assert Split(path) == ["", ""];
      assert Follow(load, Some(ROOT), ["", ""]) == Follow(load, Some(ROOT), [""]) by {
        assert ["", ""][1..] == [""];
      }
    }
    if name != "" && '/' !in name {
      SplitPlain(name);
      assert [name][1..] == [];
    }
  }

  /** The first entry of a name is the one that is found. */
  lemma {:induction false} FirstNamedMeans(entries: seq<DirEntry>, name: string)
    ensures FirstNamed(entries, name).None? <==> forall e <- entries :: e.name != name
    ensures FirstNamed(entries, name).Some? ==>
              exists i :: 0 <= i < |entries| && entries[i].name == name && Some(entries[i].inode) == FirstNamed(entries, name)
                          && forall j :: 0 <= j < i ==> entries[j].name != name
  {
    if entries != [] && entries[0].name != name {
      var rest := entries[1..];
      FirstNamedMeans(rest, name);
      if FirstNamed(rest, name).Some? {
        var i :| 0 <= i < |rest| && rest[i].name == name && Some(rest[i].inode) == FirstNamed(rest, name)
                 && forall j :: 0 <= j < i ==> rest[j].name != name;
        assert entries[i + 1] == rest[i];
        assert forall j :: 1 <= j < i + 1 ==> entries[j] == rest[j - 1];
      }
    }
  }

  // ---------------------------------------------------------------- the search

  /** Looks a path up component by component, loading each directory on the way. */
  method ResolvePath(load: Inodes, path: string) returns (r: Option<U64>)
    ensures r == Resolve(load, path)
  {
    hide Named, FirstNamed;
    TrimKeeps(load, path);
    var trimmed := TrimEnd(path);
    if trimmed == "" {
      assert Follow(load, Some(ROOT), [""]) == Some(ROOT) by {
        assert [""][1..] == [];
      }
      return Some(ROOT);
    }
    SplitEnd(trimmed);
    var parts := Split(trimmed);
    var last := parts[|parts| - 1];
    parts := parts[..|parts| - 1];
    assert Split(trimmed) == parts + [last];
    ghost var at := Some(ROOT);
    LastDecides(load, Some(ROOT), parts, last);
    var curr := load(ROOT);
    if curr.None? {
      Stuck(load, at, parts, last);
      return None;
    }
    for i := 0 to |parts|
      invariant at.Some? && load(at.value) == curr && curr.Some?
      invariant Follow(load, Some(ROOT), parts) == Follow(load, at, parts[i..])
    {
      assert parts[i..][1..] == parts[i + 1..];
      if parts[i] == "" {
        continue;
      }
      var child := DirEntryNamed(load, at.value, curr.value, parts[i]);
      at := child;
      if child.None? {
        Stuck(load, at, parts[i + 1..], last);
        return None;
      }
      curr := load(child.value);
      if curr.None? {
        Stuck(load, at, parts[i + 1..], last);
        return None;
      }
    }
    assert parts[|parts|..] == [];
    r := DirEntryNamed(load, at.value, curr.value, last);
  }

  /** The first entry of that name in a loaded directory. */
  method DirEntryNamed(load: Inodes, ghost at: U64, inode: ExtInode, name: string) returns (r: Option<U64>)
    requires load(at) == Some(inode)
    ensures r == Named(load, Some(at), name)
  {
    if !inode.DirectoryInode? || inode.entries.None? {
      return None;
    }
    var entries := inode.entries.value;
    for i := 0 to |entries|
      invariant FirstNamed(entries, name) == FirstNamed(entries[i..], name)
    {
      if entries[i].name == name {
        return Some(entries[i].inode);
      }
      assert entries[i..][1..] == entries[i + 1..];
    }
    r := None;
  }

  lemma LastDecides(load: Inodes, at: Option<U64>, parts: seq<string>, last: string)
    requires last != ""
    ensures Follow(load, at, parts + [last]) == Named(load, Follow(load, at, parts), last)
  {
    FollowConcat(load, at, parts, [last]);
    assert [last][1..] == [];
  }

  lemma Stuck(load: Inodes, at: Option<U64>, parts: seq<string>, last: string)
    requires at.None? || load(at.value).None?
    ensures Named(load, Follow(load, at, parts), last) == None
  {
    FollowStuck(load, at, parts);
  }
}
