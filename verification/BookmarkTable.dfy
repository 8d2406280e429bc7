// Chromium bookmarks: the JSON tree, the table of its nodes, and what the ancestry query returns.
module BookmarkTable {
  import opened Basics
  import opened Texts

  /** One member of a node's JSON object; a member of the wrong JSON type has no value. */
  datatype Member =
    | Type(kind: Option<string>) | Name(name: Option<string>) | Url(url: Option<string>) | Guid(guid: Option<string>)
    | DateAdded(time: Option<int>) | DateLastUsed(time: Option<int>) | Children(nodes: seq<Node>) | Ignored

  datatype Node = Node(members: seq<Member>)

  datatype Fields = Fields(kind: Option<string>, name: Option<string>, url: Option<string>, guid: Option<string>,
                           added: Option<int>, lastUsed: Option<int>)

  datatype Row = Row(parent: Option<nat>, fields: Fields)

  datatype Bookmark = Bookmark(fields: Fields, folderPath: seq<string>)

  type Table = map<nat, Row>

  const NO_FIELDS := Fields(None, None, None, None, None, None)

  /** A repeated member replaces the earlier value. */
  function Apply(fields: Fields, member: Member): Fields {
    match member
    case Type(kind) => fields.(kind := kind)
    case Name(name) => fields.(name := name)
    case Url(url) => fields.(url := url)
    case Guid(guid) => fields.(guid := guid)
    case DateAdded(time) => fields.(added := time)
    case DateLastUsed(time) => fields.(lastUsed := time)
    case Children(_) => fields
    case Ignored => fields
  }

  function FieldsOf(members: seq<Member>): Fields {
    if members == [] then NO_FIELDS else Apply(FieldsOf(members[..|members| - 1]), members[|members| - 1])
  }

  predicate IsUrl(fields: Fields) {
    fields.kind == Some("url")
  }

  // ---------------------------------------------------------------- folder paths

  /** Adds a folder name to a path: trimmed, not if empty, not if it repeats the last one. */
  function PushFolder(path: seq<string>, name: Option<string>): seq<string> {
    if name.None? || Trim(name.value) == "" then path
    else if path != [] && path[|path| - 1] == Trim(name.value) then path
    else path + [Trim(name.value)]
  }

  function FolderPath(names: seq<Option<string>>): seq<string> {
    if names == [] then [] else PushFolder(FolderPath(names[..|names| - 1]), names[|names| - 1])
  }

  /** The trimmed names that are not empty. */
  function Kept(names: seq<Option<string>>): seq<string> {
    if names == [] then []
    else
      var last := names[|names| - 1];
      Kept(names[..|names| - 1]) + if last.Some? && Trim(last.value) != "" then [Trim(last.value)] else []
  }

  /** Every name that differs from the one before it. */
  function Collapsed(names: seq<string>): seq<string> {
    if |names| <= 1 then names
    else
      var n := |names|;
      Collapsed(names[..n - 1]) + if names[n - 1] != names[n - 2] then [names[n - 1]] else []
  }

  lemma CollapsedStep(names: seq<string>, name: string)
    ensures Collapsed(names + [name]) == Collapsed(names) + if names != [] && names[|names| - 1] == name then [] else [name]
  {
    assert (names + [name])[..|names|] == names;
  }

  lemma {:induction false} CollapsedEnds(names: seq<string>)
    ensures names != [] ==> Collapsed(names) != [] && Collapsed(names)[|Collapsed(names)| - 1] == names[|names| - 1]
    ensures forall i :: 0 < i < |Collapsed(names)| ==> Collapsed(names)[i] != Collapsed(names)[i - 1]
  {
    if |names| > 1 {
      CollapsedEnds(names[..|names| - 1]);
    }
  }

  /** The path is the kept names without adjacent repeats. */
  lemma {:induction false} FolderPathCollapses(names: seq<Option<string>>)
    ensures FolderPath(names) == Collapsed(Kept(names))
    ensures forall i :: 0 < i < |FolderPath(names)| ==> FolderPath(names)[i] != FolderPath(names)[i - 1]
  {
    hide Trim, Collapsed;
    CollapsedEnds(Kept(names));
    if names == [] {
      assert Collapsed([]) == [] by {
        NothingCollapsed();
      }
    } else {
      var init, last := names[..|names| - 1], names[|names| - 1];
      FolderPathCollapses(init);
      CollapsedEnds(Kept(init));
      if last.Some? && Trim(last.value) != "" {
        CollapsedStep(Kept(init), Trim(last.value));
      } else {
        assert Kept(names) == Kept(init);
      }
      EmptyPathKeepsNothing(Kept(init));
    }
  }

  lemma NothingCollapsed()
    ensures Collapsed([]) == []
  {
  }

  lemma EmptyPathKeepsNothing(names: seq<string>)
    ensures Collapsed(names) == [] <==> names == []
  {
    CollapsedEnds(names);
  }

  // ---------------------------------------------------------------- the query

  /** Parents have smaller ids than their children. */
  predicate Ordered(table: Table) {
    forall id <- table :: table[id].parent.Some? ==> table[id].parent.value < id
  }

  /** The names of a node's ancestors, outermost first. */
  function Ancestry(table: Table, id: nat): seq<Option<string>>
    requires id in table && Ordered(table)
  {
    var parent := table[id].parent;
    if parent.None? || parent.value !in table then []
    else Ancestry(table, parent.value) + [table[parent.value].fields.name]
  }

  datatype ResultRow = ResultRow(id: nat, fields: Fields, folder: Option<string>)

  function RowsFor(id: nat, fields: Fields, names: seq<Option<string>>): seq<ResultRow> {
    if names == [] then [] else RowsFor(id, fields, names[..|names| - 1]) + [ResultRow(id, fields, names[|names| - 1])]
  }

  /** The rows for one bookmark: its ancestors, or one row without an ancestor. */
  function Group(table: Table, id: nat): seq<ResultRow>
    requires Ordered(table)
  {
    if id !in table || !IsUrl(table[id].fields) then []
    else if Ancestry(table, id) == [] then [ResultRow(id, table[id].fields, None)]
    else RowsFor(id, table[id].fields, Ancestry(table, id))
  }

  /** What the query returns: the bookmarks with ids below `n` in id order, each with its ancestors outermost first. */
  function Query(table: Table, n: nat): seq<ResultRow>
    requires Ordered(table)
  {
    if n == 0 then [] else Query(table, n - 1) + Group(table, n - 1)
  }

  /** The bookmarks with ids in [lo, hi), one for each url row. */
  function BookmarksIn(table: Table, lo: nat, hi: nat): seq<Bookmark>
    requires Ordered(table)
    decreases hi
  {
    if hi <= lo then [] else BookmarksIn(table, lo, hi - 1) + BookmarkAt(table, hi - 1)
  }

  function BookmarkAt(table: Table, id: nat): seq<Bookmark>
    requires Ordered(table)
  {
    if id in table && IsUrl(table[id].fields) then [Bookmark(table[id].fields, FolderPath(Ancestry(table, id)))] else []
  }

  lemma {:induction false} BookmarksSplit(table: Table, lo: nat, mid: nat, hi: nat)
    requires Ordered(table) && lo <= mid <= hi
    ensures BookmarksIn(table, lo, hi) == BookmarksIn(table, lo, mid) + BookmarksIn(table, mid, hi)
    decreases hi
  {
    hide BookmarkAt;
    if mid < hi {
      BookmarksSplit(table, lo, mid, hi - 1);
    }
  }

  // ---------------------------------------------------------------- the tree

  function Size(node: Node): nat
    decreases node
  {
    1 + SizeOfMembers(node.members)
  }

  function SizeOfMembers(members: seq<Member>): nat
    decreases members
  {
    if members == [] then 0
    else
      var last := members[|members| - 1];
      SizeOfMembers(members[..|members| - 1]) + if last.Children? then SizeOfAll(last.nodes) else 0
  }

  function SizeOfAll(nodes: seq<Node>): nat
    decreases nodes
  {
    if nodes == [] then 0 else SizeOfAll(nodes[..|nodes| - 1]) + Size(nodes[|nodes| - 1])
  }

  /** The url nodes at and below a node in document order, with the names of the nodes around them. */
  function Urls(node: Node, names: seq<Option<string>>): seq<Bookmark>
    decreases node
  {
    var fields := FieldsOf(node.members);
    (if IsUrl(fields) then [Bookmark(fields, FolderPath(names))] else []) + UrlsOfMembers(node.members, names + [fields.name])
  }

  function UrlsOfMembers(members: seq<Member>, names: seq<Option<string>>): seq<Bookmark>
    decreases members
  {
    if members == [] then []
    else
      var last := members[|members| - 1];
      UrlsOfMembers(members[..|members| - 1], names) + if last.Children? then UrlsOfAll(last.nodes, names) else []
  }

  function UrlsOfAll(nodes: seq<Node>, names: seq<Option<string>>): seq<Bookmark>
    decreases nodes
  {
    if nodes == [] then [] else UrlsOfAll(nodes[..|nodes| - 1], names) + Urls(nodes[|nodes| - 1], names)
  }

  // ---------------------------------------------------------------- the tree in the table

  /** The table holds a node at id `at` and everything below it at the ids that follow. */
  predicate Holds(table: Table, node: Node, at: nat, parent: nat)
    decreases node
  {
    && at in table && table[at] == Row(Some(parent), FieldsOf(node.members))
    && HoldsMembers(table, node.members, at + 1, at)
  }

  predicate HoldsMembers(table: Table, members: seq<Member>, at: nat, parent: nat)
    decreases members
  {
    members != [] ==>
      var init, last := members[..|members| - 1], members[|members| - 1];
      && HoldsMembers(table, init, at, parent)
      && (last.Children? ==> HoldsAll(table, last.nodes, at + SizeOfMembers(init), parent))
  }

  predicate HoldsAll(table: Table, nodes: seq<Node>, at: nat, parent: nat)
    decreases nodes
  {
    nodes != [] ==>
      var init := nodes[..|nodes| - 1];
      HoldsAll(table, init, at, parent) && Holds(table, nodes[|nodes| - 1], at + SizeOfAll(init), parent)
  }

  predicate Extends(small: Table, table: Table) {
    forall id <- small :: id in table && table[id] == small[id]
  }

  lemma {:induction false} HoldsStill(small: Table, table: Table, node: Node, at: nat, parent: nat)
    requires Extends(small, table) && Holds(small, node, at, parent)
    ensures Holds(table, node, at, parent)
    decreases node
  {
    HoldsMembersStill(small, table, node.members, at + 1, at);
  }

  lemma {:induction false} HoldsMembersStill(small: Table, table: Table, members: seq<Member>, at: nat, parent: nat)
    requires Extends(small, table) && HoldsMembers(small, members, at, parent)
    ensures HoldsMembers(table, members, at, parent)
    decreases members
  {
    hide Extends;
    if members != [] {
      var init, last := members[..|members| - 1], members[|members| - 1];
      HoldsMembersStill(small, table, init, at, parent);
      if last.Children? {
        HoldsAllStill(small, table, last.nodes, at + SizeOfMembers(init), parent);
      }
    }
  }

  lemma {:induction false} HoldsAllStill(small: Table, table: Table, nodes: seq<Node>, at: nat, parent: nat)
    requires Extends(small, table) && HoldsAll(small, nodes, at, parent)
    ensures HoldsAll(table, nodes, at, parent)
    decreases nodes
  {
    hide Extends;
    if nodes != [] {
      var init := nodes[..|nodes| - 1];
      HoldsAllStill(small, table, init, at, parent);
      HoldsStill(small, table, nodes[|nodes| - 1], at + SizeOfAll(init), parent);
    }
  }

  /** Reading a tree out of the table gives its url nodes in document order with their folder paths. */
  lemma {:induction false} ReadsBack(table: Table, node: Node, at: nat, parent: nat, names: seq<Option<string>>)
    requires Ordered(table) && parent in table && Holds(table, node, at, parent)
    requires names == Ancestry(table, parent) + [table[parent].fields.name]
    ensures BookmarksIn(table, at, at + Size(node)) == Urls(node, names)
    decreases node
  {
    hide Ordered, FolderPath, FieldsOf;
    var fields := FieldsOf(node.members);
    BookmarksSplit(table, at, at + 1, at + Size(node));
    ReadsBackMembers(table, node.members, at + 1, at, names + [fields.name]);
    assert BookmarksIn(table, at, at + 1) == BookmarkAt(table, at) by {
      assert BookmarksIn(table, at, at) == [];
    }
  }

  lemma {:induction false} ReadsBackMembers(table: Table, members: seq<Member>, at: nat, parent: nat, names: seq<Option<string>>)
    requires Ordered(table) && parent in table && HoldsMembers(table, members, at, parent)
    requires names == Ancestry(table, parent) + [table[parent].fields.name]
    ensures BookmarksIn(table, at, at + SizeOfMembers(members)) == UrlsOfMembers(members, names)
    decreases members
  {
    hide Ordered, Ancestry, BookmarksIn;
    if members == [] {
      NoBookmarks(table, at);
    } else {
      var init, last := members[..|members| - 1], members[|members| - 1];
      var mid := at + SizeOfMembers(init);
      ReadsBackMembers(table, init, at, parent, names);
      BookmarksSplit(table, at, mid, at + SizeOfMembers(members));
      if last.Children? {
        ReadsBackAll(table, last.nodes, mid, parent, names);
      } else {
        NoBookmarks(table, mid);
      }
    }
  }

  lemma NoBookmarks(table: Table, at: nat)
    requires Ordered(table)
    ensures BookmarksIn(table, at, at) == []
  {
  }

  lemma {:induction false} ReadsBackAll(table: Table, nodes: seq<Node>, at: nat, parent: nat, names: seq<Option<string>>)
    requires Ordered(table) && parent in table && HoldsAll(table, nodes, at, parent)
    requires names == Ancestry(table, parent) + [table[parent].fields.name]
    ensures BookmarksIn(table, at, at + SizeOfAll(nodes)) == UrlsOfAll(nodes, names)
    decreases nodes
  {
    hide Ordered, Ancestry, BookmarksIn;
    if nodes == [] {
      NoBookmarks(table, at);
    } else {
      var init, last := nodes[..|nodes| - 1], nodes[|nodes| - 1];
      var mid := at + SizeOfAll(init);
      ReadsBackAll(table, init, at, parent, names);
      BookmarksSplit(table, at, mid, at + SizeOfAll(nodes));
      ReadsBack(table, last, mid, parent, names);
    }
  }
}
