// The bookmark spool: ids are given out when a node starts, rows are written when it ends, and the
// ancestry query reads the bookmarks back in document order.
module Bookmarks {
  import opened Basics
  import opened Texts
  import opened BookmarkTable

  function RootLabel(root: string): string {
    if root == "bookmark_bar" then "Bookmarks Bar"
    else if root == "other" then "Other Bookmarks"
    else if root == "synced" then "Mobile Bookmarks"
    else "Bookmarks"
  }

  /** All bookmarks of the roots object, in document order, below the label of their root. */
  function UrlsOfRoots(roots: seq<(string, Node)>): seq<Bookmark> {
    if roots == [] then []
    else
      var last := roots[|roots| - 1];
      UrlsOfRoots(roots[..|roots| - 1]) + Urls(last.1, [Some(RootLabel(last.0))])
  }

  /** A document's `roots` members, of which a JSON object may repeat any number, in order. */
  function UrlsOfDocument(document: seq<seq<(string, Node)>>): seq<Bookmark> {
    if document == [] then []
    else UrlsOfDocument(document[..|document| - 1]) + UrlsOfRoots(document[|document| - 1])
  }

  class NodeSpool {
    var nextNodeId: nat
    var rows: Table

    constructor ()
      ensures Valid() && nextNodeId == 1 && rows == map[]
    {
      nextNodeId, rows := 1, map[];
    }

    ghost predicate Valid()
      reads this
    {
      Ordered(rows) && nextNodeId > 0 && forall id <- rows :: 0 < id < nextNodeId
    }

    method AllocateNodeId() returns (id: nat)
      requires Valid()
      modifies this`nextNodeId
      ensures Valid() && id == old(nextNodeId) && nextNodeId == id + 1 && id !in rows
    {
      id := nextNodeId;
      nextNodeId := nextNodeId + 1;
    }

    /** The id is the table's primary key, so it must be new. */
    method InsertNode(id: nat, parent: Option<nat>, fields: Fields)
      requires Valid() && 0 < id < nextNodeId && id !in rows && (parent.Some? ==> parent.value < id)
      modifies this`rows
      ensures Valid() && rows == old(rows)[id := Row(parent, fields)]
    {
      rows := rows[id := Row(parent, fields)];
    }

    method InsertRoot(title: string) returns (id: nat)
      requires Valid()
      modifies this
      ensures Valid() && id == old(nextNodeId) && nextNodeId == id + 1
      ensures rows == old(rows)[id := Row(None, NO_FIELDS.(kind := Some("folder"), name := Some(title)))]
      ensures Extends(old(rows), rows)
    {
      id := AllocateNodeId();
      InsertNode(id, None, NO_FIELDS.(kind := Some("folder"), name := Some(title)));
    }

    /** One node: its id first, then its children, then its row. */
    method VisitNode(node: Node, parent: nat)
      requires Valid() && parent < nextNodeId
      modifies this
      ensures Valid() && nextNodeId == old(nextNodeId) + Size(node)
      ensures Extends(old(rows), rows) && Added(old(rows), rows, old(nextNodeId), nextNodeId)
      ensures Holds(rows, node, old(nextNodeId), parent)
      decreases node
    {
      hide HoldsMembers, SizeOfMembers, Apply, FieldsOf;
      var id := AllocateNodeId();
      var fields := NO_FIELDS;
      NoMembers(rows, id + 1, id);
      var members := node.members;
      assert members[..0] == [];
      for i := 0 to |members|
        invariant Valid() && nextNodeId == id + 1 + SizeOfMembers(members[..i])
        invariant Extends(old(rows), rows) && Added(old(rows), rows, id + 1, nextNodeId)
        invariant HoldsMembers(rows, members[..i], id + 1, id)
        invariant fields == FieldsOf(members[..i])
      {
        assert members[..i + 1][..i] == members[..i];
        MembersStep(rows, members[..i + 1], id + 1, id);
        if members[i].Children? {
          ghost var before := rows;
          VisitChildren(members[i].nodes, id);
          HoldsMembersStill(before, rows, members[..i], id + 1, id);
        } else {
          fields := Apply(fields, members[i]);
        }
        MembersStep(rows, members[..i + 1], id + 1, id);
      }
      assert members[..|members|] == members;
      ghost var inner := rows;
      InsertNode(id, Some(parent), fields);
      HoldsMembersStill(inner, rows, members, id + 1, id);
    }

    method VisitChildren(nodes: seq<Node>, parent: nat)
      requires Valid() && parent < nextNodeId
      modifies this
      ensures Valid() && nextNodeId == old(nextNodeId) + SizeOfAll(nodes)
      ensures Extends(old(rows), rows) && Added(old(rows), rows, old(nextNodeId), nextNodeId)
      ensures HoldsAll(rows, nodes, old(nextNodeId), parent)
      decreases nodes
    {
      hide HoldsAll, SizeOfAll, Holds, Size;
      NoNodes(rows, nextNodeId, parent);
      assert nodes[..0] == [];
      for i := 0 to |nodes|
        invariant Valid() && nextNodeId == old(nextNodeId) + SizeOfAll(nodes[..i])
        invariant Extends(old(rows), rows) && Added(old(rows), rows, old(nextNodeId), nextNodeId)
        invariant HoldsAll(rows, nodes[..i], old(nextNodeId), parent)
      {
        assert nodes[..i + 1][..i] == nodes[..i];
        ghost var before := rows;
        VisitNode(nodes[i], parent);
        HoldsAllStill(before, rows, nodes[..i], old(nextNodeId), parent);
        NodesStep(rows, nodes[..i + 1], old(nextNodeId), parent);
      }
      assert nodes[..|nodes|] == nodes;
    }

    /** A roots object: for each root a folder row with its title, and the root's node below it. */
    method VisitRoots(roots: seq<(string, Node)>)
      requires Valid()
      modifies this
      ensures Valid() && BookmarksIn(rows, 0, nextNodeId) == old(BookmarksIn(rows, 0, nextNodeId)) + UrlsOfRoots(roots)
    {
      hide Holds, Size, BookmarksIn, Urls, Ordered;
      assert roots[..0] == [];
      ghost var read := BookmarksIn(rows, 0, nextNodeId);
      assert read + [] == read;
      for i := 0 to |roots|
        invariant Valid() && BookmarksIn(rows, 0, nextNodeId) == read + UrlsOfRoots(roots[..i])
      {
        assert roots[..i + 1][..i] == roots[..i];
        ghost var before, start := rows, nextNodeId;
        var id := InsertRoot(RootLabel(roots[i].0));
        VisitNode(roots[i].1, id);
        assert Extends(before, rows);
        SameBelow(before, rows, start);
        RootReadsBack(rows, id, RootLabel(roots[i].0), roots[i].1);
        BookmarksSplit(rows, 0, start, nextNodeId);
      }
      assert roots[..|roots|] == roots;
    }

    /** The document: each of its `roots` members is spooled, everything else is skipped. */
    method VisitDocument(document: seq<seq<(string, Node)>>)
      requires Valid() && nextNodeId == 1 && rows == map[]
      modifies this
      ensures Valid() && BookmarksIn(rows, 0, nextNodeId) == UrlsOfDocument(document)
    {
      hide BookmarksIn, UrlsOfRoots, Ordered;
      FirstId(rows);
      assert document[..0] == [];
      for i := 0 to |document|
        invariant Valid() && BookmarksIn(rows, 0, nextNodeId) == UrlsOfDocument(document[..i])
      {
        assert document[..i + 1][..i] == document[..i];
        VisitRoots(document[i]);
      }
      assert document[..|document|] == document;
    }

    /** Groups the query's rows by bookmark, adding one folder name for each row. */
    method ForEachBookmark() returns (bookmarks: seq<Bookmark>)
      requires Valid()
      ensures bookmarks == BookmarksIn(rows, 0, nextNodeId)
    {
      hide Query, BookmarksIn, Grouped, Ordered;
      bookmarks := [];
      var result := Query(rows, nextNodeId);
      var current: Option<(nat, Bookmark)> := None;
      assert Grouped(result[..0]) == Grouping([], None) by {
        NothingGrouped();
      }
      for i := 0 to |result|
        invariant Grouping(bookmarks, current) == Grouped(result[..i])
      {
        assert result[..i + 1] == result[..i] + [result[i]];
        GroupedStep(result[..i], result[i]);
        var row := result[i];
        if current.Some? && current.value.0 != row.id {
          bookmarks := bookmarks + [current.value.1];
          current := None;
        }
        if current.None? {
          current := Some((row.id, Bookmark(row.fields, [])));
        }
        if row.folder.Some? {
          var folderName := Trim(row.folder.value);
          if folderName != "" {
            var path := current.value.1.folderPath;
            if path == [] || path[|path| - 1] != folderName {
              current := Some((current.value.0, current.value.1.(folderPath := path + [folderName])));
            }
          }
        }
      }
      assert result[..|result|] == result;
      QueryGroups(rows, nextNodeId);
      if current.Some? {
        bookmarks := bookmarks + [current.value.1];
      }
    }
  }

  lemma NothingGrouped()
    ensures Grouped([]) == Grouping([], None)
  {
  }

  /** Spooling a document and reading the bookmarks back. */
  method SpoolAndRead(document: seq<seq<(string, Node)>>) returns (bookmarks: seq<Bookmark>)
    ensures bookmarks == UrlsOfDocument(document)
  {
    var spool := new NodeSpool();
    spool.VisitDocument(document);
    bookmarks := spool.ForEachBookmark();
  }

  /** The bookmarks consumed so far and the one whose rows are still coming. */
  datatype Grouping = Grouping(consumed: seq<Bookmark>, current: Option<(nat, Bookmark)>)

  function Flushed(g: Grouping): seq<Bookmark> {
    g.consumed + if g.current.Some? then [g.current.value.1] else []
  }

  function NextRow(g: Grouping, row: ResultRow): Grouping {
    var starts := g.current.None? || g.current.value.0 != row.id;
    var bookmark := if starts then Bookmark(row.fields, []) else g.current.value.1;
    Grouping(if starts then Flushed(g) else g.consumed,
             Some((row.id, bookmark.(folderPath := PushFolder(bookmark.folderPath, row.folder)))))
  }

  function Grouped(rows: seq<ResultRow>): Grouping {
    if rows == [] then Grouping([], None) else NextRow(Grouped(rows[..|rows| - 1]), rows[|rows| - 1])
  }

  lemma GroupedStep(rows: seq<ResultRow>, row: ResultRow)
    ensures Grouped(rows + [row]) == NextRow(Grouped(rows), row)
  {
    assert (rows + [row])[..|rows|] == rows;
  }

  /** The rows of one bookmark after those of others. */
  lemma {:induction false} GroupedRows(rows: seq<ResultRow>, id: nat, fields: Fields, names: seq<Option<string>>)
    requires names != [] && (Grouped(rows).current.Some? ==> Grouped(rows).current.value.0 != id)
    ensures Grouped(rows + RowsFor(id, fields, names))
         == Grouping(Flushed(Grouped(rows)), Some((id, Bookmark(fields, FolderPath(names)))))
  {
    hide PushFolder, Grouped;
    var init, last := names[..|names| - 1], ResultRow(id, fields, names[|names| - 1]);
    GroupedStep(rows + RowsFor(id, fields, init), last);
    assert rows + RowsFor(id, fields, names) == (rows + RowsFor(id, fields, init)) + [last];
    if init == [] {
      assert rows + RowsFor(id, fields, init) == rows;
      assert FolderPath(names) == PushFolder([], names[0]);
    } else {
      GroupedRows(rows, id, fields, init);
    }
  }

  /** Grouping the query's rows gives one bookmark for each url row, with its ancestors' folder path. */
  lemma {:induction false} QueryGroups(table: Table, n: nat)
    requires Ordered(table)
    ensures Flushed(Grouped(Query(table, n))) == BookmarksIn(table, 0, n)
    ensures Grouped(Query(table, n)).current.Some? ==> Grouped(Query(table, n)).current.value.0 < n
  {
    hide Ordered, Ancestry, FolderPath, NextRow, RowsFor;
    if n > 0 {
      QueryGroups(table, n - 1);
      var before, id := Query(table, n - 1), n - 1;
      if id !in table || !IsUrl(table[id].fields) {
        assert Query(table, n) == before;
      } else if Ancestry(table, id) == [] {
        LoneRow(before, id, table[id].fields);
      } else {
        GroupedRows(before, id, table[id].fields, Ancestry(table, id));
      }
    }
  }

  lemma LoneRow(rows: seq<ResultRow>, id: nat, fields: Fields)
    requires Grouped(rows).current.Some? ==> Grouped(rows).current.value.0 != id
    ensures Grouped(rows + [ResultRow(id, fields, None)])
         == Grouping(Flushed(Grouped(rows)), Some((id, Bookmark(fields, FolderPath([])))))
  {
    hide Grouped;
    GroupedStep(rows, ResultRow(id, fields, None));
  }

  /** The new rows have ids in [lo, hi). */
  ghost predicate Added(before: Table, after: Table, lo: nat, hi: nat) {
    forall id <- after :: id in before || lo <= id < hi
  }

  lemma NoMembers(table: Table, at: nat, parent: nat)
    ensures HoldsMembers(table, [], at, parent) && SizeOfMembers([]) == 0 && FieldsOf([]) == NO_FIELDS
  {
  }

  lemma NoNodes(table: Table, at: nat, parent: nat)
    ensures HoldsAll(table, [], at, parent) && SizeOfAll([]) == 0
  {
  }

  lemma MembersStep(table: Table, members: seq<Member>, at: nat, parent: nat)
    requires members != []
    ensures var init, last := members[..|members| - 1], members[|members| - 1];
            && FieldsOf(members) == Apply(FieldsOf(init), last)
            && (last.Children? ==> FieldsOf(members) == FieldsOf(init))
            && SizeOfMembers(members) == SizeOfMembers(init) + (if last.Children? then SizeOfAll(last.nodes) else 0)
            && (HoldsMembers(table, members, at, parent) <==>
                && HoldsMembers(table, init, at, parent)
                && (last.Children? ==> HoldsAll(table, last.nodes, at + SizeOfMembers(init), parent)))
  {
  }

  lemma NodesStep(table: Table, nodes: seq<Node>, at: nat, parent: nat)
    requires nodes != []
    ensures var init, last := nodes[..|nodes| - 1], nodes[|nodes| - 1];
            && SizeOfAll(nodes) == SizeOfAll(init) + Size(last)
            && (HoldsAll(table, nodes, at, parent) <==>
                HoldsAll(table, init, at, parent) && Holds(table, last, at + SizeOfAll(init), parent))
  {
  }

  lemma FirstId(table: Table)
    requires table == map[]
    ensures Ordered(table) && BookmarksIn(table, 0, 1) == []
  {
  }

  lemma {:induction false} SameAncestry(small: Table, table: Table, id: nat)
    requires Ordered(small) && Ordered(table) && Extends(small, table) && id in small
    requires forall k <- table :: k <= id ==> k in small
    ensures Ancestry(table, id) == Ancestry(small, id)
  {
    var parent := table[id].parent;
    if parent.Some? && parent.value in table {
      SameAncestry(small, table, parent.value);
    }
  }

  /** Rows with larger ids do not change what was read before. */
  lemma {:induction false} SameBelow(small: Table, table: Table, n: nat)
    requires Ordered(small) && Ordered(table) && Extends(small, table)
    requires forall k <- table :: k < n ==> k in small
    ensures BookmarksIn(table, 0, n) == BookmarksIn(small, 0, n)
    decreases n
  {
    hide FolderPath;
    if n > 0 {
      SameBelow(small, table, n - 1);
      if n - 1 in table {
        SameAncestry(small, table, n - 1);
      }
    }
  }

  lemma RootReadsBack(table: Table, id: nat, title: string, node: Node)
    requires Ordered(table) && id in table && table[id] == Row(None, NO_FIELDS.(kind := Some("folder"), name := Some(title)))
    requires Holds(table, node, id + 1, id)
    ensures BookmarksIn(table, id, id + 1 + Size(node)) == Urls(node, [Some(title)])
  {
    hide Holds, Size, Urls;
    assert Ancestry(table, id) == [];
    assert [] + [table[id].fields.name] == [Some(title)];
    ReadsBack(table, node, id + 1, id, [Some(title)]);
    BookmarksSplit(table, id, id + 1, id + 1 + Size(node));
    assert BookmarksIn(table, id, id) == [];
  }
}
