// Bookmarks as a browser writes them: folders and bookmarks printed as JSON objects are read back in
// document order, each with its own fields and below the label of its root.
module BookmarkPrinting {
  import opened Basics
  import opened Texts
  import opened BookmarkTable
  import opened Bookmarks

  /** What the browser keeps: a bookmark, or a folder with what is in it. */
  datatype Item =
    | Link(name: string, url: string, guid: string, added: int, lastUsed: int)
    | Folder(name: string, items: seq<Item>)

  /** The members of the JSON object in the order in which they are written; others may stand between them. */
  function PrintItem(item: Item): Node
    decreases item
  {
    match item
    case Link(name, url, guid, added, lastUsed) =>
      Node([DateAdded(Some(added)), DateLastUsed(Some(lastUsed)), Guid(Some(guid)), Ignored, Name(Some(name)), Type(Some("url")), Url(Some(url))])
    case Folder(name, items) =>
      Node([Children(PrintItems(items)), Ignored, Name(Some(name)), Type(Some("folder"))])
  }

  function PrintItems(items: seq<Item>): (nodes: seq<Node>)
    ensures |nodes| == |items|
    decreases items
  {
    if items == [] then [] else PrintItems(items[..|items| - 1]) + [PrintItem(items[|items| - 1])]
  }

  /** The bookmarks in document order, each with the path of its folders. */
  function Links(item: Item, folders: seq<string>): seq<Bookmark>
    decreases item
  {
    match item
    case Link(name, url, guid, added, lastUsed) =>
      [Bookmark(Fields(Some("url"), Some(name), Some(url), Some(guid), Some(added), Some(lastUsed)), PathOf(folders))]
    case Folder(name, items) => LinksOf(items, folders + [name])
  }

  function LinksOf(items: seq<Item>, folders: seq<string>): seq<Bookmark>
    decreases items
  {
    if items == [] then [] else LinksOf(items[..|items| - 1], folders) + Links(items[|items| - 1], folders)
  }

  /** The folder names, trimmed, without empty ones and without adjacent repeats. */
  function PathOf(folders: seq<string>): seq<string> {
    Collapsed(Trimmed(folders))
  }

  function Trimmed(names: seq<string>): seq<string> {
    if names == [] then []
    else
      var last := Trim(names[|names| - 1]);
      Trimmed(names[..|names| - 1]) + if last == "" then [] else [last]
  }

  /** All names are there. */
  function Given(names: seq<string>): seq<Option<string>> {
    seq(|names|, i requires 0 <= i < |names| => Some(names[i]))
  }

  lemma {:induction false} TrimmedIsKept(names: seq<string>)
    ensures Kept(Given(names)) == Trimmed(names)
  {
    hide Trim;
    if names != [] {
      var init := names[..|names| - 1];
      TrimmedIsKept(init);
      assert Given(names)[..|names| - 1] == Given(init);
    }
  }

  lemma PathIsFolderPath(names: seq<string>)
    ensures FolderPath(Given(names)) == PathOf(names)
  {
    hide FolderPath, Collapsed, Kept;
    FolderPathCollapses(Given(names));
    TrimmedIsKept(names);
  }

  /** A member replaces the value that was there, and no other. */
  lemma OneMember(before: seq<Member>, member: Member)
    ensures var was, now := FieldsOf(before), FieldsOf(before + [member]);
            && now.kind == (if member.Type? then member.kind else was.kind)
            && now.name == (if member.Name? then member.name else was.name)
            && now.url == (if member.Url? then member.url else was.url)
            && now.guid == (if member.Guid? then member.guid else was.guid)
            && now.added == (if member.DateAdded? then member.time else was.added)
            && now.lastUsed == (if member.DateLastUsed? then member.time else was.lastUsed)
  {
    assert (before + [member])[..|before|] == before;
  }

  lemma MemberStep(members: seq<Member>, k: nat)
    requires k < |members|
    ensures members[..k + 1] == members[..k] + [members[k]]
  {
  }

  lemma FieldsStart(members: seq<Member>)
    ensures FieldsOf(members[..0]) == Fields(None, None, None, None, None, None) && members[..|members|] == members
  {
  }

  lemma LinkFields(item: Item)
    requires item.Link?
    ensures FieldsOf(PrintItem(item).members)
         == Fields(Some("url"), Some(item.name), Some(item.url), Some(item.guid), Some(item.added), Some(item.lastUsed))
  {
    hide FieldsOf;
    var m := PrintItem(item).members;
    FieldsStart(m);
    for k := 0 to |m|
      invariant k >= 1 ==> FieldsOf(m[..k]).added == Some(item.added)
      invariant k >= 2 ==> FieldsOf(m[..k]).lastUsed == Some(item.lastUsed)
      invariant k >= 3 ==> FieldsOf(m[..k]).guid == Some(item.guid)
      invariant k >= 5 ==> FieldsOf(m[..k]).name == Some(item.name)
      invariant k >= 6 ==> FieldsOf(m[..k]).kind == Some("url")
      invariant k >= 7 ==> FieldsOf(m[..k]).url == Some(item.url)
    {
      MemberStep(m, k);
      OneMember(m[..k], m[k]);
    }
  }

  lemma FolderFields(item: Item)
    requires item.Folder?
    ensures FieldsOf(PrintItem(item).members).name == Some(item.name) && FieldsOf(PrintItem(item).members).kind == Some("folder")
  {
    hide FieldsOf;
    var m := PrintItem(item).members;
    FieldsStart(m);
    for k := 0 to |m|
      invariant k >= 3 ==> FieldsOf(m[..k]).name == Some(item.name)
      invariant k >= 4 ==> FieldsOf(m[..k]).kind == Some("folder")
    {
      MemberStep(m, k);
      OneMember(m[..k], m[k]);
    }
  }

  /** Members without children have no bookmarks below them. */
  lemma {:induction false} NothingBelow(members: seq<Member>, names: seq<Option<string>>)
    requires forall member <- members :: !member.Children?
    ensures UrlsOfMembers(members, names) == []
  {
    if members != [] {
      NothingBelow(members[..|members| - 1], names);
    }
  }

  lemma OneChildren(nodes: seq<Node>, a: Member, b: Member, c: Member, names: seq<Option<string>>)
    requires !a.Children? && !b.Children? && !c.Children?
    ensures UrlsOfMembers([Children(nodes), a, b, c], names) == UrlsOfAll(nodes, names)
  {
    var m := [Children(nodes), a, b, c];
    assert m[..3] == [Children(nodes), a, b] && m[..3][..2] == [Children(nodes), a] && m[..3][..2][..1] == [Children(nodes)];
    assert [Children(nodes)][..0] == [] && UrlsOfMembers([], names) == [];
    assert UrlsOfMembers([Children(nodes)], names) == UrlsOfAll(nodes, names);
    assert UrlsOfMembers([Children(nodes), a], names) == UrlsOfAll(nodes, names);
    assert UrlsOfMembers([Children(nodes), a, b], names) == UrlsOfAll(nodes, names);
  }

  /** What is printed is read back. */
  lemma {:induction false} ItemIsRead(item: Item, folders: seq<string>)
    ensures Urls(PrintItem(item), Given(folders)) == Links(item, folders)
    decreases item
  {
    hide FieldsOf, FolderPath, PathOf;
    match item
    case Link(name, url, guid, added, lastUsed) =>
      LinkFields(item);
      PathIsFolderPath(folders);
      NothingBelow(PrintItem(item).members, Given(folders) + [Some(name)]);
    case Folder(name, items) =>
      FolderFields(item);
      assert Given(folders) + [Some(name)] == Given(folders + [name]);
      OneChildren(PrintItems(items), Ignored, Name(Some(name)), Type(Some("folder")), Given(folders + [name]));
      ItemsAreRead(items, folders + [name]);
  }

  lemma {:induction false} ItemsAreRead(items: seq<Item>, folders: seq<string>)
    ensures UrlsOfAll(PrintItems(items), Given(folders)) == LinksOf(items, folders)
    decreases items
  {
    hide Urls, Links;
    if items != [] {
      var n := |items|;
      ItemsAreRead(items[..n - 1], folders);
      ItemIsRead(items[n - 1], folders);
      assert PrintItems(items)[..n - 1] == PrintItems(items[..n - 1]);
    }
  }

  /** A document with these folders as its roots gives all their bookmarks, below the labels of the roots. */
  lemma DocumentIsRead(bar: Item, other: Item, synced: Item)
    requires bar.Folder? && other.Folder? && synced.Folder?
    ensures UrlsOfDocument([[("bookmark_bar", PrintItem(bar)), ("other", PrintItem(other)), ("synced", PrintItem(synced))]])
         == Links(bar, ["Bookmarks Bar"]) + Links(other, ["Other Bookmarks"]) + Links(synced, ["Mobile Bookmarks"])
  {
    hide Urls, Links, PrintItem;
    var a, b, c := ("bookmark_bar", PrintItem(bar)), ("other", PrintItem(other)), ("synced", PrintItem(synced));
    RootIsRead([], "bookmark_bar", bar, "Bookmarks Bar");
    RootIsRead([a], "other", other, "Other Bookmarks");
    RootIsRead([a, b], "synced", synced, "Mobile Bookmarks");
    assert [] + [a] == [a] && [a] + [b] == [a, b] && [a, b] + [c] == [a, b, c];
    assert UrlsOfRoots([]) == [];
    OneDocument([a, b, c]);
  }

  lemma RootIsRead(before: seq<(string, Node)>, root: string, item: Item, title: string)
    requires title == RootLabel(root)
    ensures UrlsOfRoots(before + [(root, PrintItem(item))]) == UrlsOfRoots(before) + Links(item, [title])
  {
    hide Urls, Links, PrintItem;
    ItemIsRead(item, [title]);
    assert Given([title]) == [Some(title)];
    assert (before + [(root, PrintItem(item))])[..|before|] == before;
  }

  lemma OneDocument(roots: seq<(string, Node)>)
    ensures UrlsOfDocument([roots]) == UrlsOfRoots(roots)
  {
    hide UrlsOfRoots;
    assert [roots][..0] == [] && UrlsOfDocument([]) == [];
  }

  /** Any other root is labelled as bookmarks. */
  lemma OtherRoot(root: string)
    ensures root != "bookmark_bar" && root != "other" && root != "synced" ==> RootLabel(root) == "Bookmarks"
  {
  }

  /** Spooling such a document and reading it back gives the bookmarks. */
  method ReadPrinted(bar: Item, other: Item, synced: Item) returns (bookmarks: seq<Bookmark>)
    requires bar.Folder? && other.Folder? && synced.Folder?
    ensures bookmarks == Links(bar, ["Bookmarks Bar"]) + Links(other, ["Other Bookmarks"]) + Links(synced, ["Mobile Bookmarks"])
  {
    DocumentIsRead(bar, other, synced);
    bookmarks := SpoolAndRead([[("bookmark_bar", PrintItem(bar)), ("other", PrintItem(other)), ("synced", PrintItem(synced))]]);
  }
}
