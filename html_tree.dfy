/** build_html_tree (Reports_Generic.py:284-318), modelled on the structure of
    the list it emits rather than on its markup: one item per shown entry, in
    the mapping's insertion order. A 'folder' with children becomes a
    collapsible item with an id and nested items; a 'folder' without children
    is dropped; any other type becomes a file item, and its children are never
    visited. */
module HtmlTree {
  import opened SizeUnits
  import opened DirTree

  datatype Item =
    | FolderItem(id: string, name: string, sizes: Sizes, items: seq<Item>)
    | FileItem(name: string, sizes: Sizes)

  /** Python's `s.replace(from, to)` for single characters. */
  function ReplaceChar(s: string, from: char, to: char): (r: string)
    ensures |r| == |s|
    ensures forall i :: 0 <= i < |s| ==> r[i] == if s[i] == from then to else s[i]
  {
    if |s| == 0 then ""
    else [if s[0] == from then to else s[0]] + ReplaceChar(s[1..], from, to)
  }

  /** Line 302: the element id of a folder's nested list. */
  function FolderId(path: string, name: string): (id: string)
    ensures |id| == 8 + |path| + |name|
    ensures id[..7] == "folder_" && id[|id| - |name|..] == name
  {
    "folder_" + ReplaceChar(path, '/', '_') + "_" + name
  }

  /** Whether an entry produces an item (lines 301, 303, 312). */
  predicate Shown(e: Entry) {
    !IsFolder(e.node) || |e.node.children| > 0
  }

  /** The entries of a mapping that produce an item, in insertion order. */
  function Visible(level: seq<Entry>): seq<Entry> {
    if level == [] then []
    else (if Shown(level[0]) then [level[0]] else []) + Visible(level[1..])
  }

  /** The items of a mapping whose ancestors' names are joined in `path`. */
  function BuildHtmlTree(level: seq<Entry>, path: string): (items: seq<Item>)
    ensures |items| <= |level|
  {
    if level == [] then []
    else
      var name := level[0].name;
      var data := level[0].node;
      var rest := BuildHtmlTree(level[1..], path);
      if IsFolder(data) then
        if |data.children| > 0 then
          [FolderItem(FolderId(path, name), name, data.sizes,
                      BuildHtmlTree(data.children, path + "/" + name))] + rest
        else rest
      else [FileItem(name, data.sizes)] + rest
  }

  /** What the item of entry `e` holds when its mapping is rendered under `path`. */
  predicate Renders(item: Item, e: Entry, path: string) {
    && item.name == e.name
    && item.sizes == e.node.sizes
    && (item.FolderItem? <==> IsFolder(e.node))
    && (item.FolderItem? ==>
          && item.id == FolderId(path, e.name)
          && item.items == BuildHtmlTree(e.node.children, path + "/" + e.name))
  }

  // ----- lemmas -----

  /** Exactly the shown entries appear, in insertion order: item j renders the
      j-th shown entry. */
  lemma {:induction false} RenderedEntries(level: seq<Entry>, path: string)
    ensures |BuildHtmlTree(level, path)| == |Visible(level)|
    ensures forall j :: 0 <= j < |Visible(level)| ==>
      Renders(BuildHtmlTree(level, path)[j], Visible(level)[j], path)
    decreases |level|
  {
    if level != [] {
      RenderedEntries(level[1..], path);
      var items := BuildHtmlTree(level, path);
      var rest := BuildHtmlTree(level[1..], path);
      var vis := Visible(level);
      if Shown(level[0]) {
        assert items == [items[0]] + rest && vis == [level[0]] + Visible(level[1..]);
        forall j | 1 <= j < |vis| ensures Renders(items[j], vis[j], path) {
          assert items[j] == rest[j - 1] && vis[j] == Visible(level[1..])[j - 1];
        }
      } else {
        assert items == rest && vis == Visible(level[1..]);
      }
    }
  }

  /** An entry is shown exactly when it is in the mapping and is a non-folder
      or a folder with children. */
  lemma {:induction false} VisibleMembers(level: seq<Entry>)
    ensures forall e :: e in Visible(level) <==> e in level && Shown(e)
    decreases |level|
  {
    if level != [] {
      VisibleMembers(level[1..]);
      assert forall e :: e in level <==> e == level[0] || e in level[1..];
    }
  }

  lemma {:induction false} VisibleAppend(a: seq<Entry>, b: seq<Entry>)
    ensures Visible(a + b) == Visible(a) + Visible(b)
    decreases |a|
  {
    if a != [] {
      assert (a + b)[1..] == a[1..] + b;
      VisibleAppend(a[1..], b);
    } else {
      assert a + b == b;
    }
  }

  lemma {:induction false} RenderAppend(a: seq<Entry>, b: seq<Entry>, path: string)
    ensures BuildHtmlTree(a + b, path) == BuildHtmlTree(a, path) + BuildHtmlTree(b, path)
    decreases |a|
  {
    if a != [] {
      assert (a + b)[1..] == a[1..] + b;
      RenderAppend(a[1..], b, path);
    } else {
      assert a + b == b;
    }
  }

  /** A 'folder' without children, such as one that is only named by an
      explicit empty-folder record, adds nothing to the rendering; a file
      adds exactly one item, even when it is empty. */
  lemma EmptyFolderOmitted(level: seq<Entry>, name: string, s: Sizes, path: string)
    ensures BuildHtmlTree(level + [Entry(name, Node(FolderKind, [], s))], path)
            == BuildHtmlTree(level, path)
  {
    RenderAppend(level, [Entry(name, Node(FolderKind, [], s))], path);
  }

  lemma NonFolderRendersOnce(level: seq<Entry>, e: Entry, path: string)
    requires !IsFolder(e.node)
    ensures BuildHtmlTree(level + [e], path) == BuildHtmlTree(level, path) + [FileItem(e.name, e.node.sizes)]
  {
    RenderAppend(level, [e], path);
  }

  lemma {:induction false} VisibleUnique(level: seq<Entry>)
    requires UniqueNames(level)
    ensures UniqueNames(Visible(level))
    decreases |level|
  {
    if level != [] {
      VisibleUnique(level[1..]);
      VisibleMembers(level[1..]);
      var v := Visible(level);
      var rest := Visible(level[1..]);
      if Shown(level[0]) {
        assert v == [level[0]] + rest;
        forall j | 0 <= j < |rest| ensures rest[j].name != level[0].name {
          assert rest[j] in level[1..];
        }
        forall i, j | 0 <= i < j < |v| ensures v[i].name != v[j].name {
          if i > 0 { assert v[i] == rest[i - 1]; }
          assert v[j] == rest[j - 1];
        }
      } else {
        assert v == rest;
      }
    }
  }

  /** Ids of sibling folders differ, because sibling names do. */
  lemma SiblingFolderIdsDistinct(level: seq<Entry>, path: string, i: nat, j: nat)
    requires UniqueNames(level)
    requires i < j < |BuildHtmlTree(level, path)|
    requires BuildHtmlTree(level, path)[i].FolderItem? && BuildHtmlTree(level, path)[j].FolderItem?
    ensures BuildHtmlTree(level, path)[i].id != BuildHtmlTree(level, path)[j].id
  {
    var items := BuildHtmlTree(level, path);
    var v := Visible(level);
    RenderedEntries(level, path);
    VisibleUnique(level);
    assert Renders(items[i], v[i], path) && Renders(items[j], v[j], path);
    var prefix := "folder_" + ReplaceChar(path, '/', '_') + "_";
    assert FolderId(path, v[i].name) == prefix + v[i].name;
    assert FolderId(path, v[j].name) == prefix + v[j].name;
    assert (prefix + v[i].name)[|prefix|..] == v[i].name;
    assert (prefix + v[j].name)[|prefix|..] == v[j].name;
  }

  /** Ids need not be unique across levels: a folder `b_c` inside `a` and a
      folder `c` inside `a_b` share an id, since '/' and '_' both become '_'. */
  lemma FolderIdsCollideAcrossLevels()
    ensures FolderId("/a", "b_c") == FolderId("/a_b", "c")
  {
    assert ReplaceChar("/a", '/', '_') == "_a";
    assert ReplaceChar("/a_b", '/', '_') == "_a_b";
  }

  predicate ItemsConsistent(items: seq<Item>) {
    forall j :: 0 <= j < |items| ==>
      UnitsConsistent(items[j].sizes)
      && (items[j].FolderItem? ==> ItemsConsistent(items[j].items))
  }

  /** Each item shows the sizes of its node, so consistent units in the tree
      give consistent units on every item, at every depth. */
  lemma {:induction false} RenderKeepsUnits(level: seq<Entry>, path: string)
    requires AllUnitsConsistent(level)
    ensures ItemsConsistent(BuildHtmlTree(level, path))
    decreases level
  {
    if level != [] {
      var data := level[0].node;
      assert AllUnitsConsistent(level[1..]) by {
        forall i | 0 <= i < |level[1..]|
          ensures UnitsConsistent(level[1..][i].node.sizes) && AllUnitsConsistent(level[1..][i].node.children)
        {
          assert level[1..][i] == level[i + 1];
        }
      }
      RenderKeepsUnits(level[1..], path);
      if IsFolder(data) && |data.children| > 0 {
        RenderKeepsUnits(data.children, path + "/" + level[0].name);
      }
      var items := BuildHtmlTree(level, path);
      var rest := BuildHtmlTree(level[1..], path);
      if Shown(level[0]) {
        assert forall j :: 1 <= j < |items| ==> items[j] == rest[j - 1];
      } else {
        assert items == rest;
      }
    }
  }
}
