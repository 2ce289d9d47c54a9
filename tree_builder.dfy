/** build_tree_dict (Reports_Generic.py:263-282): the flat records become one
    nested tree. A node is created only when its key is absent, so the first
    record that reaches a node decides its type and sizes for good. */
module TreeBuilder {
  import opened DirTree
  import opened PathSegments

  /** One row of the query: a path, its type string and its four sizes. */
  datatype Record = Record(path: string, kind: string, sizes: Sizes)

  /** The six parallel lists, zipped; Python's zip stops at the shortest. */
  function Zip(paths: seq<string>, types: seq<string>, sizesBytes: seq<int>,
               sizesKb: seq<real>, sizesMb: seq<real>, sizesGb: seq<real>): (records: seq<Record>)
    ensures |records| <= |paths| && |records| <= |types| && |records| <= |sizesBytes|
    ensures |records| <= |sizesKb| && |records| <= |sizesMb| && |records| <= |sizesGb|
    ensures |records| == |paths| || |records| == |types| || |records| == |sizesBytes|
         || |records| == |sizesKb| || |records| == |sizesMb| || |records| == |sizesGb|
    ensures forall i :: 0 <= i < |records| ==>
      records[i] == Record(paths[i], types[i], Sizes(sizesBytes[i], sizesKb[i], sizesMb[i], sizesGb[i]))
  {
    if |paths| == 0 || |types| == 0 || |sizesBytes| == 0
       || |sizesKb| == 0 || |sizesMb| == 0 || |sizesGb| == 0 then []
    else
      [Record(paths[0], types[0], Sizes(sizesBytes[0], sizesKb[0], sizesMb[0], sizesGb[0]))]
      + Zip(paths[1..], types[1..], sizesBytes[1..], sizesKb[1..], sizesMb[1..], sizesGb[1..])
  }

  /** The node created for segment number i of a record's path (lines 273-280):
      the terminal segment carries the record's type and sizes, every other
      segment becomes an empty 'folder'. */
  function NewNode(terminal: bool, r: Record): Node {
    if terminal then Node(r.kind, [], r.sizes) else Node(FolderKind, [], ZeroSizes)
  }

  /** The walk of lines 269-281 from a mapping along `parts`: an absent key is
      created, a present one is left as it is, and the walk descends into the
      node's children. */
  function Insert(level: seq<Entry>, parts: seq<string>, r: Record): seq<Entry>
    requires |parts| >= 1
    decreases |parts|, 0
  {
    var k := Find(Names(level), parts[0]);
    var terminal := |parts| == 1;
    var node := if k < |level| then level[k].node else NewNode(terminal, r);
    var node' := if terminal then node else Descend(node, parts[1..], r);
    Place(level, k, Entry(parts[0], node'))
  }

  /** The node with `parts` inserted below it (the cursor moving to its children). */
  function Descend(node: Node, parts: seq<string>, r: Record): Node
    requires |parts| >= 1
    decreases |parts|, 1
  {
    Node(node.kind, Insert(node.children, parts, r), node.sizes)
  }

  /** The mapping with entry `e` stored at position k, or appended when k is past the end. */
  function Place(level: seq<Entry>, k: nat, e: Entry): seq<Entry>
    requires k <= |level|
  {
    if k < |level| then level[k := e] else level + [e]
  }

  /** One iteration of the outer loop (lines 266-281). */
  function AddRecord(tree: seq<Entry>, r: Record): seq<Entry> {
    Insert(tree, Segments(r.path), r)
  }

  /** The tree after all records, in order. */
  function Built(records: seq<Record>): seq<Entry> {
    if |records| == 0 then []
    else AddRecord(Built(records[..|records| - 1]), records[|records| - 1])
  }

  /** Index of the first record whose segments begin with `path`, or |records|. */
  function FirstOwner(records: seq<Record>, path: seq<string>): (i: nat)
    ensures i <= |records|
    ensures i < |records| ==> path <= Segments(records[i].path)
    ensures forall j :: 0 <= j < i ==> !(path <= Segments(records[j].path))
  {
    if |records| == 0 then 0
    else if path <= Segments(records[0].path) then 0
    else 1 + FirstOwner(records[1..], path)
  }

  /** build_tree_dict itself: the outer loop over the zipped rows. */
  method BuildTreeDict(paths: seq<string>, types: seq<string>, sizesBytes: seq<int>,
                       sizesKb: seq<real>, sizesMb: seq<real>, sizesGb: seq<real>)
    returns (tree: seq<Entry>)
    ensures tree == Built(Zip(paths, types, sizesBytes, sizesKb, sizesMb, sizesGb))
    ensures WellFormed(tree)
  {
    ghost var records := Zip(paths, types, sizesBytes, sizesKb, sizesMb, sizesGb);
    tree := [];
    var i := 0;
    while i < |paths| && i < |types| && i < |sizesBytes|
          && i < |sizesKb| && i < |sizesMb| && i < |sizesGb|
      invariant 0 <= i <= |records|
      invariant tree == Built(records[..i])
      invariant WellFormed(tree)
    {
      var r := Record(paths[i], types[i], Sizes(sizesBytes[i], sizesKb[i], sizesMb[i], sizesGb[i]));
      assert r == records[i];
      BuiltStep(records, i);
      AddRecordWellFormed(tree, r);
      tree := AddRecord(tree, r);
      i := i + 1;
    }
    assert records[..i] == records;
  }

  lemma BuiltStep(records: seq<Record>, i: nat)
    requires i < |records|
    ensures Built(records[..i + 1]) == AddRecord(Built(records[..i]), records[i])
  {
    assert records[..i + 1][..i] == records[..i];
  }

  // ----- one insertion -----

  lemma NamesUpdate(level: seq<Entry>, k: nat, e: Entry)
    requires k < |level| && e.name == level[k].name
    ensures Names(level[k := e]) == Names(level)
  {
  }

  lemma NamesAppend(level: seq<Entry>, e: Entry)
    ensures Names(level + [e]) == Names(level) + [e.name]
  {
  }

  /** Appending a key does not move the keys before it. */
  lemma FindAppend(names: seq<string>, x: string, y: string)
    ensures Find(names + [x], y) ==
      if Find(names, y) < |names| then Find(names, y)
      else if x == y then |names| else |names| + 1
  {
    var f := Find(names + [x], y);
    var g := Find(names, y);
    assert forall i :: 0 <= i < |names| ==> (names + [x])[i] == names[i];
    if g < |names| {
      assert f <= g;
    } else if x == y {
      assert (names + [x])[|names|] == y;
    }
  }

  /** The effect of one insertion on every path of the tree: a path exists
      afterwards exactly when it existed before or is a prefix of `parts`; an
      existing node keeps its type and sizes (first write wins); a node created
      now is a zero-sized 'folder', unless it is the terminal one, which gets
      the record's type and sizes. */
  lemma {:induction false} InsertLookup(level: seq<Entry>, parts: seq<string>, r: Record, p: seq<string>)
    requires |parts| >= 1 && |p| >= 1
    ensures var after := Insert(level, parts, r);
      && (Lookup(after, p).Some? <==> Lookup(level, p).Some? || p <= parts)
      && (Lookup(level, p).Some? ==> Attrs(Lookup(after, p).value) == Attrs(Lookup(level, p).value))
      && (Lookup(level, p).None? && p <= parts ==>
            Attrs(Lookup(after, p).value) == Attrs(NewNode(|p| == |parts|, r)))
    decreases |parts|
  {
    var after := Insert(level, parts, r);
    var k := Find(Names(level), parts[0]);
    var terminal := |parts| == 1;
    var node := if k < |level| then level[k].node else NewNode(terminal, r);
    var node' := if terminal then node else Descend(node, parts[1..], r);
    var e := Entry(parts[0], node');
    var kp := Find(Names(level), p[0]);
    if k < |level| {
      assert after == level[k := e];
      NamesUpdate(level, k, e);
    } else {
      assert after == level + [e];
      NamesAppend(level, e);
    }
    var ka := Find(Names(after), p[0]);
    if p[0] != parts[0] {
      // the walk did not touch p's first key
      assert !(p <= parts);
      if k < |level| {
        assert ka == kp;
      } else {
        FindAppend(Names(level), parts[0], p[0]);
      }
      if kp < |level| {
        assert after[kp] == level[kp];
      }
    } else {
      if k == |level| {
        FindAppend(Names(level), parts[0], p[0]);
      }
      assert ka == k;
      assert after[ka] == e;
      if |p| > 1 {
        assert p <= parts <==> (|parts| > 1 && p[1..] <= parts[1..]);
        if terminal {
          assert Lookup(after, p) == Lookup(node.children, p[1..]);
          if k == |level| {
            assert Lookup(node.children, p[1..]) == None;
          }
        } else {
          InsertLookup(node.children, parts[1..], r, p[1..]);
          if k == |level| {
            assert Lookup(node.children, p[1..]) == None;
          }
        }
      }
    }
  }

  /** Insertion adds keys only where they are absent, so keys stay unique. */
  lemma {:induction false} InsertWellFormed(level: seq<Entry>, parts: seq<string>, r: Record)
    requires |parts| >= 1
    requires WellFormed(level)
    ensures WellFormed(Insert(level, parts, r))
    decreases |parts|
  {
    var after := Insert(level, parts, r);
    var k := Find(Names(level), parts[0]);
    var terminal := |parts| == 1;
    var node := if k < |level| then level[k].node else NewNode(terminal, r);
    if !terminal {
      if k < |level| {
        assert WellFormed(node.children);
      }
      InsertWellFormed(node.children, parts[1..], r);
    }
    var node' := if terminal then node else Descend(node, parts[1..], r);
    var e := Entry(parts[0], node');
    assert WellFormed(node'.children);
    if k < |level| {
      assert after == level[k := e];
    } else {
      assert after == level + [e];
    }
    assert forall i :: 0 <= i < |after| && i != k ==> after[i] == level[i];
  }

  lemma AddRecordWellFormed(tree: seq<Entry>, r: Record)
    requires WellFormed(tree)
    ensures WellFormed(AddRecord(tree, r))
  {
    InsertWellFormed(tree, Segments(r.path), r);
  }

  // ----- the whole build -----

  lemma {:induction false} BuiltWellFormed(records: seq<Record>)
    ensures WellFormed(Built(records))
    decreases |records|
  {
    if |records| > 0 {
      BuiltWellFormed(records[..|records| - 1]);
      AddRecordWellFormed(Built(records[..|records| - 1]), records[|records| - 1]);
    }
  }

  /** First write wins, over the whole input: a path is in the built tree
      exactly when it begins the segments of some record, and its node has the
      type and sizes that the FIRST such record gave it ('folder' and zero when
      the path ends before that record's last segment). */
  lemma {:induction false} BuiltLookup(records: seq<Record>, p: seq<string>)
    requires |p| >= 1
    ensures var f := FirstOwner(records, p);
      && (Lookup(Built(records), p).Some? <==> f < |records|)
      && (f < |records| ==>
            Attrs(Lookup(Built(records), p).value)
            == Attrs(NewNode(|p| == |Segments(records[f].path)|, records[f])))
    decreases |records|
  {
    if |records| > 0 {
      var n := |records|;
      var front := records[..n - 1];
      var last := records[n - 1];
      BuiltLookup(front, p);
      InsertLookup(Built(front), Segments(last.path), last, p);
      assert records == front + [last];
      FirstOwnerAppend(front, last, p);
    }
  }

  lemma FirstOwnerAppend(front: seq<Record>, last: Record, p: seq<string>)
    ensures FirstOwner(front + [last], p) ==
      if FirstOwner(front, p) < |front| then FirstOwner(front, p)
      else if p <= Segments(last.path) then |front| else |front| + 1
  {
    var records := front + [last];
    var f := FirstOwner(records, p);
    var g := FirstOwner(front, p);
    assert forall j :: 0 <= j < |front| ==> records[j] == front[j];
    if g < |front| {
      assert f <= g;
    } else if p <= Segments(last.path) {
      assert records[|front|] == last;
    }
  }

  /** Prefix materialisation: every non-empty prefix of every record's segments
      is a path of nodes in the built tree, so no record is skipped. */
  lemma BuiltMaterialises(records: seq<Record>, i: nat, j: nat)
    requires i < |records|
    requires 1 <= j <= |Segments(records[i].path)|
    ensures Lookup(Built(records), Segments(records[i].path)[..j]).Some?
  {
    var p := Segments(records[i].path)[..j];
    BuiltLookup(records, p);
    assert p <= Segments(records[i].path);
    assert FirstOwner(records, p) <= i;
  }

  /** A record whose whole path already exists changes nothing: every node
      on the way is present, so nothing is created or overwritten. */
  lemma {:induction false} InsertExisting(level: seq<Entry>, parts: seq<string>, r: Record)
    requires |parts| >= 1
    requires Lookup(level, parts).Some?
    ensures Insert(level, parts, r) == level
    decreases |parts|
  {
    var k := Find(Names(level), parts[0]);
    var node := level[k].node;
    if |parts| == 1 {
      assert level[k := Entry(parts[0], node)] == level;
    } else {
      InsertExisting(node.children, parts[1..], r);
      assert Descend(node, parts[1..], r) == node;
      assert level[k := Entry(parts[0], node)] == level;
    }
  }

  /** First write wins, as equality of trees: a record whose path is already
      in the tree leaves the whole tree, order included, as it was. */
  lemma RedundantRecord(records: seq<Record>, r: Record)
    requires Lookup(Built(records), Segments(r.path)).Some?
    ensures Built(records + [r]) == Built(records)
  {
    assert (records + [r])[..|records|] == records;
    InsertExisting(Built(records), Segments(r.path), r);
  }

  /** Keys keep their positions: one insertion changes a mapping's key
      sequence only by appending the path's first key when it was absent. */
  lemma InsertKeyOrder(level: seq<Entry>, parts: seq<string>, r: Record)
    requires |parts| >= 1
    ensures var after := Insert(level, parts, r);
      Names(after) == Names(level) || Names(after) == Names(level) + [parts[0]]
  {
    var k := Find(Names(level), parts[0]);
    var terminal := |parts| == 1;
    var node := if k < |level| then level[k].node else NewNode(terminal, r);
    var node' := if terminal then node else Descend(node, parts[1..], r);
    var e := Entry(parts[0], node');
    if k < |level| {
      NamesUpdate(level, k, e);
    } else {
      NamesAppend(level, e);
    }
  }

  lemma AddRecordKeyOrder(tree: seq<Entry>, r: Record)
    ensures Names(tree) <= Names(AddRecord(tree, r))
  {
    SegmentsNonEmpty(r.path);
    InsertKeyOrder(tree, Segments(r.path), r);
  }

  /** The top-level keys of the tree appear in the order in which records
      first reach them: the keys built from a prefix of the records are a
      prefix of the final keys. */
  lemma {:induction false} BuiltKeyOrder(records: seq<Record>, i: nat)
    requires i <= |records|
    ensures Names(Built(records[..i])) <= Names(Built(records))
    decreases |records| - i
  {
    if i < |records| {
      BuiltKeyOrder(records, i + 1);
      BuiltStep(records, i);
      AddRecordKeyOrder(Built(records[..i]), records[i]);
    } else {
      assert records[..i] == records;
    }
  }

  /** With no record of type 'folder' carrying bytes (the query emits "File"
      and "Folder"), every 'folder' node of the built tree has zero own bytes. */
  lemma {:induction false} InsertFoldersHaveNoOwnBytes(level: seq<Entry>, parts: seq<string>, r: Record)
    requires |parts| >= 1
    requires FoldersHaveNoOwnBytes(level)
    requires r.kind == FolderKind ==> r.sizes.bytes == 0
    ensures FoldersHaveNoOwnBytes(Insert(level, parts, r))
    decreases |parts|
  {
    var after := Insert(level, parts, r);
    var k := Find(Names(level), parts[0]);
    var terminal := |parts| == 1;
    var node := if k < |level| then level[k].node else NewNode(terminal, r);
    if !terminal {
      InsertFoldersHaveNoOwnBytes(node.children, parts[1..], r);
    }
    var node' := if terminal then node else Descend(node, parts[1..], r);
    var e := Entry(parts[0], node');
    if k < |level| {
      assert after == level[k := e];
    } else {
      assert after == level + [e];
    }
    assert forall i :: 0 <= i < |after| && i != k ==> after[i] == level[i];
  }

  lemma {:induction false} BuiltFoldersHaveNoOwnBytes(records: seq<Record>)
    requires forall i :: 0 <= i < |records| ==>
      records[i].kind == FolderKind ==> records[i].sizes.bytes == 0
    ensures FoldersHaveNoOwnBytes(Built(records))
    decreases |records|
  {
    if |records| > 0 {
      var last := records[|records| - 1];
      BuiltFoldersHaveNoOwnBytes(records[..|records| - 1]);
      InsertFoldersHaveNoOwnBytes(Built(records[..|records| - 1]), Segments(last.path), last);
    }
  }

  /** Records whose sizes come from bytes_to_kb/mb/gb (lines 668-670) give a
      tree whose every node has consistent units (new folders have all zeros). */
  lemma {:induction false} InsertUnitsConsistent(level: seq<Entry>, parts: seq<string>, r: Record)
    requires |parts| >= 1
    requires AllUnitsConsistent(level)
    requires UnitsConsistent(r.sizes)
    ensures AllUnitsConsistent(Insert(level, parts, r))
    decreases |parts|
  {
    var after := Insert(level, parts, r);
    var k := Find(Names(level), parts[0]);
    var terminal := |parts| == 1;
    var node := if k < |level| then level[k].node else NewNode(terminal, r);
    ZeroSizesConsistent();
    if !terminal {
      InsertUnitsConsistent(node.children, parts[1..], r);
    }
    var node' := if terminal then node else Descend(node, parts[1..], r);
    var e := Entry(parts[0], node');
    if k < |level| {
      assert after == level[k := e];
    } else {
      assert after == level + [e];
    }
    assert forall i :: 0 <= i < |after| && i != k ==> after[i] == level[i];
  }

  lemma {:induction false} BuiltUnitsConsistent(records: seq<Record>)
    requires forall i :: 0 <= i < |records| ==> UnitsConsistent(records[i].sizes)
    ensures AllUnitsConsistent(Built(records))
    decreases |records|
  {
    if |records| > 0 {
      var last := records[|records| - 1];
      BuiltUnitsConsistent(records[..|records| - 1]);
      InsertUnitsConsistent(Built(records[..|records| - 1]), Segments(last.path), last);
    }
  }
}
