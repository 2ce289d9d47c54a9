/** The directory-tree part of generate_html_dirtree (Reports_Generic.py:471-473):
    build the tree once, propagate sizes once, render once. */
module DirTreeReport {
  import opened SizeUnits
  import opened DirTree
  import opened PathSegments
  import opened TreeBuilder
  import opened SizePropagation
  import opened HtmlTree

  /** The KB, MB and GB lists are bytes_to_kb/mb/gb of the byte list (lines 668-670). */
  predicate ConvertedLists(sizesBytes: seq<int>, sizesKb: seq<real>, sizesMb: seq<real>, sizesGb: seq<real>) {
    && |sizesKb| == |sizesBytes| && |sizesMb| == |sizesBytes| && |sizesGb| == |sizesBytes|
    && forall i :: 0 <= i < |sizesBytes| ==>
         sizesKb[i] == BytesToKb(sizesBytes[i]) && sizesMb[i] == BytesToMb(sizesBytes[i])
         && sizesGb[i] == BytesToGb(sizesBytes[i])
  }

  /** Build, then propagate exactly once, then render, as lines 471-473 do. */
  method GenerateDirTree(paths: seq<string>, types: seq<string>, sizesBytes: seq<int>,
                         sizesKb: seq<real>, sizesMb: seq<real>, sizesGb: seq<real>)
    returns (items: seq<Item>)
    ensures items == BuildHtmlTree(PropagateLevel(Built(Zip(paths, types, sizesBytes, sizesKb, sizesMb, sizesGb))), "")
    ensures ConvertedLists(sizesBytes, sizesKb, sizesMb, sizesGb) ==> ItemsConsistent(items)
  {
    var tree := BuildTreeDict(paths, types, sizesBytes, sizesKb, sizesMb, sizesGb);
    var propagated, _ := PropagateSizes(tree);
    items := BuildHtmlTree(propagated, "");
    if ConvertedLists(sizesBytes, sizesKb, sizesMb, sizesGb) {
      ghost var records := Zip(paths, types, sizesBytes, sizesKb, sizesMb, sizesGb);
      BuiltUnitsConsistent(records);
      PropagateKeepsUnits(tree);
      RenderKeepsUnits(propagated, "");
    }
  }

  /** On the rows the query produces (types "File" and "Folder", never the
      lowercase "folder"), the total that propagation returns for the whole
      tree is the bytes of the non-'folder' nodes reached through 'folder'
      nodes: each such byte is counted once. */
  lemma PipelineTotal(records: seq<Record>)
    requires forall i :: 0 <= i < |records| ==> records[i].kind != FolderKind
    ensures TotalBytes(PropagateLevel(Built(records))) == LeafBytes(Built(records))
  {
    BuiltFoldersHaveNoOwnBytes(records);
    FreshTreeTotal(Built(records));
  }

  /** The pipeline keeps unique keys at every level after propagation. */
  lemma PipelineWellFormed(records: seq<Record>)
    ensures WellFormed(PropagateLevel(Built(records)))
  {
    BuiltWellFormed(records);
    PropagateKeepsWellFormed(Built(records));
  }

  // ----- worked examples -----

  // One-step facts about Insert, used to compute the worked examples.

  lemma InsertPresentTerminal(level: seq<Entry>, name: string, r: Record)
    requires Find(Names(level), name) < |level|
    ensures Insert(level, [name], r) == level
  {
    var k := Find(Names(level), name);
    assert level[k].name == name;
    assert level[k := Entry(name, level[k].node)] == level;
  }

  lemma InsertAbsentTerminal(level: seq<Entry>, name: string, r: Record)
    requires Find(Names(level), name) == |level|
    ensures Insert(level, [name], r) == level + [Entry(name, Node(r.kind, [], r.sizes))]
  {
  }

  lemma InsertAbsentInner(level: seq<Entry>, parts: seq<string>, r: Record)
    requires |parts| > 1 && Find(Names(level), parts[0]) == |level|
    ensures Insert(level, parts, r) == level + [Entry(parts[0], Descend(NewNode(false, r), parts[1..], r))]
  {
  }

  lemma DescendNew(parts: seq<string>, r: Record)
    requires |parts| >= 1
    ensures Descend(NewNode(false, r), parts, r) == Node(FolderKind, Insert([], parts, r), ZeroSizes)
  {
  }

  lemma InsertPresentInner(level: seq<Entry>, parts: seq<string>, r: Record)
    requires |parts| > 1 && Find(Names(level), parts[0]) < |level|
    ensures var k := Find(Names(level), parts[0]);
      Insert(level, parts, r) == level[k := Entry(parts[0], Descend(level[k].node, parts[1..], r))]
  {
  }

  /** A new 'folder' created on the way to a one-key path holds just the new terminal node. */
  lemma DescendNewOne(b: string, r: Record)
    ensures Descend(NewNode(false, r), [b], r) == Node(FolderKind, [Entry(b, Node(r.kind, [], r.sizes))], ZeroSizes)
  {
    var empty: seq<Entry> := [];
    DescendNew([b], r);
    assert Find(Names(empty), b) == 0;
    InsertAbsentTerminal(empty, b, r);
  }

  /** A two-segment path whose first key is absent: a new 'folder' holding
      the new terminal node is appended to the mapping. */
  lemma InsertTwoAbsent(level: seq<Entry>, a: string, b: string, r: Record)
    requires Find(Names(level), a) == |level|
    ensures Insert(level, [a, b], r) == level + [Entry(a, Node(FolderKind, [Entry(b, Node(r.kind, [], r.sizes))], ZeroSizes))]
  {
    InsertAbsentPair(level, a, b, r);
    DescendNewOne(b, r);
  }

  lemma InsertAbsentPair(level: seq<Entry>, a: string, b: string, r: Record)
    requires Find(Names(level), a) == |level|
    ensures Insert(level, [a, b], r) == level + [Entry(a, Descend(NewNode(false, r), [b], r))]
  {
    InsertAbsentInner(level, [a, b], r);
    assert [a, b][1..] == [b];
  }

  lemma InsertTwoIntoEmpty(a: string, b: string, r: Record)
    ensures Insert([], [a, b], r) == [Entry(a, Node(FolderKind, [Entry(b, Node(r.kind, [], r.sizes))], ZeroSizes))]
  {
    var empty: seq<Entry> := [];
    assert Find(Names(empty), a) == 0;
    InsertTwoAbsent(empty, a, b, r);
  }

  lemma BuiltOne(r0: Record)
    ensures Built([r0]) == AddRecord([], r0)
  {
    assert [r0][..0] == [];
  }

  lemma BuiltTwo(r0: Record, r1: Record)
    ensures Built([r0, r1]) == AddRecord(Built([r0]), r1)
  {
    assert [r0, r1][..1] == [r0];
  }

  lemma BuiltThree(r0: Record, r1: Record, r2: Record)
    ensures Built([r0, r1, r2]) == AddRecord(Built([r0, r1]), r2)
  {
    assert [r0, r1, r2][..2] == [r0, r1];
  }

  // The worked examples take the sizes as parameters, so that the verifier
  // computes the trees step by step instead of evaluating them outright.

  /** An explicit "Folder" row for D, then a file inside D. */
  lemma FolderRowTree(own: Sizes, inner: Sizes)
    ensures Built([Record("D", "Folder", own), Record("D\\a.txt", "File", inner)])
            == [Entry("D", Node("Folder", [Entry("a.txt", Node("File", [], inner))], own))]
  {
    var r0 := Record("D", "Folder", own);
    var r1 := Record("D\\a.txt", "File", inner);
    PlainPathSegments(["D", "a.txt"], "D\\a.txt");
    BuiltTwo(r0, r1);
    FolderRowAlone(own);
    FileUnderFolderRow(own, r1);
  }

  lemma FolderRowAlone(own: Sizes)
    ensures Built([Record("D", "Folder", own)]) == [Entry("D", Node("Folder", [], own))]
  {
    var r0 := Record("D", "Folder", own);
    var empty: seq<Entry> := [];
    PlainPathSegments(["D"], "D");
    BuiltOne(r0);
    assert Find(Names(empty), "D") == 0;
    InsertAbsentTerminal(empty, "D", r0);
  }

  lemma FileUnderFolderRow(own: Sizes, r1: Record)
    ensures Insert([Entry("D", Node("Folder", [], own))], ["D", "a.txt"], r1)
            == [Entry("D", Node("Folder", [Entry("a.txt", Node(r1.kind, [], r1.sizes))], own))]
  {
    var t0 := [Entry("D", Node("Folder", [], own))];
    var empty: seq<Entry> := [];
    PresentPair(t0, "D", "a.txt", r1);
    assert Find(Names(empty), "a.txt") == 0;
    InsertAbsentTerminal(empty, "a.txt", r1);
    assert Insert(empty, ["a.txt"], r1) == [Entry("a.txt", Node(r1.kind, [], r1.sizes))];
    assert Descend(t0[0].node, ["a.txt"], r1) == Node("Folder", Insert(empty, ["a.txt"], r1), own);
    var e := Entry("D", Descend(t0[0].node, ["a.txt"], r1));
    assert t0[0 := e] == [e];
  }

  /** The first key of a two-key path is present at position 0. */
  lemma PresentPair(level: seq<Entry>, a: string, b: string, r: Record)
    requires |level| > 0 && level[0].name == a
    ensures Insert(level, [a, b], r) == level[0 := Entry(a, Descend(level[0].node, [b], r))]
  {
    assert Find(Names(level), a) == 0;
    InsertPresentInner(level, [a, b], r);
    assert [a, b][1..] == [b];
  }

  /** A node created by a "Folder" row is not a 'folder': propagation keeps
      its own bytes instead of adding the bytes beneath it, and the renderer
      shows it as one file item and never visits a.txt. */
  lemma ExplicitFolderRowActsAsFile(own: Sizes, inner: Sizes)
    ensures var out := PropagateLevel(Built([Record("D", "Folder", own), Record("D\\a.txt", "File", inner)]));
      && |out| == 1 && out[0].node.sizes == own
      && BuildHtmlTree(out, "") == [FileItem("D", own)]
  {
    FolderRowTree(own, inner);
    var t := [Entry("D", Node("Folder", [Entry("a.txt", Node("File", [], inner))], own))];
    NoFoldersUnchanged(t);
  }

  /** The tree of the rows X\f1.txt, X\Y\f2.txt and then a "Folder" row for X. */
  function ExampleTree(s1: Sizes, s2: Sizes): seq<Entry> {
    [Entry("X", Node(FolderKind, [Entry("f1.txt", Node("File", [], s1)),
                                  Entry("Y", Node(FolderKind, [Entry("f2.txt", Node("File", [], s2))], ZeroSizes))],
                     ZeroSizes))]
  }

  lemma ExampleFirstRow(s1: Sizes)
    ensures Built([Record("X\\f1.txt", "File", s1)])
            == [Entry("X", Node(FolderKind, [Entry("f1.txt", Node("File", [], s1))], ZeroSizes))]
  {
    var r0 := Record("X\\f1.txt", "File", s1);
    PlainPathSegments(["X", "f1.txt"], "X\\f1.txt");
    BuiltOne(r0);
    InsertTwoIntoEmpty("X", "f1.txt", r0);
  }

  lemma ExampleSecondStep(s1: Sizes, r1: Record)
    requires r1.kind == "File"
    ensures Insert([Entry("X", Node(FolderKind, [Entry("f1.txt", Node("File", [], s1))], ZeroSizes))],
                   ["X", "Y", "f2.txt"], r1)
            == ExampleTree(s1, r1.sizes)
  {
    var f1 := Entry("f1.txt", Node("File", [], s1));
    var t0 := [Entry("X", Node(FolderKind, [f1], ZeroSizes))];
    ExamplePresentTriple(t0, r1);
    assert Find(Names([f1]), "Y") == 1;
    InsertTwoAbsent([f1], "Y", "f2.txt", r1);
    var y := Entry("Y", Node(FolderKind, [Entry("f2.txt", Node(r1.kind, [], r1.sizes))], ZeroSizes));
    assert Insert([f1], ["Y", "f2.txt"], r1) == [f1, y];
    assert Descend(t0[0].node, ["Y", "f2.txt"], r1) == Node(FolderKind, Insert([f1], ["Y", "f2.txt"], r1), ZeroSizes);
    var e := Entry("X", Descend(t0[0].node, ["Y", "f2.txt"], r1));
    assert t0[0 := e] == [e];
  }

  lemma ExamplePresentTriple(t0: seq<Entry>, r1: Record)
    requires |t0| > 0 && t0[0].name == "X"
    ensures Insert(t0, ["X", "Y", "f2.txt"], r1) == t0[0 := Entry("X", Descend(t0[0].node, ["Y", "f2.txt"], r1))]
  {
    assert Find(Names(t0), "X") == 0;
    InsertPresentInner(t0, ["X", "Y", "f2.txt"], r1);
    assert ["X", "Y", "f2.txt"][1..] == ["Y", "f2.txt"];
  }

  lemma ExampleSecondRow(s1: Sizes, s2: Sizes)
    ensures Built([Record("X\\f1.txt", "File", s1), Record("X\\Y\\f2.txt", "File", s2)]) == ExampleTree(s1, s2)
  {
    var r0 := Record("X\\f1.txt", "File", s1);
    var r1 := Record("X\\Y\\f2.txt", "File", s2);
    PlainPathSegments(["X", "Y", "f2.txt"], "X\\Y\\f2.txt");
    BuiltTwo(r0, r1);
    ExampleFirstRow(s1);
    ExampleSecondStep(s1, r1);
  }

  lemma ExampleThirdRow(s1: Sizes, s2: Sizes, s3: Sizes)
    ensures Built([Record("X\\f1.txt", "File", s1), Record("X\\Y\\f2.txt", "File", s2), Record("X", "Folder", s3)])
            == ExampleTree(s1, s2)
  {
    var r0 := Record("X\\f1.txt", "File", s1);
    var r1 := Record("X\\Y\\f2.txt", "File", s2);
    var r2 := Record("X", "Folder", s3);
    ExampleSecondRow(s1, s2);
    PlainPathSegments(["X"], "X");
    BuiltThree(r0, r1, r2);
    assert Find(Names(ExampleTree(s1, s2)), "X") == 0;
    InsertPresentTerminal(ExampleTree(s1, s2), "X", r2);
  }

  /** Propagation over the example tree: Y receives f2's bytes and X
      receives f1's bytes plus Y's new total. */
  lemma PropagateExampleTree(s1: Sizes, s2: Sizes)
    ensures var out := PropagateLevel(ExampleTree(s1, s2));
      && |out| == 1 && out[0].name == "X" && IsFolder(out[0].node)
      && out[0].node.sizes.bytes == s1.bytes + s2.bytes
      && Names(out[0].node.children) == ["f1.txt", "Y"]
      && out[0].node.children[0].node.sizes.bytes == s1.bytes
      && out[0].node.children[1].node.sizes.bytes == s2.bytes
  {
    var f1 := Entry("f1.txt", Node("File", [], s1));
    var f2 := Entry("f2.txt", Node("File", [], s2));
    var y := Entry("Y", Node(FolderKind, [f2], ZeroSizes));
    NoFoldersUnchanged([f2]);
    NoFoldersUnchanged([f1]);
    assert [f1, y] == [f1] + [y];
    PropagateLevelAppend([f1], [y]);
    assert TotalBytes([f2]) == s2.bytes;
    var ys := PropagateLevel([y]);
    assert ys[0].node == PropagateNode(y.node);
    assert ys[0].node.sizes.bytes == s2.bytes;
    var xs := PropagateLevel([f1, y]);
    assert xs == [f1] + ys;
    assert TotalBytes(xs) == s1.bytes + s2.bytes;
  }

  /** X\f1.txt of 500 bytes, X\Y\f2.txt of 1500 bytes, then a "Folder" row
      for X: the synthetic folder X, created by the first row, totals 2000
      bytes and Y totals 1500; the later "Folder" row for X changes nothing. */
  lemma EndToEndExample(s1: Sizes, s2: Sizes, s3: Sizes)
    requires s1.bytes == 500 && s2.bytes == 1500
    ensures var out := PropagateLevel(Built([Record("X\\f1.txt", "File", s1),
                                             Record("X\\Y\\f2.txt", "File", s2),
                                             Record("X", "Folder", s3)]));
      && |out| == 1 && out[0].name == "X" && IsFolder(out[0].node)
      && out[0].node.sizes.bytes == 2000
      && Names(out[0].node.children) == ["f1.txt", "Y"]
      && out[0].node.children[0].node.sizes.bytes == 500
      && out[0].node.children[1].node.sizes.bytes == 1500
  {
    ExampleThirdRow(s1, s2, s3);
    PropagateExampleTree(s1, s2);
  }
}
