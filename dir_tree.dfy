/** The nested-dictionary tree that build_tree_dict produces
    (Reports_Generic.py:273-280). Every node is a dictionary with a 'type', a
    'children' mapping and four sizes; a child mapping is modelled as an
    insertion-ordered sequence of (name, node) entries. */
module DirTree {
  import opened SizeUnits

  datatype Option<T> = None | Some(value: T)

  /** The only type string that the propagator and the renderer treat as a folder.
      The query labels its rows "File" and "Folder", capitalised. */
  const FolderKind: string := "folder"

  /** size_bytes, size_kb, size_mb and size_gb of one node. */
  datatype Sizes = Sizes(bytes: int, kb: real, mb: real, gb: real)

  const ZeroSizes: Sizes := Sizes(0, 0.0, 0.0, 0.0)

  datatype Node = Node(kind: string, children: seq<Entry>, sizes: Sizes)

  datatype Entry = Entry(name: string, node: Node)

  predicate IsFolder(n: Node) {
    n.kind == FolderKind
  }

  /** The KB, MB and GB fields are the conversions of the byte count. */
  predicate UnitsConsistent(s: Sizes) {
    s.kb == BytesToKb(s.bytes) && s.mb == BytesToMb(s.bytes) && s.gb == BytesToGb(s.bytes)
  }

  lemma ZeroSizesConsistent()
    ensures UnitsConsistent(ZeroSizes)
  {
  }

  function Names(level: seq<Entry>): (names: seq<string>)
    ensures |names| == |level|
    ensures forall i :: 0 <= i < |level| ==> names[i] == level[i].name
  {
    if level == [] then [] else [level[0].name] + Names(level[1..])
  }

  /** Position of `name` in a child mapping, or |names| when the key is absent
      (the test `part not in current`). */
  function Find(names: seq<string>, name: string): (k: nat)
    ensures k <= |names|
    ensures k < |names| ==> names[k] == name
    ensures forall i :: 0 <= i < k ==> names[i] != name
  {
    if names == [] then 0
    else if names[0] == name then 0
    else 1 + Find(names[1..], name)
  }

  predicate UniqueNames(level: seq<Entry>) {
    forall i, j :: 0 <= i < j < |level| ==> level[i].name != level[j].name
  }

  /** Keys are unique in every child mapping of the tree. */
  predicate WellFormed(level: seq<Entry>) {
    && UniqueNames(level)
    && forall i :: 0 <= i < |level| ==> WellFormed(level[i].node.children)
  }

  /** The node reached from a mapping by following a path of keys. */
  function Lookup(level: seq<Entry>, path: seq<string>): Option<Node>
    decreases |path|
  {
    if |path| == 0 then None
    else
      var k := Find(Names(level), path[0]);
      if k == |level| then None
      else if |path| == 1 then Some(level[k].node)
      else Lookup(level[k].node.children, path[1..])
  }

  /** What build_tree_dict decides once for a node and never changes: its type and its sizes. */
  function Attrs(n: Node): (string, Sizes) {
    (n.kind, n.sizes)
  }

  /** Every node of the tree, at any depth, has consistent units. */
  predicate AllUnitsConsistent(level: seq<Entry>) {
    forall i :: 0 <= i < |level| ==>
      UnitsConsistent(level[i].node.sizes) && AllUnitsConsistent(level[i].node.children)
  }

  /** Every node of type 'folder', at any depth, has no bytes of its own. */
  predicate FoldersHaveNoOwnBytes(level: seq<Entry>) {
    forall i :: 0 <= i < |level| ==>
      (IsFolder(level[i].node) ==> level[i].node.sizes.bytes == 0)
      && FoldersHaveNoOwnBytes(level[i].node.children)
  }
}
