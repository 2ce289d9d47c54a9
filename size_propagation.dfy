/** propagate_sizes (Reports_Generic.py:320-333): a post-order walk that adds
    to every node of type exactly 'folder' the total bytes of its direct
    children after they were themselves propagated, in all four units, and
    returns the sum of the direct entries' bytes. Nodes of any other type,
    including "Folder", are neither recursed into nor changed. */
module SizePropagation {
  import opened SizeUnits
  import opened DirTree

  /** Sum of the size_bytes of the direct entries of a mapping. */
  function TotalBytes(level: seq<Entry>): (total: int)
    ensures (forall i :: 0 <= i < |level| ==> level[i].node.sizes.bytes >= 0) ==> total >= 0
  {
    if level == [] then 0 else level[0].node.sizes.bytes + TotalBytes(level[1..])
  }

  /** Lines 327-330: the folder gets its propagated children and grows by
      `folderSize` bytes and by its conversions to KB, MB and GB. */
  function Grow(n: Node, children: seq<Entry>, folderSize: int): Node {
    n.(children := children,
       sizes := Sizes(n.sizes.bytes + folderSize,
                      n.sizes.kb + folderSize as real / 1024.0,
                      n.sizes.mb + folderSize as real / 1048576.0,
                      n.sizes.gb + folderSize as real / 1073741824.0))
  }

  /** A node after propagation. */
  function PropagateNode(n: Node): Node {
    if IsFolder(n) then
      var children := PropagateLevel(n.children);
      Grow(n, children, TotalBytes(children))
    else n
  }

  /** A mapping after propagation, in the same order. */
  function PropagateLevel(level: seq<Entry>): (after: seq<Entry>)
    ensures |after| == |level|
  {
    if level == [] then []
    else [Entry(level[0].name, PropagateNode(level[0].node))] + PropagateLevel(level[1..])
  }

  /** The bytes a mapping contributes: each entry's own bytes, plus, for a
      'folder', what its children contribute. Non-folders hide their subtree. */
  function Contribution(level: seq<Entry>): int {
    if level == [] then 0
    else
      var n := level[0].node;
      n.sizes.bytes + (if IsFolder(n) then Contribution(n.children) else 0)
      + Contribution(level[1..])
  }

  /** The bytes of the non-'folder' nodes that are reached through 'folder'
      nodes only. */
  function LeafBytes(level: seq<Entry>): int {
    if level == [] then 0
    else
      var n := level[0].node;
      (if IsFolder(n) then LeafBytes(n.children) else n.sizes.bytes) + LeafBytes(level[1..])
  }

  /** propagate_sizes, with the tree passed in and the updated tree handed back. */
  method PropagateSizes(tree: seq<Entry>) returns (updated: seq<Entry>, total: int)
    ensures updated == PropagateLevel(tree)
    ensures total == TotalBytes(updated)
    ensures total == Contribution(tree)
    decreases tree
  {
    updated := [];
    total := 0;
    var i := 0;
    while i < |tree|
      invariant 0 <= i <= |tree|
      invariant updated == PropagateLevel(tree[..i])
      invariant total == TotalBytes(updated)
    {
      var item := tree[i].node;
      if IsFolder(item) {
        var children, folderSize := PropagateSizes(item.children);
        item := Grow(item, children, folderSize);
      }
      var e := Entry(tree[i].name, item);
      assert tree[..i + 1] == tree[..i] + [tree[i]];
      PropagateLevelAppend(tree[..i], [tree[i]]);
      TotalBytesAppend(updated, [e]);
      updated := updated + [e];
      total := total + item.sizes.bytes;
      i := i + 1;
    }
    assert tree[..i] == tree;
    Conservation(tree);
  }

  // ----- lemmas -----

  lemma {:induction false} TotalBytesAppend(a: seq<Entry>, b: seq<Entry>)
    ensures TotalBytes(a + b) == TotalBytes(a) + TotalBytes(b)
    decreases |a|
  {
    if a != [] {
      assert (a + b)[1..] == a[1..] + b;
      TotalBytesAppend(a[1..], b);
    } else {
      assert a + b == b;
    }
  }

  lemma {:induction false} PropagateLevelAppend(a: seq<Entry>, b: seq<Entry>)
    ensures PropagateLevel(a + b) == PropagateLevel(a) + PropagateLevel(b)
    decreases |a|
  {
    if a != [] {
      assert (a + b)[1..] == a[1..] + b;
      PropagateLevelAppend(a[1..], b);
    } else {
      assert a + b == b;
    }
  }

  /** Folder accumulation, entry by entry: names, order and types are kept; a
      'folder' gets its children propagated and grows by their total in each
      unit; any other node is returned as it was, subtree included. */
  lemma {:induction false} FolderAccumulation(level: seq<Entry>, i: nat)
    requires i < |level|
    ensures |PropagateLevel(level)| == |level|
    ensures var before := level[i].node;
      var after := PropagateLevel(level)[i].node;
      var t := TotalBytes(after.children);
      && PropagateLevel(level)[i].name == level[i].name
      && after.kind == before.kind
      && (IsFolder(before) ==>
            && after.children == PropagateLevel(before.children)
            && after.sizes.bytes == before.sizes.bytes + t
            && after.sizes.kb == before.sizes.kb + BytesToKb(t)
            && after.sizes.mb == before.sizes.mb + BytesToMb(t)
            && after.sizes.gb == before.sizes.gb + BytesToGb(t))
      && (!IsFolder(before) ==> after == before)
    decreases |level|
  {
    if i == 0 {
      FolderAccumulation0(level);
    } else {
      FolderAccumulation(level[1..], i - 1);
      FolderAccumulation0(level);
    }
  }

  lemma FolderAccumulation0(level: seq<Entry>)
    requires |level| > 0
    ensures |PropagateLevel(level)| == |level|
    ensures PropagateLevel(level)[0] == Entry(level[0].name, PropagateNode(level[0].node))
    ensures PropagateLevel(level)[1..] == PropagateLevel(level[1..])
  {
    PropagateLevelLength(level);
  }

  lemma {:induction false} PropagateLevelLength(level: seq<Entry>)
    ensures |PropagateLevel(level)| == |level|
    decreases |level|
  {
    if level != [] {
      PropagateLevelLength(level[1..]);
    }
  }

  /** Size conservation: the value returned is every folder-reachable node's
      own bytes, each counted once. */
  lemma {:induction false} Conservation(level: seq<Entry>)
    ensures TotalBytes(PropagateLevel(level)) == Contribution(level)
    decreases level
  {
    if level != [] {
      var n := level[0].node;
      if IsFolder(n) {
        Conservation(n.children);
      }
      Conservation(level[1..]);
    }
  }

  /** On a freshly built tree, whose 'folder' nodes own no bytes, the total is
      the bytes of the non-'folder' nodes reached through 'folder' nodes. */
  lemma {:induction false} FreshTreeTotal(level: seq<Entry>)
    requires FoldersHaveNoOwnBytes(level)
    ensures TotalBytes(PropagateLevel(level)) == LeafBytes(level)
    decreases level
  {
    Conservation(level);
    ContributionIsLeafBytes(level);
  }

  lemma {:induction false} ContributionIsLeafBytes(level: seq<Entry>)
    requires FoldersHaveNoOwnBytes(level)
    ensures Contribution(level) == LeafBytes(level)
    decreases level
  {
    if level != [] {
      var n := level[0].node;
      assert FoldersHaveNoOwnBytes(level[1..]) by {
        forall i | 0 <= i < |level[1..]|
          ensures (IsFolder(level[1..][i].node) ==> level[1..][i].node.sizes.bytes == 0)
                  && FoldersHaveNoOwnBytes(level[1..][i].node.children)
        {
          assert level[1..][i] == level[i + 1];
        }
      }
      if IsFolder(n) {
        ContributionIsLeafBytes(n.children);
      }
      ContributionIsLeafBytes(level[1..]);
    }
  }

  /** Unit consistency is kept: adding t bytes and t's conversions to a node
      whose units agree leaves them in agreement. */
  lemma {:induction false} PropagateKeepsUnits(level: seq<Entry>)
    requires AllUnitsConsistent(level)
    ensures AllUnitsConsistent(PropagateLevel(level))
    decreases level
  {
    if level != [] {
      var n := level[0].node;
      assert AllUnitsConsistent(level[1..]) by {
        forall i | 0 <= i < |level[1..]|
          ensures UnitsConsistent(level[1..][i].node.sizes) && AllUnitsConsistent(level[1..][i].node.children)
        {
          assert level[1..][i] == level[i + 1];
        }
      }
      PropagateKeepsUnits(level[1..]);
      if IsFolder(n) {
        PropagateKeepsUnits(n.children);
        var t := TotalBytes(PropagateLevel(n.children));
        ConversionsAdditive(n.sizes.bytes, t);
      }
      var r := PropagateLevel(level);
      assert r == [Entry(level[0].name, PropagateNode(n))] + PropagateLevel(level[1..]);
      assert forall i :: 1 <= i < |r| ==> r[i] == PropagateLevel(level[1..])[i - 1];
    }
  }

  /** Only sizes change: every mapping keeps its keys, so unique keys stay unique. */
  lemma {:induction false} PropagateKeepsNames(level: seq<Entry>)
    ensures Names(PropagateLevel(level)) == Names(level)
    decreases |level|
  {
    if level != [] {
      PropagateKeepsNames(level[1..]);
    }
  }

  lemma {:induction false} PropagateKeepsWellFormed(level: seq<Entry>)
    requires WellFormed(level)
    ensures WellFormed(PropagateLevel(level))
    decreases level
  {
    var r := PropagateLevel(level);
    PropagateKeepsNames(level);
    assert forall i :: 0 <= i < |level| ==> r[i].name == Names(r)[i] == Names(level)[i];
    forall i | 0 <= i < |r| ensures WellFormed(r[i].node.children) {
      FolderAccumulation(level, i);
      if IsFolder(level[i].node) {
        PropagateKeepsWellFormed(level[i].node.children);
      }
    }
  }

  /** A mapping without 'folder' entries is left exactly as it was. */
  lemma {:induction false} NoFoldersUnchanged(level: seq<Entry>)
    requires forall i :: 0 <= i < |level| ==> !IsFolder(level[i].node)
    ensures PropagateLevel(level) == level
    decreases |level|
  {
    if level != [] {
      NoFoldersUnchanged(level[1..]);
    }
  }

  /** Propagation is not idempotent: a second call adds the children's total
      once more, so the pipeline must call it exactly once. */
  lemma SecondPropagationDoubleCounts(level: seq<Entry>, i: nat)
    requires i < |level| && IsFolder(level[i].node)
    requires forall j :: 0 <= j < |level[i].node.children| ==> !IsFolder(level[i].node.children[j].node)
    ensures var twice := PropagateLevel(PropagateLevel(level));
      |twice| == |level|
      && twice[i].node.sizes.bytes
         == level[i].node.sizes.bytes + 2 * TotalBytes(level[i].node.children)
  {
    var cs := level[i].node.children;
    var once := PropagateLevel(level);
    FolderAccumulation(level, i);
    NoFoldersUnchanged(cs);
    assert once[i].node.children == cs;
    FolderAccumulation(once, i);
    PropagateLevelLength(once);
  }
}
