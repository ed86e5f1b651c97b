/**
 * `prune_directories`: one pass over the descendants of the root that collects every directory
 * without children, followed by the removal of each collected node. Only directories that are
 * empty when the pass starts are removed; a directory that becomes empty because its only
 * children were removed stays.
 */
module Prune {
  import opened Wrappers
  import opened Nodes
  import opened IndexTree

  /** A directory node with no children. */
  predicate IsEmptyDir(a: Arena, x: Id)
    requires x < |a.slots|
  {
    a.slots[x].data.IsDir() && a.slots[x].children == []
  }

  /** The nodes the first loop of `prune_directories` collects. */
  ghost function EmptyDirs(a: Arena, root: Id): set<Id>
    requires Linked(a) && root < |a.slots|
  {
    set x | x in Descendants(a, root) && IsEmptyDir(a, x)
  }

  /**
   * The arena once every node of `gone` has been removed: those nodes are marked removed and
   * detached, and they are dropped from every child list, which otherwise keeps its order.
   */
  function Pruned(a: Arena, gone: set<Id>): Arena {
    Arena(seq(|a.slots|, i requires 0 <= i < |a.slots| =>
      var s := a.slots[i];
      if i in gone then s.(parent := None, children := Without(s.children, gone), removed := true)
      else s.(children := Without(s.children, gone))))
  }

  /** The ids in `gone` are childless nodes of `a`. */
  ghost predicate Childless(a: Arena, gone: set<Id>) {
    forall x :: x in gone ==> x < |a.slots| && a.slots[x].children == []
  }

  /**
   * `Tree::prune_directories`: the ids of the empty directories among the descendants of
   * `root` are collected first, then each is removed with `remove_subtree`. The outcome is the
   * arena without exactly those nodes, and its links stay consistent.
   */
  method PruneDirectories(root: Id, tree: Arena) returns (a: Arena)
    requires Linked(tree) && root < |tree.slots|
    ensures a == Pruned(tree, EmptyDirs(tree, root))
    ensures Linked(a)
  {
    var toPrune := CollectEmptyDirs(root, tree);
    a := RemoveEach(tree, toPrune, EmptyDirs(tree, root));
  }

  /**
   * `remove_subtree` on each collected id in turn; `gone` is the set of the collected ids, and
   * each of them is childless in the tree as it was before.
   */
  method RemoveEach(tree: Arena, toPrune: seq<Id>, ghost gone: set<Id>) returns (a: Arena)
    requires Linked(tree)
    requires forall k :: 0 <= k < |toPrune| ==> toPrune[k] < |tree.slots| && tree.slots[toPrune[k]].children == []
    requires forall x :: x in gone <==> x in toPrune
    ensures a == Pruned(tree, gone)
    ensures Linked(a)
  {
    a := tree;
    ghost var removed: set<Id> := {};
    PrunedNothing(tree);
    for j := 0 to |toPrune|
      invariant Childless(tree, removed) && a == Pruned(tree, removed)
      invariant forall x :: x in removed <==> x in toPrune[..j]
    {
      var nodeId := toPrune[j];
      assert toPrune[..j + 1] == toPrune[..j] + [nodeId];
      RemoveEmptyStep(tree, removed, nodeId);
      a := RemoveSubtree(a, nodeId);
      removed := removed + {nodeId};
    }
    assert toPrune[..|toPrune|] == toPrune;
    assert removed == gone;
    PrunedLinked(tree, gone);
  }

  /** The first loop of `prune_directories`: the empty directories among the descendants, in pre-order. */
  method CollectEmptyDirs(root: Id, tree: Arena) returns (toPrune: seq<Id>)
    requires Linked(tree) && root < |tree.slots|
    ensures forall k :: 0 <= k < |toPrune| ==> toPrune[k] < |tree.slots| && IsEmptyDir(tree, toPrune[k])
    ensures forall x :: x in toPrune <==> x in EmptyDirs(tree, root)
  {
    var descendants := Descendants(tree, root);
    toPrune := [];
    for i := 0 to |descendants|
      invariant forall k :: 0 <= k < |toPrune| ==> toPrune[k] < |tree.slots| && IsEmptyDir(tree, toPrune[k])
      invariant forall x :: x in toPrune <==> x in descendants[..i] && x < |tree.slots| && IsEmptyDir(tree, x)
    {
      var nodeId := descendants[i];
      assert descendants[..i + 1] == descendants[..i] + [nodeId];
      if tree.slots[nodeId].data.IsDir() {
        if tree.slots[nodeId].children == [] {
          toPrune := toPrune + [nodeId];
        }
      }
    }
    assert descendants[..|descendants|] == descendants;
  }

  // ---------------------------------------------------------------------------------------
  // What the pass keeps and removes.

  /** Exactly the empty directories among the root and its descendants are marked removed; nothing else changes state. */
  lemma PrunedRemovesExactly(tree: Arena, root: Id, x: Id)
    requires Linked(tree) && root < |tree.slots| && x < |tree.slots|
    ensures var p := Pruned(tree, EmptyDirs(tree, root));
      && |p.slots| == |tree.slots|
      && (p.slots[x].removed <==> tree.slots[x].removed || (x in Descendants(tree, root) && IsEmptyDir(tree, x)))
      && p.slots[x].data == tree.slots[x].data
  {
  }

  /**
   * A node that is not removed keeps its parent, and its children are its previous children
   * that were not removed, in their previous order.
   */
  lemma PrunedKeeps(tree: Arena, gone: set<Id>, x: Id)
    requires x < |tree.slots| && x !in gone
    ensures var p := Pruned(tree, gone);
      && p.slots[x].parent == tree.slots[x].parent
      && p.slots[x].children == Without(tree.slots[x].children, gone)
      && p.slots[x].removed == tree.slots[x].removed
  {
  }

  /** Files, symlinks and directories with children are never removed by the pass. */
  lemma PruneKeepsNonEmpty(tree: Arena, root: Id, x: Id)
    requires Linked(tree) && root < |tree.slots| && x < |tree.slots|
    requires !tree.slots[x].data.IsDir() || tree.slots[x].children != []
    ensures var p := Pruned(tree, EmptyDirs(tree, root));
      p.slots[x].removed == tree.slots[x].removed && p.slots[x].parent == tree.slots[x].parent
  {
    assert x !in EmptyDirs(tree, root);
  }

  /** Removing childless nodes keeps the parent and child links consistent. */
  lemma PrunedLinked(tree: Arena, gone: set<Id>)
    requires Linked(tree) && Childless(tree, gone)
    ensures Linked(Pruned(tree, gone))
  {
    var p := Pruned(tree, gone);
    forall x, k | 0 <= x < |p.slots| && 0 <= k < |p.slots[x].children|
      ensures ChildLink(p, x, p.slots[x].children[k])
    {
      var c := p.slots[x].children[k];
      assert c in tree.slots[x].children;
      var k' :| 0 <= k' < |tree.slots[x].children| && tree.slots[x].children[k'] == c;
      assert ChildLink(tree, x, tree.slots[x].children[k']);
    }
    forall x | 0 <= x < |p.slots| && p.slots[x].parent.Some?
      ensures ParentLink(p, x)
    {
      assert ParentLink(tree, x);
      var q := tree.slots[x].parent.value;
      assert x in Without(tree.slots[q].children, gone);
    }
    forall x | 0 <= x < |p.slots|
      ensures Utils.NoDuplicates(p.slots[x].children)
    {
      WithoutNoDuplicates(tree.slots[x].children, gone);
    }
  }

  // ---------------------------------------------------------------------------------------
  // One `remove_subtree` of the second loop.

  lemma {:induction false} WithoutNothing(s: seq<Id>)
    ensures Without(s, {}) == s
  {
    if s != [] {
      WithoutNothing(s[1..]);
    }
  }

  lemma PrunedNothing(tree: Arena)
    ensures Pruned(tree, {}) == tree
  {
    forall x | 0 <= x < |tree.slots|
      ensures Pruned(tree, {}).slots[x] == tree.slots[x]
    {
      WithoutNothing(tree.slots[x].children);
    }
  }

  lemma {:induction false} WithoutTwice(s: seq<Id>, g: set<Id>, h: set<Id>)
    ensures Without(Without(s, g), h) == Without(s, g + h)
  {
    if s != [] {
      WithoutTwice(s[1..], g, h);
    }
  }

  lemma {:induction false} WithoutAbsent(s: seq<Id>, g: set<Id>, x: Id)
    requires x !in s
    ensures Without(s, g + {x}) == Without(s, g)
  {
    if s != [] {
      WithoutAbsent(s[1..], g, x);
    }
  }

  /** `remove_subtree` of a childless node detaches it and marks only it removed. */
  lemma RemoveLeaf(a: Arena, x: Id)
    requires Linked(a) && x < |a.slots| && a.slots[x].children == []
    ensures var d := Detach(a, x);
      RemoveSubtree(a, x) == Arena(d.slots[x := d.slots[x].(removed := true)])
  {
    assert Descendants(a, x) == [x];
  }

  /** `x` is listed by no node other than its parent. */
  lemma ListedOnlyByParent(tree: Arena, x: Id, y: Id)
    requires Linked(tree) && x < |tree.slots| && y < |tree.slots| && tree.slots[x].parent != Some(y)
    ensures x !in tree.slots[y].children
  {
    forall k | 0 <= k < |tree.slots[y].children|
      ensures tree.slots[y].children[k] != x
    {
      assert ChildLink(tree, y, tree.slots[y].children[k]);
    }
  }

  /** `remove_subtree` on a childless node of the pruned arena removes just that node. */
  lemma RemoveEmptyStep(tree: Arena, gone: set<Id>, x: Id)
    requires Linked(tree) && Childless(tree, gone)
    requires x < |tree.slots| && tree.slots[x].children == []
    ensures Linked(Pruned(tree, gone))
    ensures RemoveSubtree(Pruned(tree, gone), x) == Pruned(tree, gone + {x})
  {
    PrunedLinked(tree, gone);
    var a := Pruned(tree, gone);
    RemoveLeaf(a, x);
    var d := Detach(a, x);
    var r := Arena(d.slots[x := d.slots[x].(removed := true)]);
    var b := Pruned(tree, gone + {x});
    forall y | 0 <= y < |tree.slots|
      ensures r.slots[y] == b.slots[y]
    {
      RemoveEmptySlot(tree, gone, x, y);
    }
  }

  /** Slot by slot: removing the childless `x` after `gone` is removing `gone + {x}`. */
  lemma RemoveEmptySlot(tree: Arena, gone: set<Id>, x: Id, y: Id)
    requires Linked(tree) && Childless(tree, gone) && Linked(Pruned(tree, gone))
    requires x < |tree.slots| && tree.slots[x].children == [] && y < |tree.slots|
    ensures var d := Detach(Pruned(tree, gone), x);
      d.slots[x := d.slots[x].(removed := true)][y] == Pruned(tree, gone + {x}).slots[y]
  {
    if y == x {
    } else if x in gone {
      assert gone + {x} == gone;
    } else if tree.slots[x].parent == Some(y) {
      RemoveEmptyParentSlot(tree, gone, x, y);
    } else {
      RemoveEmptyOtherSlot(tree, gone, x, y);
    }
  }

  /** The parent of `x` loses `x` from its children. */
  lemma RemoveEmptyParentSlot(tree: Arena, gone: set<Id>, x: Id, y: Id)
    requires Linked(tree) && Childless(tree, gone) && Linked(Pruned(tree, gone))
    requires x < |tree.slots| && tree.slots[x].children == [] && y < |tree.slots|
    requires x != y && x !in gone && tree.slots[x].parent == Some(y)
    ensures var d := Detach(Pruned(tree, gone), x);
      d.slots[x := d.slots[x].(removed := true)][y] == Pruned(tree, gone + {x}).slots[y]
  {
    assert ParentLink(tree, x);
    assert y !in gone;
    WithoutTwice(tree.slots[y].children, gone, {x});
  }

  /** Any other slot does not list `x` and is left as it is. */
  lemma RemoveEmptyOtherSlot(tree: Arena, gone: set<Id>, x: Id, y: Id)
    requires Linked(tree) && Childless(tree, gone) && Linked(Pruned(tree, gone))
    requires x < |tree.slots| && tree.slots[x].children == [] && y < |tree.slots|
    requires x != y && x !in gone && tree.slots[x].parent != Some(y)
    ensures var d := Detach(Pruned(tree, gone), x);
      d.slots[x := d.slots[x].(removed := true)][y] == Pruned(tree, gone + {x}).slots[y]
  {
    ListedOnlyByParent(tree, x, y);
    WithoutAbsent(tree.slots[y].children, gone, x);
    assert Detach(Pruned(tree, gone), x).slots[y] == Pruned(tree, gone).slots[y];
  }

  /** The prune pass removes a directory it starts from exactly when that directory has no children. */
  lemma PrunedRoot(a: Arena, root: Id)
    requires Linked(a) && root < |a.slots| && a.slots[root].data.IsDir()
    ensures Pruned(a, EmptyDirs(a, root)).slots[root].removed <==> a.slots[root].removed || a.slots[root].children == []
  {
    assert root in Descendants(a, root);
  }

  // ---------------------------------------------------------------------------------------
  // A single pass is not a fixpoint.

  function DirNode(path: Path, depth: Usize): Node {
    Node(path, depth, Dir, None, None)
  }

  /** A root directory holding `d1`, which holds the empty directory `d2`. */
  function Nested(): Arena {
    Arena([
      Slot(DirNode(["r"], 0), None, [1], false),
      Slot(DirNode(["r", "d1"], 1), Some(0), [2], false),
      Slot(DirNode(["r", "d1", "d2"], 2), Some(1), [], false)])
  }

  /** `Nested()` after its pass: `d2` is removed and `d1` is left without children. */
  function NestedPruned(): Arena {
    Arena([
      Slot(DirNode(["r"], 0), None, [1], false),
      Slot(DirNode(["r", "d1"], 1), Some(0), [], false),
      Slot(DirNode(["r", "d1", "d2"], 2), None, [], true)])
  }

  lemma NestedLinks()
    ensures Linked(Nested()) && Linked(NestedPruned())
  {
    NestedLinked();
    NestedPrunedLinked();
  }

  lemma NestedLinked()
    ensures Linked(Nested())
  {
    assert ["r", "d1"][..1] == ["r"] && ["r", "d1", "d2"][..2] == ["r", "d1"];
    assert ChildLink(Nested(), 0, 1) && ChildLink(Nested(), 1, 2);
  }

  lemma NestedPrunedLinked()
    ensures Linked(NestedPruned())
  {
    assert ["r", "d1"][..1] == ["r"];
    assert ChildLink(NestedPruned(), 0, 1);
  }

  lemma NestedDescendants()
    ensures Linked(Nested()) && Descendants(Nested(), 0) == [0, 1, 2]
    ensures Linked(NestedPruned()) && Descendants(NestedPruned(), 0) == [0, 1]
  {
    NestedLinks();
    assert Descendants(Nested(), 2) == [2];
    assert Descendants(Nested(), 1) == [1, 2];
    assert Descendants(NestedPruned(), 1) == [1];
  }

  lemma NestedPass()
    ensures Pruned(Nested(), {2}) == NestedPruned()
  {
    assert Without([1], {2}) == [1] && Without([2], {2}) == [];
    var p := Pruned(Nested(), {2});
    assert p.slots[0] == NestedPruned().slots[0];
    assert p.slots[1] == NestedPruned().slots[1];
    assert p.slots[2] == NestedPruned().slots[2];
  }

  /**
   * Pruning `Nested()` removes only `d2`; `d1` is left as an empty directory, which a second
   * pass would remove.
   */
  lemma PruneNotIdempotent()
    ensures Linked(Nested()) && EmptyDirs(Nested(), 0) == {2}
    ensures Pruned(Nested(), EmptyDirs(Nested(), 0)) == NestedPruned()
    ensures Linked(NestedPruned()) && EmptyDirs(NestedPruned(), 0) == {1}
  {
    NestedDescendants();
    NestedPass();
    NestedEmptyDirs();
    NestedPrunedEmptyDirs();
  }

  lemma NestedEmptyDirs()
    ensures Linked(Nested()) && EmptyDirs(Nested(), 0) == {2}
  {
    NestedDescendants();
    assert IsEmptyDir(Nested(), 2) && !IsEmptyDir(Nested(), 1) && !IsEmptyDir(Nested(), 0);
  }

  lemma NestedPrunedEmptyDirs()
    ensures Linked(NestedPruned()) && EmptyDirs(NestedPruned(), 0) == {1}
  {
    NestedDescendants();
    assert IsEmptyDir(NestedPruned(), 1) && !IsEmptyDir(NestedPruned(), 0);
  }
}
