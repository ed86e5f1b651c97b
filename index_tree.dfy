/**
 * The arena that holds the tree: nodes addressed by integer ids, each with its data, its parent,
 * its ordered list of children and whether it has been removed. The first-child/next-sibling
 * pointers of the arena are represented by the ordered child list they encode.
 */
module IndexTree {
  import opened Wrappers
  import opened Nodes
  import Utils

  type Id = nat

  datatype Slot = Slot(data: Node, parent: Option<Id>, children: seq<Id>, removed: bool)

  datatype Arena = Arena(slots: seq<Slot>)

  /** `c`, listed as a child of `x`, points back to `x`, and its path is one component below. */
  ghost predicate ChildLink(a: Arena, x: Id, c: Id)
    requires x < |a.slots|
  {
    c < |a.slots| && a.slots[c].parent == Some(x)
    && ParentPath(a.slots[c].data.path) == Some(a.slots[x].data.path)
  }

  /** A node with a parent is listed among that parent's children. */
  ghost predicate ParentLink(a: Arena, x: Id)
    requires x < |a.slots| && a.slots[x].parent.Some?
  {
    var p := a.slots[x].parent.value;
    p < |a.slots| && x in a.slots[p].children
  }

  /**
   * The parent and child links agree and each child list is free of repetitions. Every link
   * goes from a directory's path to a path one component longer, so the links cannot form a
   * cycle.
   */
  ghost predicate Linked(a: Arena) {
    && (forall x, k :: 0 <= x < |a.slots| && 0 <= k < |a.slots[x].children| ==>
          ChildLink(a, x, a.slots[x].children[k]))
    && (forall x :: 0 <= x < |a.slots| && a.slots[x].parent.Some? ==> ParentLink(a, x))
    && (forall x :: 0 <= x < |a.slots| ==> Utils.NoDuplicates(a.slots[x].children))
  }

  /** An upper bound on the number of components of the paths in the arena. */
  function PathBound(slots: seq<Slot>): (b: nat)
    ensures forall x :: 0 <= x < |slots| ==> |slots[x].data.path| <= b
  {
    if slots == [] then 0
    else
      var b := PathBound(slots[..|slots| - 1]);
      var last := |slots[|slots| - 1].data.path|;
      if last > b then last else b
  }

  /** `NodeId::descendants`: `x` and everything below it, in pre-order. */
  function Descendants(a: Arena, x: Id): (ds: seq<Id>)
    requires Linked(a) && x < |a.slots|
    ensures |ds| >= 1 && ds[0] == x
    ensures forall k :: 0 <= k < |ds| ==> ds[k] < |a.slots|
    decreases PathBound(a.slots) - |a.slots[x].data.path|, 1
  {
    [x] + ChildDescendants(a, x, 0)
  }

  /** The descendants of the children of `x` from the `j`-th on, in pre-order. */
  function ChildDescendants(a: Arena, x: Id, j: nat): (ds: seq<Id>)
    requires Linked(a) && x < |a.slots| && j <= |a.slots[x].children|
    ensures forall k :: 0 <= k < |ds| ==> ds[k] < |a.slots|
    decreases PathBound(a.slots) - |a.slots[x].data.path|, 0, |a.slots[x].children| - j
  {
    if j == |a.slots[x].children| then []
    else Descendants(a, a.slots[x].children[j]) + ChildDescendants(a, x, j + 1)
  }

  /** `Arena::new_node`: a detached node whose id is the previous number of nodes. */
  function NewNode(a: Arena, n: Node): Arena {
    Arena(a.slots + [Slot(n, None, [], false)])
  }

  /** `NodeId::append` of a detached node `c`: it becomes the last child of `p`. */
  function Append(a: Arena, p: Id, c: Id): Arena
    requires p < |a.slots| && c < |a.slots|
  {
    var s := a.slots[p := a.slots[p].(children := a.slots[p].children + [c])];
    Arena(s[c := s[c].(parent := Some(p))])
  }

  /** Overwrites the data of node `x` with `n`. */
  function SetData(a: Arena, x: Id, n: Node): Arena
    requires x < |a.slots|
  {
    Arena(a.slots[x := a.slots[x].(data := n)])
  }

  /** `s` without the ids in `gone`, order kept. */
  function Without(s: seq<Id>, gone: set<Id>): (r: seq<Id>)
    ensures forall x :: x in r <==> x in s && x !in gone
  {
    if s == [] then []
    else if s[0] in gone then Without(s[1..], gone)
    else [s[0]] + Without(s[1..], gone)
  }

  /** `NodeId::detach`: `x` leaves its parent's child list and has no parent any more. */
  function Detach(a: Arena, x: Id): Arena
    requires Linked(a) && x < |a.slots|
  {
    match a.slots[x].parent
    case None => a
    case Some(p) =>
      var s := a.slots[p := a.slots[p].(children := Without(a.slots[p].children, {x}))];
      Arena(s[x := s[x].(parent := None)])
  }

  /** `NodeId::remove_subtree`: detaches `x` and marks it and all its descendants removed. */
  function RemoveSubtree(a: Arena, x: Id): Arena
    requires Linked(a) && x < |a.slots|
  {
    var gone := Descendants(a, x);
    var d := Detach(a, x);
    Arena(seq(|d.slots|, i requires 0 <= i < |d.slots| =>
      if i in gone then d.slots[i].(removed := true) else d.slots[i]))
  }

  // Lemmas that the arena operations used here keep the links consistent.

  lemma WithoutNoDuplicates(s: seq<Id>, gone: set<Id>)
    requires Utils.NoDuplicates(s)
    ensures Utils.NoDuplicates(Without(s, gone))
  {
    if s != [] {
      WithoutNoDuplicates(s[1..], gone);
      assert s[0] !in s[1..];
    }
  }

  lemma AppendLinked(a: Arena, p: Id, c: Id)
    requires Linked(a) && p < |a.slots| && c < |a.slots|
    requires a.slots[c].parent.None?
    requires ParentPath(a.slots[c].data.path) == Some(a.slots[p].data.path)
    ensures Linked(Append(a, p, c))
  {
    var b := Append(a, p, c);
    assert c !in a.slots[p].children by {
      assert forall k :: 0 <= k < |a.slots[p].children| ==> ChildLink(a, p, a.slots[p].children[k]);
    }
    forall x, k | 0 <= x < |b.slots| && 0 <= k < |b.slots[x].children|
      ensures ChildLink(b, x, b.slots[x].children[k])
    {
      if x != p || k < |a.slots[p].children| {
        assert ChildLink(a, x, a.slots[x].children[k]);
      }
    }
    forall x | 0 <= x < |b.slots| && b.slots[x].parent.Some?
      ensures ParentLink(b, x)
    {
      if x != c {
        assert ParentLink(a, x);
      }
    }
  }

  lemma SetDataLinked(a: Arena, x: Id, n: Node)
    requires Linked(a) && x < |a.slots| && n.path == a.slots[x].data.path
    ensures Linked(SetData(a, x, n))
  {
    var b := SetData(a, x, n);
    forall y, k | 0 <= y < |b.slots| && 0 <= k < |b.slots[y].children|
      ensures ChildLink(b, y, b.slots[y].children[k])
    {
      assert ChildLink(a, y, a.slots[y].children[k]);
    }
    forall y | 0 <= y < |b.slots| && b.slots[y].parent.Some?
      ensures ParentLink(b, y)
    {
      assert ParentLink(a, y);
    }
  }

  lemma DetachLinked(a: Arena, x: Id)
    requires Linked(a) && x < |a.slots|
    ensures Linked(Detach(a, x))
  {
    if a.slots[x].parent.Some? {
      var p := a.slots[x].parent.value;
      assert ParentLink(a, x);
      WithoutNoDuplicates(a.slots[p].children, {x});
      DetachChildLinks(a, x);
      DetachParentLinks(a, x);
    }
  }

  lemma DetachChildLinks(a: Arena, x: Id)
    requires Linked(a) && x < |a.slots|
    ensures var b := Detach(a, x);
      forall y, k :: 0 <= y < |b.slots| && 0 <= k < |b.slots[y].children| ==> ChildLink(b, y, b.slots[y].children[k])
  {
    var b := Detach(a, x);
    forall y, k | 0 <= y < |b.slots| && 0 <= k < |b.slots[y].children|
      ensures ChildLink(b, y, b.slots[y].children[k])
    {
      var c := b.slots[y].children[k];
      assert c in a.slots[y].children;
      var k' :| 0 <= k' < |a.slots[y].children| && a.slots[y].children[k'] == c;
      assert ChildLink(a, y, a.slots[y].children[k']);
    }
  }

  lemma DetachParentLinks(a: Arena, x: Id)
    requires Linked(a) && x < |a.slots|
    ensures var b := Detach(a, x);
      forall y :: 0 <= y < |b.slots| && b.slots[y].parent.Some? ==> ParentLink(b, y)
  {
    var b := Detach(a, x);
    forall y | 0 <= y < |b.slots| && b.slots[y].parent.Some?
      ensures ParentLink(b, y)
    {
      assert ParentLink(a, y);
    }
  }

  lemma RemoveSubtreeLinked(a: Arena, x: Id)
    requires Linked(a) && x < |a.slots|
    ensures Linked(RemoveSubtree(a, x))
  {
    DetachLinked(a, x);
    var d := Detach(a, x);
    var b := RemoveSubtree(a, x);
    forall y, k | 0 <= y < |b.slots| && 0 <= k < |b.slots[y].children|
      ensures ChildLink(b, y, b.slots[y].children[k])
    {
      assert ChildLink(d, y, d.slots[y].children[k]);
    }
    forall y | 0 <= y < |b.slots| && b.slots[y].parent.Some?
      ensures ParentLink(b, y)
    {
      assert ParentLink(d, y);
    }
  }
}
