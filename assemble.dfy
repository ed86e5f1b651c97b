/**
 * `assemble_tree`: starting from a directory, takes its pending children out of the index,
 * assembles every child directory first (post-order), adds up the children's sizes into the
 * directory's size, sorts the children if an order is configured and appends them in that order.
 * The arena and the index are owned values threaded through the recursion.
 */
module Assemble {
  import opened Wrappers
  import opened Nodes
  import opened IndexTree
  import opened Collect
  import opened SiblingSort
  import Utils

  /** What a child adds to its directory's size: its own size, or nothing when it has none. */
  function Bytes(n: Node): nat {
    n.fileSize.GetOr(0)
  }

  /** The sum of the sizes of the nodes `ids`. */
  function SumBytes(a: Arena, ids: seq<Id>): nat
    requires InArena(ids, a)
  {
    if ids == [] then 0 else Bytes(a.slots[ids[0]].data) + SumBytes(a, ids[1..])
  }

  /** The `dir_size.bytes > 0` guard: a positive total becomes the size, zero changes nothing. */
  function Stamp(n: Node, total: nat): Node {
    if total > 0 then n.WithFileSize(total) else n
  }

  /** The children in discovery order, or sorted by the comparator of the configured order. */
  function Arrange(ids: seq<Id>, a: Arena, order: Option<Le>): (r: seq<Id>)
    requires InArena(ids, a)
    ensures multiset(r) == multiset(ids) && InArena(r, a)
  {
    match order
    case None => ids
    case Some(le) => SortIds(ids, a, le)
  }

  /** No pending-children slot of `b` lists `x`. */
  ghost predicate NotListed(b: Branches, x: Id) {
    forall q, k :: q in b && 0 <= k < |b[q]| ==> b[q][k] != x
  }

  lemma ChildrenInArena(a: Arena, x: Id)
    requires Linked(a) && x < |a.slots|
    ensures InArena(a.slots[x].children, a)
  {
    forall k | 0 <= k < |a.slots[x].children|
      ensures a.slots[x].children[k] < |a.slots|
    {
      assert ChildLink(a, x, a.slots[x].children[k]);
    }
  }

  /** Node `x` carries the original size, or the sum of its children's sizes when that is positive. */
  ghost predicate SizedAt(a: Arena, init: seq<Node>, x: Id)
    requires Linked(a) && |init| == |a.slots| && x < |a.slots|
  {
    ChildrenInArena(a, x);
    a.slots[x].data == Stamp(init[x], SumBytes(a, a.slots[x].children))
  }

  /** Every node's size is aggregated over its current children, starting from the sizes `init`. */
  ghost predicate Aggregated(a: Arena, init: seq<Node>) {
    && Linked(a) && |init| == |a.slots|
    && forall x :: 0 <= x < |a.slots| ==> SizedAt(a, init, x)
  }

  ghost predicate AggregatedExcept(a: Arena, init: seq<Node>, cur: Id) {
    && Linked(a) && |init| == |a.slots|
    && forall x :: 0 <= x < |a.slots| && x != cur ==> SizedAt(a, init, x)
  }

  /** Only sizes may differ between the nodes of `a` and `a'`. */
  ghost predicate SameEntries(a: Arena, a': Arena) {
    && |a'.slots| == |a.slots|
    && forall x :: 0 <= x < |a.slots| ==>
         a'.slots[x].data == a.slots[x].data.(fileSize := a'.slots[x].data.fileSize)
  }

  /** The paths of the nodes `D`. */
  ghost function PathsOf(a: Arena, D: set<Id>): set<Path> {
    set x | x in D && x < |a.slots| :: a.slots[x].data.path
  }

  /**
   * Every member of `D` is a node of `a` with a slot in `b`, and its children in `a'` are
   * exactly the ids of that slot, arranged.
   */
  ghost predicate ChildrenArranged(a: Arena, b: Branches, order: Option<Le>, D: set<Id>, a': Arena) {
    forall x :: x in D ==>
      && x < |a.slots| && x < |a'.slots| && a.slots[x].data.path in b
      && InArena(b[a.slots[x].data.path], a')
      && a'.slots[x].children == Arrange(b[a.slots[x].data.path], a', order)
  }

  /** Every directory pending in the slot of a member of `D` is a member too. */
  ghost predicate Closed(a: Arena, b: Branches, D: set<Id>) {
    forall x, y ::
      (&& x in D && x < |a.slots| && a.slots[x].data.path in b && y in b[a.slots[x].data.path]
       && y < |a.slots| && a.slots[y].data.IsDir())
      ==> y in D
  }

  /** Every member of `D` other than `cur` is a directory pending in the slot of a member. */
  ghost predicate Rooted(a: Arena, b: Branches, cur: Id, D: set<Id>) {
    forall y :: y in D && y != cur ==>
      && y < |a.slots| && a.slots[y].data.IsDir()
      && exists x :: x in D && x < |a.slots| && a.slots[x].data.path in b && y in b[a.slots[x].data.path]
  }

  /**
   * The outcome of assembling `cur` from arena `a` and index `b` into `a'` and `b'`. `D` holds
   * the directories reached: `cur` and, recursively, every directory pending in the slot of one
   * of them (`Closed` and `Rooted` make it exactly that set). Each of them has exactly its
   * pending ids, arranged, as children; the index has lost exactly their slots; every size is
   * aggregated; `cur` is still detached and keeps its removed flag; nodes that were not pending
   * anywhere, other than `cur`, are untouched; only sizes changed.
   */
  ghost predicate Assembled(a: Arena, cur: Id, b: Branches, order: Option<Le>, init: seq<Node>,
                            a': Arena, b': Branches, D: set<Id>)
    requires cur < |a.slots|
  {
    && |a'.slots| == |a.slots|
    && PendingIndex(a', b') && Aggregated(a', init)
    && cur in D && Closed(a, b, D) && Rooted(a, b, cur, D)
    && ChildrenArranged(a, b, order, D, a')
    && b' == b - PathsOf(a, D)
    && a'.slots[cur].parent.None? && a'.slots[cur].removed == a.slots[cur].removed
    && (forall x :: 0 <= x < |a.slots| && x != cur && NotListed(b, x) ==> a'.slots[x] == a.slots[x])
    && SameEntries(a, a')
  }

  /** Every directory pending in a slot of `b` has a slot of its own. */
  ghost predicate ListedDirsHaveSlots(a: Arena, b: Branches) {
    forall q, y :: q in b && y in b[q] && y < |a.slots| && a.slots[y].data.IsDir() ==> a.slots[y].data.path in b
  }

  /** No two directory nodes share a path. */
  ghost predicate DistinctDirPaths(a: Arena) {
    forall x, y ::
      (&& 0 <= x < |a.slots| && 0 <= y < |a.slots| && a.slots[x].data.IsDir() && a.slots[y].data.IsDir()
       && a.slots[x].data.path == a.slots[y].data.path)
      ==> x == y
  }

  /**
   * When assembly from the directory `cur` cannot reach the `unwrap` panic: `cur` has a slot,
   * so does every directory pending anywhere in the index, and no two directories share a path.
   */
  ghost predicate Complete(a: Arena, b: Branches, cur: Id) {
    && cur < |a.slots| && a.slots[cur].data.IsDir() && a.slots[cur].data.path in b
    && ListedDirsHaveSlots(a, b) && DistinctDirPaths(a)
  }

  /**
   * `Tree::assemble_tree` from the directory `current`. A missing slot for `current` (the panic
   * of the `unwrap`) is `Err(BranchMissing)`, and so is one further down; with a complete index
   * there is none. On success `D` holds the directories reached and the outcome is `Assembled`;
   * the directory's size is the sum of its children's sizes whenever that sum is positive.
   */
  method AssembleTree(tree: Arena, current: Id, branches: Branches, order: Option<Le>, ghost init: seq<Node>)
    returns (r: Result<(Arena, Branches), Error>, ghost D: set<Id>)
    requires PendingIndex(tree, branches) && Aggregated(tree, init)
    requires current < |tree.slots| && tree.slots[current].parent.None? && NotListed(branches, current)
    ensures tree.slots[current].data.path !in branches ==> r == Err(BranchMissing)
    ensures Complete(tree, branches, current) ==> r.Ok?
    ensures r.Err? ==> r.error == BranchMissing
    ensures r.Ok? ==> Assembled(tree, current, branches, order, init, r.value.0, r.value.1, D)
    ensures r.Ok? ==>
      var a' := r.value.0;
      && InArena(a'.slots[current].children, a')
      && a'.slots[current].data == Stamp(tree.slots[current].data, SumBytes(a', a'.slots[current].children))
    decreases |branches.Keys|, 2
  {
    D := {};
    var path := tree.slots[current].data.path;
    if path !in branches {
      return Err(BranchMissing), D;
    }
    var children := branches[path];
    StartSize(tree, current, branches, init);
    var sized;
    ghost var below;
    sized, below := AssembleChildren(tree, current, branches, order, init);
    if sized.Err? {
      return Err(sized.error), D;
    }
    var (a, b, dirSize) := sized.value;
    a := AttachChildren(tree, current, branches, order, init, a, b, dirSize, below);
    D := below + {current};
    return Ok((a, b)), D;
  }

  /**
   * The tail of `assemble_tree`, once every child has been assembled and `dirSize` is their
   * total: a positive total becomes the directory's size, the children are arranged in the
   * configured order and appended one by one.
   */
  method AttachChildren(tree: Arena, current: Id, branches: Branches, order: Option<Le>, ghost init: seq<Node>,
                        assembled: Arena, b: Branches, dirSize: nat, ghost below: set<Id>)
    returns (a: Arena)
    requires current < |tree.slots| && |init| == |tree.slots| && tree.slots[current].data == init[current]
    requires PendingIndex(tree, branches) && tree.slots[current].parent.None?
    requires Progress(tree, current, branches, init, assembled, b)
    requires var children := branches[tree.slots[current].data.path];
      && Deep(tree, current, branches, order, |children|, assembled, b, below)
      && InArena(children, assembled) && dirSize == SumBytes(assembled, children)
    ensures Assembled(tree, current, branches, order, init, a, b, below + {current})
    ensures InArena(a.slots[current].children, a)
    ensures a.slots[current].data == Stamp(tree.slots[current].data, SumBytes(a, a.slots[current].children))
  {
    var children := branches[tree.slots[current].data.path];
    a := assembled;
    if dirSize > 0 {
      a := SetData(a, current, a.slots[current].data.WithFileSize(dirSize));
    }
    StampKeeps(assembled, current, a.slots[current].data, init, b);
    var arranged := Arrange(children, a, order);
    AttachStart(tree, current, branches, init, assembled, b, a, arranged);
    var stamped := a;
    a := AppendChildren(stamped, current, arranged, init, b);
    AttachShallow(tree, current, branches, order, init, assembled, b, dirSize, stamped, arranged, a);
    AttachDeep(tree, current, branches, order, init, assembled, b, below, stamped, arranged, a);
    Finish(tree, current, branches, order, init, a, b, below + {current});
  }

  /** What attaching does to `current` itself, to sizes and to the nodes outside its slot. */
  lemma AttachShallow(tree: Arena, current: Id, branches: Branches, order: Option<Le>, init: seq<Node>,
                      assembled: Arena, b: Branches, dirSize: nat, stamped: Arena, arranged: seq<Id>, a: Arena)
    requires current < |tree.slots| && |init| == |tree.slots| && tree.slots[current].data == init[current]
    requires tree.slots[current].parent.None? && Progress(tree, current, branches, init, assembled, b)
    requires var children := branches[tree.slots[current].data.path];
      && InArena(children, assembled) && dirSize == SumBytes(assembled, children)
      && InArena(children, stamped) && arranged == Arrange(children, stamped, order)
    requires stamped == if dirSize > 0 then SetData(assembled, current, assembled.slots[current].data.WithFileSize(dirSize))
      else assembled
    requires forall x :: 0 <= x < |assembled.slots| && x != current ==> stamped.slots[x] == assembled.slots[x]
    requires Attaching(stamped, current, arranged, init, b, |arranged|, a)
    ensures ShallowDone(tree, current, branches, order, init, a, b)
  {
    var children := branches[tree.slots[current].data.path];
    FinishSize(current, children, order, init, assembled, b, dirSize, stamped, arranged, a);
    FinishFrame(tree, current, branches, init, assembled, b, stamped, arranged, a);
    FinishEntries(tree, current, assembled, dirSize, stamped, arranged, init, b, a);
  }

  /** What attaching does to the directories reached: all of them, `current` included, are arranged. */
  lemma AttachDeep(tree: Arena, current: Id, branches: Branches, order: Option<Le>, init: seq<Node>,
                   assembled: Arena, b: Branches, below: set<Id>, stamped: Arena, arranged: seq<Id>, a: Arena)
    requires current < |tree.slots| && Progress(tree, current, branches, init, assembled, b)
    requires Deep(tree, current, branches, order, |branches[tree.slots[current].data.path]|, assembled, b, below)
    requires |stamped.slots| == |assembled.slots|
    requires forall x :: 0 <= x < |assembled.slots| && x != current ==> stamped.slots[x] == assembled.slots[x]
    requires Attaching(stamped, current, arranged, init, b, |arranged|, a)
    requires var children := branches[tree.slots[current].data.path];
      InArena(children, a) && a.slots[current].children == Arrange(children, a, order)
    ensures DeepDone(tree, current, branches, order, a, b, below + {current})
  {
    FinishArranged(tree, current, branches, order, init, assembled, b, below, stamped, arranged, a);
    FinishReached(tree, current, branches, order, init, assembled, b, below);
  }

  /**
   * The state after the first `i` pending children of `current`: the progress made on the
   * arena and index, the directories reached below, and the total size of those children.
   */
  ghost predicate Round(tree: Arena, current: Id, branches: Branches, order: Option<Le>, init: seq<Node>, i: nat,
                        a: Arena, b: Branches, dirSize: nat, below: set<Id>)
    requires current < |tree.slots|
  {
    && Progress(tree, current, branches, init, a, b)
    && Deep(tree, current, branches, order, i, a, b, below)
    && InArena(branches[tree.slots[current].data.path], a)
    && dirSize == SumBytes(a, branches[tree.slots[current].data.path][..i])
  }

  /**
   * The loop of `assemble_tree` over the pending children of `current`: each child directory is
   * assembled in turn, then the child's size is added to the running total, which is returned
   * with the arena and index reached. `below` holds the directories reached from the children.
   */
  method AssembleChildren(tree: Arena, current: Id, branches: Branches, order: Option<Le>, ghost init: seq<Node>)
    returns (r: Result<(Arena, Branches, nat), Error>, ghost below: set<Id>)
    requires PendingIndex(tree, branches) && Aggregated(tree, init)
    requires current < |tree.slots| && tree.slots[current].parent.None? && NotListed(branches, current)
    requires tree.slots[current].data.path in branches
    ensures Complete(tree, branches, current) ==> r.Ok?
    ensures r.Err? ==> r.error == BranchMissing
    ensures r.Ok? ==>
      var (a, b, dirSize) := r.value;
      var children := branches[tree.slots[current].data.path];
      && Progress(tree, current, branches, init, a, b)
      && Deep(tree, current, branches, order, |children|, a, b, below)
      && InArena(children, a) && dirSize == SumBytes(a, children)
    decreases |branches.Keys|, 1
  {
    var path := tree.slots[current].data.path;
    var children := branches[path];
    var b := branches - {path};
    var a := tree;
    var dirSize: nat := 0;
    below := {};
    ProgressStart(tree, current, branches, init);
    DeepStart(tree, current, branches, order);
    for i := 0 to |children|
      invariant Round(tree, current, branches, order, init, i, a, b, dirSize, below)
    {
      var step;
      ghost var reached;
      step, reached := AssembleChild(tree, current, branches, order, init, i, a, b, dirSize, below);
      if step.Err? {
        return Err(step.error), below;
      }
      a, b, dirSize := step.value.0, step.value.1, step.value.2;
      below := below + reached;
    }
    assert children[..|children|] == children;
    return Ok((a, b, dirSize)), below;
  }

  /**
   * One round of that loop: the `i`-th pending child is assembled if it is a directory, and its
   * size is added to the running total `dirSize`. `reached` holds the directories reached from it.
   */
  method AssembleChild(tree: Arena, current: Id, branches: Branches, order: Option<Le>, ghost init: seq<Node>,
                       i: nat, a: Arena, b: Branches, dirSize: nat, ghost below: set<Id>)
    returns (r: Result<(Arena, Branches, nat), Error>, ghost reached: set<Id>)
    requires current < |tree.slots| && PendingIndex(tree, branches)
    requires Round(tree, current, branches, order, init, i, a, b, dirSize, below)
    requires i < |branches[tree.slots[current].data.path]|
    ensures Complete(tree, branches, current) ==> r.Ok?
    ensures r.Err? ==> r.error == BranchMissing
    ensures r.Ok? ==> Round(tree, current, branches, order, init, i + 1, r.value.0, r.value.1, r.value.2, below + reached)
    decreases |branches.Keys|, 0
  {
    var index := branches[tree.slots[current].data.path][i];
    reached := {};
    ChildCallable(tree, current, branches, init, a, b, i);
    var (a', b') := (a, b);
    if a.slots[index].data.IsDir() {
      ChildComplete(tree, current, branches, order, init, i, a, b, below);
      var sub;
      sub, reached := AssembleTree(a, index, b, order, init);
      if sub.Err? {
        return Err(sub.error), reached;
      }
      a', b' := sub.value.0, sub.value.1;
    }
    ChildDone(tree, current, branches, init, order, i, dirSize, a, b, below, a', b', reached);
    return Ok((a', b', dirSize + Bytes(a'.slots[index].data))), reached;
  }

  // ---------------------------------------------------------------------------------------
  // Sizes.

  lemma {:induction false} SumBytesConcat(a: Arena, u: seq<Id>, v: seq<Id>)
    requires InArena(u, a) && InArena(v, a)
    ensures InArena(u + v, a) && SumBytes(a, u + v) == SumBytes(a, u) + SumBytes(a, v)
  {
    if u == [] {
      assert u + v == v;
    } else {
      assert (u + v)[1..] == u[1..] + v;
      SumBytesConcat(a, u[1..], v);
    }
  }

  /** The sum only depends on the nodes of the ids summed. */
  lemma {:induction false} SumBytesFrame(a: Arena, a': Arena, ids: seq<Id>)
    requires InArena(ids, a) && InArena(ids, a')
    requires forall k :: 0 <= k < |ids| ==> a'.slots[ids[k]].data == a.slots[ids[k]].data
    ensures SumBytes(a', ids) == SumBytes(a, ids)
  {
    if ids != [] {
      SumBytesFrame(a, a', ids[1..]);
    }
  }

  lemma {:induction false} SumBytesInsert(x: Id, s: seq<Id>, a: Arena, le: Le)
    requires x < |a.slots| && InArena(s, a)
    ensures SumBytes(a, Insert(x, s, a, le)) == Bytes(a.slots[x].data) + SumBytes(a, s)
  {
    if s != [] && !le(a.slots[x].data, a.slots[s[0]].data) {
      SumBytesInsert(x, s[1..], a, le);
    }
  }

  /** Sorting the children does not change their total size. */
  lemma {:induction false} SumBytesSort(s: seq<Id>, a: Arena, le: Le)
    requires InArena(s, a)
    ensures SumBytes(a, SortIds(s, a, le)) == SumBytes(a, s)
  {
    if s != [] {
      SumBytesSort(s[1..], a, le);
      SumBytesInsert(s[0], SortIds(s[1..], a, le), a, le);
    }
  }

  /** The nodes `ids` have the same data in `a` and `a'`. */
  ghost predicate SameData(ids: seq<Id>, a: Arena, a': Arena) {
    forall y :: y in ids ==> y < |a.slots| && y < |a'.slots| && a'.slots[y].data == a.slots[y].data
  }

  lemma {:induction false} InsertFrame(x: Id, s: seq<Id>, a: Arena, a': Arena, le: Le)
    requires x < |a.slots| && InArena(s, a) && |a'.slots| == |a.slots|
    requires a'.slots[x].data == a.slots[x].data && SameData(s, a, a')
    ensures Insert(x, s, a', le) == Insert(x, s, a, le)
  {
    if s != [] {
      assert s[0] in s;
      InsertFrame(x, s[1..], a, a', le);
    }
  }

  /** The arrangement only depends on the data of the nodes arranged. */
  lemma {:induction false} SortIdsFrame(s: seq<Id>, a: Arena, a': Arena, le: Le)
    requires InArena(s, a) && |a'.slots| == |a.slots| && SameData(s, a, a')
    ensures SortIds(s, a', le) == SortIds(s, a, le)
  {
    if s != [] {
      assert s[0] in s;
      SortIdsFrame(s[1..], a, a', le);
      var t := SortIds(s[1..], a, le);
      forall y | y in t
        ensures y in s[1..]
      {
        assert y in multiset(t);
      }
      InsertFrame(s[0], t, a, a', le);
    }
  }

  lemma ArrangeFrame(ids: seq<Id>, a: Arena, a': Arena, order: Option<Le>)
    requires InArena(ids, a) && |a'.slots| == |a.slots| && SameData(ids, a, a')
    ensures InArena(ids, a') && Arrange(ids, a', order) == Arrange(ids, a, order)
  {
    if order.Some? {
      SortIdsFrame(ids, a, a', order.value);
    }
  }

  // ---------------------------------------------------------------------------------------
  // The loop over the pending children.

  lemma KeysShrink(b: Branches, branches: Branches, path: Path)
    requires path in branches && b.Keys <= branches.Keys - {path}
    ensures |b.Keys| < |branches.Keys|
  {
    SubsetCardinality(b.Keys, branches.Keys - {path});
  }

  lemma {:induction false} SubsetCardinality<T>(s: set<T>, t: set<T>)
    requires s <= t
    ensures |s| <= |t|
  {
    if s != {} {
      var x :| x in s;
      SubsetCardinality(s - {x}, t - {x});
    }
  }

  /**
   * While the children of `cur` are assembled: the arena `a` and index `b` reached so far are
   * consistent, the pending children of `cur` are still detached and pending nowhere else, and
   * only nodes pending in the original index have changed.
   */
  ghost predicate Progress(tree: Arena, cur: Id, branches: Branches, init: seq<Node>, a: Arena, b: Branches)
    requires cur < |tree.slots|
  {
    var path := tree.slots[cur].data.path;
    && path in branches
    && |a.slots| == |tree.slots|
    && PendingIndex(a, b) && Aggregated(a, init)
    && b.Keys <= branches.Keys - {path}
    && (forall q :: q in b ==> b[q] == branches[q])
    && NotListed(branches, cur)
    && Utils.NoDuplicates(branches[path])
    && (forall k :: 0 <= k < |branches[path]| ==>
          Pends(a, path, branches[path][k]) && NotListed(b, branches[path][k]))
    && a.slots[cur] == tree.slots[cur]
    && (forall x :: 0 <= x < |a.slots| && x != cur && NotListed(branches, x) ==> a.slots[x] == tree.slots[x])
    && SameEntries(tree, a)
  }

  lemma ProgressStart(tree: Arena, cur: Id, branches: Branches, init: seq<Node>)
    requires PendingIndex(tree, branches) && Aggregated(tree, init)
    requires cur < |tree.slots| && tree.slots[cur].parent.None? && NotListed(branches, cur)
    requires tree.slots[cur].data.path in branches
    ensures Progress(tree, cur, branches, init, tree, branches - {tree.slots[cur].data.path})
  {
    var path := tree.slots[cur].data.path;
    var b := branches - {path};
    forall k | 0 <= k < |branches[path]|
      ensures NotListed(b, branches[path][k])
    {
      var c := branches[path][k];
      forall q, j | q in b && 0 <= j < |b[q]|
        ensures b[q][j] != c
      {
        assert Pends(tree, q, b[q][j]);
      }
    }
  }

  /** The recursive call on the `i`-th pending child is allowed and makes the index smaller. */
  lemma ChildCallable(tree: Arena, cur: Id, branches: Branches, init: seq<Node>, a: Arena, b: Branches, i: nat)
    requires cur < |tree.slots| && Progress(tree, cur, branches, init, a, b)
    requires i < |branches[tree.slots[cur].data.path]|
    ensures var c := branches[tree.slots[cur].data.path][i];
      && PendingIndex(a, b) && Aggregated(a, init)
      && c < |a.slots| && a.slots[c].parent.None? && NotListed(b, c)
      && |b.Keys| < |branches.Keys|
  {
    var path := tree.slots[cur].data.path;
    assert Pends(a, path, branches[path][i]);
    KeysShrink(b, branches, path);
  }

  /** After the `i`-th pending child, assembled or left as it was, the loop invariant holds again. */
  lemma ChildDone(tree: Arena, cur: Id, branches: Branches, init: seq<Node>, order: Option<Le>, i: nat,
                  dirSize: nat, a: Arena, b: Branches, below: set<Id>, a': Arena, b': Branches, reached: set<Id>)
    requires cur < |tree.slots| && PendingIndex(tree, branches)
    requires Progress(tree, cur, branches, init, a, b) && Deep(tree, cur, branches, order, i, a, b, below)
    requires var children := branches[tree.slots[cur].data.path];
      && i < |children| && InArena(children, a) && dirSize == SumBytes(a, children[..i])
      && (if a.slots[children[i]].data.IsDir() then Assembled(a, children[i], b, order, init, a', b', reached)
          else a' == a && b' == b && reached == {})
    ensures var children := branches[tree.slots[cur].data.path];
      && Progress(tree, cur, branches, init, a', b') && Deep(tree, cur, branches, order, i + 1, a', b', below + reached)
      && InArena(children, a')
      && dirSize + Bytes(a'.slots[children[i]].data) == SumBytes(a', children[..i + 1])
  {
    var children := branches[tree.slots[cur].data.path];
    var c := children[i];
    assert a.slots[c].data == tree.slots[c].data.(fileSize := a.slots[c].data.fileSize);
    if a.slots[c].data.IsDir() {
      ProgressChild(tree, cur, branches, init, a, b, order, i, a', b', reached);
      DeepChild(tree, cur, branches, init, order, i, a, b, below, a', b', reached);
    } else {
      DeepSkip(tree, cur, branches, order, i, a, b, below);
      assert below + reached == below;
    }
    ChildSize(a, a', children, i, dirSize);
  }

  /** The running size gains the bytes of the `i`-th child, the earlier children being unchanged. */
  lemma ChildSize(a: Arena, a': Arena, children: seq<Id>, i: nat, dirSize: nat)
    requires InArena(children, a) && InArena(children, a') && i < |children|
    requires dirSize == SumBytes(a, children[..i])
    requires forall k :: 0 <= k < |children| && k != i ==> a'.slots[children[k]] == a.slots[children[k]]
    ensures dirSize + Bytes(a'.slots[children[i]].data) == SumBytes(a', children[..i + 1])
  {
    SumBytesFrame(a, a', children[..i]);
    SumBytesConcat(a', children[..i], [children[i]]);
    assert children[..i + 1] == children[..i] + [children[i]];
  }

  lemma ProgressChild(tree: Arena, cur: Id, branches: Branches, init: seq<Node>, a: Arena, b: Branches,
                      order: Option<Le>, i: nat, a': Arena, b': Branches, reached: set<Id>)
    requires cur < |tree.slots| && Progress(tree, cur, branches, init, a, b)
    requires i < |branches[tree.slots[cur].data.path]|
    requires var c := branches[tree.slots[cur].data.path][i];
      c < |a.slots| && Assembled(a, c, b, order, init, a', b', reached)
    ensures Progress(tree, cur, branches, init, a', b')
    ensures var children := branches[tree.slots[cur].data.path];
      forall k :: 0 <= k < |children| && k != i ==> a'.slots[children[k]] == a.slots[children[k]]
  {
    AssembledIndex(a, branches[tree.slots[cur].data.path][i], b, order, init, a', b', reached);
    var path := tree.slots[cur].data.path;
    var children := branches[path];
    var c := children[i];
    assert Pends(a, path, c);
    forall x | 0 <= x < |a.slots| && NotListed(branches, x)
      ensures NotListed(b, x)
    {
    }
    forall k | 0 <= k < |children|
      ensures Pends(a', path, children[k]) && NotListed(b', children[k])
    {
      if k != i {
        assert children[k] != c;
        assert Pends(a, path, children[k]);
      }
    }
    forall x | 0 <= x < |a.slots| && x != cur && NotListed(branches, x)
      ensures a'.slots[x] == tree.slots[x]
    {
      assert x != children[i];
    }
  }

  // ---------------------------------------------------------------------------------------
  // The directories reached below `cur`.

  /**
   * While the children of `cur` are assembled, after the first `i` of them: `below` holds the
   * directories reached from those children. Each has its pending ids, arranged, as children;
   * the index has lost exactly the slots of `cur` and of them; no slot lists any of them.
   */
  ghost predicate Deep(tree: Arena, cur: Id, branches: Branches, order: Option<Le>, i: nat,
                       a: Arena, b: Branches, below: set<Id>)
    requires cur < |tree.slots|
  {
    var path := tree.slots[cur].data.path;
    && path in branches && i <= |branches[path]|
    && PathsOf(tree, below) <= branches.Keys - {path}
    && b == branches - ({path} + PathsOf(tree, below))
    && ChildrenArranged(tree, branches, order, below, a)
    && Closed(tree, branches, below)
    && (forall y :: y in below ==> NotListed(b, y))
    && (forall y :: y in branches[path][..i] && y < |tree.slots| && tree.slots[y].data.IsDir() ==> y in below)
    && RootedBelow(tree, branches, branches[path], i, below)
  }

  /**
   * Every member of `below` is a directory pending among the first `i` of `children`, or in the
   * slot of another member.
   */
  ghost predicate RootedBelow(tree: Arena, branches: Branches, children: seq<Id>, i: nat, below: set<Id>)
    requires i <= |children|
  {
    forall y :: y in below ==>
      && y < |tree.slots| && tree.slots[y].data.IsDir()
      && (|| y in children[..i]
          || exists x :: x in below && x < |tree.slots| && tree.slots[x].data.path in branches
                           && y in branches[tree.slots[x].data.path])
  }

  lemma DeepStart(tree: Arena, cur: Id, branches: Branches, order: Option<Le>)
    requires cur < |tree.slots| && tree.slots[cur].data.path in branches
    ensures Deep(tree, cur, branches, order, 0, tree, branches - {tree.slots[cur].data.path}, {})
  {
    var path := tree.slots[cur].data.path;
    assert PathsOf(tree, {}) == {};
    assert {path} + PathsOf(tree, {}) == {path};
  }

  /** An id is pending in the slot of its parent path only. */
  lemma ListedOnce(a: Arena, b: Branches, y: Id, q: Path, q': Path)
    requires PendingIndex(a, b) && q in b && q' in b && y in b[q] && q != q'
    ensures y !in b[q']
  {
    var k :| 0 <= k < |b[q]| && b[q][k] == y;
    assert Pends(a, q, b[q][k]);
    forall j | 0 <= j < |b[q']|
      ensures b[q'][j] != y
    {
      assert Pends(a, q', b[q'][j]);
    }
  }

  /** What assembly leaves of the index: the slot of `cur` is gone and no slot is changed. */
  lemma AssembledIndex(a: Arena, cur: Id, b: Branches, order: Option<Le>, init: seq<Node>,
                       a': Arena, b': Branches, D: set<Id>)
    requires cur < |a.slots| && Assembled(a, cur, b, order, init, a', b', D)
    ensures a.slots[cur].data.path in b
    ensures b'.Keys <= b.Keys - {a.slots[cur].data.path} && forall q :: q in b' ==> b'[q] == b[q]
  {
    assert a.slots[cur].data.path in PathsOf(a, D);
  }

  /** After assembly no slot lists a directory that was reached. */
  lemma AssembledUnlisted(a: Arena, cur: Id, b: Branches, order: Option<Le>, init: seq<Node>,
                          a': Arena, b': Branches, D: set<Id>)
    requires cur < |a.slots| && PendingIndex(a, b) && NotListed(b, cur)
    requires Assembled(a, cur, b, order, init, a', b', D)
    ensures forall y :: y in D ==> NotListed(b', y)
  {
    forall y, q, k | y in D && q in b' && 0 <= k < |b'[q]|
      ensures b'[q][k] != y
    {
      if y != cur {
        var x :| x in D && x < |a.slots| && a.slots[x].data.path in b && y in b[a.slots[x].data.path];
        var p := a.slots[x].data.path;
        var j :| 0 <= j < |b[p]| && b[p][j] == y;
        assert Pends(a, p, b[p][j]);
        assert p in PathsOf(a, D);
        assert Pends(a', q, b'[q][k]);
        assert a'.slots[b'[q][k]].data.path == a.slots[b'[q][k]].data.path;
      }
    }
  }

  /** The next pending child has not been reached from the earlier ones. */
  lemma NextNotReached(tree: Arena, cur: Id, branches: Branches, order: Option<Le>, i: nat,
                       a: Arena, b: Branches, below: set<Id>)
    requires cur < |tree.slots| && PendingIndex(tree, branches)
    requires Deep(tree, cur, branches, order, i, a, b, below)
    requires i < |branches[tree.slots[cur].data.path]|
    ensures branches[tree.slots[cur].data.path][i] !in below
  {
    var path := tree.slots[cur].data.path;
    var children := branches[path];
    var c := children[i];
    forall k | 0 <= k < i
      ensures children[k] != c
    {
    }
    assert c !in children[..i];
    forall x | x in below && x < |tree.slots| && tree.slots[x].data.path in branches
      ensures c !in branches[tree.slots[x].data.path]
    {
      assert tree.slots[x].data.path in PathsOf(tree, below);
      ListedOnce(tree, branches, c, path, tree.slots[x].data.path);
    }
  }

  /** The pending children of a directory reached earlier are not listed any more, nor among `cur`'s. */
  lemma BelowUnlisted(tree: Arena, cur: Id, branches: Branches, init: seq<Node>, order: Option<Le>, i: nat,
                      a: Arena, b: Branches, below: set<Id>, x: Id)
    requires cur < |tree.slots| && PendingIndex(tree, branches)
    requires Progress(tree, cur, branches, init, a, b) && Deep(tree, cur, branches, order, i, a, b, below)
    requires x in below
    ensures var q := tree.slots[x].data.path;
      forall z :: z in branches[q] ==> NotListed(b, z) && z !in branches[tree.slots[cur].data.path]
  {
    var path := tree.slots[cur].data.path;
    var p := tree.slots[x].data.path;
    assert p in PathsOf(tree, below);
    forall z | z in branches[p]
      ensures NotListed(b, z) && z !in branches[path]
    {
      var j :| 0 <= j < |branches[p]| && branches[p][j] == z;
      assert Pends(tree, p, branches[p][j]);
      ListedOnce(tree, branches, z, p, path);
      forall q, k | q in b && 0 <= k < |b[q]|
        ensures b[q][k] != z
      {
        assert Pends(a, q, b[q][k]);
        assert a.slots[z].data.path == tree.slots[z].data.path;
      }
    }
  }

  /** Assembling a child that is not a directory reaches nothing. */
  lemma DeepSkip(tree: Arena, cur: Id, branches: Branches, order: Option<Le>, i: nat,
                 a: Arena, b: Branches, below: set<Id>)
    requires cur < |tree.slots| && Deep(tree, cur, branches, order, i, a, b, below)
    requires var children := branches[tree.slots[cur].data.path];
      i < |children| && (children[i] < |tree.slots| ==> !tree.slots[children[i]].data.IsDir())
    ensures Deep(tree, cur, branches, order, i + 1, a, b, below)
  {
    PrefixStep(branches[tree.slots[cur].data.path], i);
  }

  /** Assembling the `i`-th child, a directory, adds the directories it reached. */
  lemma DeepChild(tree: Arena, cur: Id, branches: Branches, init: seq<Node>, order: Option<Le>, i: nat,
                  a: Arena, b: Branches, below: set<Id>, a': Arena, b': Branches, reached: set<Id>)
    requires cur < |tree.slots| && PendingIndex(tree, branches)
    requires Progress(tree, cur, branches, init, a, b) && Deep(tree, cur, branches, order, i, a, b, below)
    requires var children := branches[tree.slots[cur].data.path];
      && i < |children| && children[i] < |a.slots| && a.slots[children[i]].data.IsDir()
      && Assembled(a, children[i], b, order, init, a', b', reached)
    ensures Deep(tree, cur, branches, order, i + 1, a', b', below + reached)
  {
    DeepChildIndex(tree, cur, branches, init, order, i, a, b, below, a', b', reached);
    DeepChildArranged(tree, cur, branches, init, order, i, a, b, below, a', b', reached);
    DeepChildClosed(tree, cur, branches, init, order, i, a, b, below, a', b', reached);
    DeepChildUnlisted(tree, cur, branches, init, order, i, a, b, below, a', b', reached);
    DeepChildReached(tree, cur, branches, init, order, i, a, b, below, a', b', reached);
  }

  lemma DeepChildReached(tree: Arena, cur: Id, branches: Branches, init: seq<Node>, order: Option<Le>, i: nat,
                         a: Arena, b: Branches, below: set<Id>, a': Arena, b': Branches, reached: set<Id>)
    requires cur < |tree.slots|
    requires Progress(tree, cur, branches, init, a, b) && Deep(tree, cur, branches, order, i, a, b, below)
    requires var children := branches[tree.slots[cur].data.path];
      && i < |children| && children[i] < |a.slots| && a.slots[children[i]].data.IsDir()
      && Assembled(a, children[i], b, order, init, a', b', reached)
    ensures var children := branches[tree.slots[cur].data.path];
      RootedBelow(tree, branches, children, i + 1, below + reached)
  {
    var children := branches[tree.slots[cur].data.path];
    AssembledIndex(a, children[i], b, order, init, a', b', reached);
    assert a.slots[children[i]].data == tree.slots[children[i]].data.(fileSize := a.slots[children[i]].data.fileSize);
    DeepChildRooted(tree, branches, children, i, below, a, b, reached);
  }

  lemma DeepChildIndex(tree: Arena, cur: Id, branches: Branches, init: seq<Node>, order: Option<Le>, i: nat,
                       a: Arena, b: Branches, below: set<Id>, a': Arena, b': Branches, reached: set<Id>)
    requires cur < |tree.slots|
    requires Progress(tree, cur, branches, init, a, b) && Deep(tree, cur, branches, order, i, a, b, below)
    requires var children := branches[tree.slots[cur].data.path];
      && i < |children| && children[i] < |a.slots|
      && Assembled(a, children[i], b, order, init, a', b', reached)
    ensures var path := tree.slots[cur].data.path;
      && PathsOf(tree, below + reached) <= branches.Keys - {path}
      && b' == branches - ({path} + PathsOf(tree, below + reached))
  {
    var path := tree.slots[cur].data.path;
    assert PathsOf(a, reached) == PathsOf(tree, reached) by {
      forall x | x in reached && x < |a.slots|
        ensures a.slots[x].data.path == tree.slots[x].data.path
      {
      }
    }
    assert PathsOf(tree, below + reached) == PathsOf(tree, below) + PathsOf(tree, reached);
    forall x | x in reached
      ensures tree.slots[x].data.path in b
    {
    }
  }

  lemma DeepChildArranged(tree: Arena, cur: Id, branches: Branches, init: seq<Node>, order: Option<Le>, i: nat,
                          a: Arena, b: Branches, below: set<Id>, a': Arena, b': Branches, reached: set<Id>)
    requires cur < |tree.slots| && PendingIndex(tree, branches)
    requires Progress(tree, cur, branches, init, a, b) && Deep(tree, cur, branches, order, i, a, b, below)
    requires var children := branches[tree.slots[cur].data.path];
      && i < |children| && children[i] < |a.slots|
      && Assembled(a, children[i], b, order, init, a', b', reached)
    ensures ChildrenArranged(tree, branches, order, below + reached, a')
  {
    NextNotReached(tree, cur, branches, order, i, a, b, below);
    forall x | x in below
      ensures && x < |a.slots| && a'.slots[x] == a.slots[x]
              && (tree.slots[x].data.path in branches ==> SameData(branches[tree.slots[x].data.path], a, a'))
    {
      BelowUnlisted(tree, cur, branches, init, order, i, a, b, below, x);
    }
    ArrangedKept(tree, branches, order, below, a, a');
    ArrangedReached(tree, branches, order, a, b, reached, a');
  }

  /** Directories whose node and pending children are unchanged stay arranged. */
  lemma ArrangedKept(tree: Arena, branches: Branches, order: Option<Le>, below: set<Id>, a: Arena, a': Arena)
    requires ChildrenArranged(tree, branches, order, below, a) && |a'.slots| == |a.slots|
    requires forall x :: x in below ==>
      && x < |a.slots| && a'.slots[x] == a.slots[x]
      && (x < |tree.slots| && tree.slots[x].data.path in branches ==> SameData(branches[tree.slots[x].data.path], a, a'))
    ensures ChildrenArranged(tree, branches, order, below, a')
  {
    forall x | x in below
      ensures && x < |tree.slots| && tree.slots[x].data.path in branches
              && InArena(branches[tree.slots[x].data.path], a')
              && a'.slots[x].children == Arrange(branches[tree.slots[x].data.path], a', order)
    {
      ArrangeFrame(branches[tree.slots[x].data.path], a, a', order);
    }
  }

  /** Directories arranged from a part `b` of the index (over the same entries) are arranged from all of it. */
  lemma ArrangedReached(tree: Arena, branches: Branches, order: Option<Le>, a: Arena, b: Branches,
                        reached: set<Id>, a': Arena)
    requires ChildrenArranged(a, b, order, reached, a') && SameEntries(tree, a)
    requires forall q :: q in b ==> q in branches && b[q] == branches[q]
    ensures ChildrenArranged(tree, branches, order, reached, a')
  {
    forall x | x in reached
      ensures x < |tree.slots| && tree.slots[x].data.path == a.slots[x].data.path
    {
    }
  }

  lemma DeepChildClosed(tree: Arena, cur: Id, branches: Branches, init: seq<Node>, order: Option<Le>, i: nat,
                        a: Arena, b: Branches, below: set<Id>, a': Arena, b': Branches, reached: set<Id>)
    requires cur < |tree.slots|
    requires Progress(tree, cur, branches, init, a, b) && Deep(tree, cur, branches, order, i, a, b, below)
    requires var children := branches[tree.slots[cur].data.path];
      && i < |children| && children[i] < |a.slots|
      && Assembled(a, children[i], b, order, init, a', b', reached)
    ensures Closed(tree, branches, below + reached)
    ensures var children := branches[tree.slots[cur].data.path];
      forall y :: y in children[..i + 1] && y < |tree.slots| && tree.slots[y].data.IsDir() ==> y in below + reached
  {
    PrefixStep(branches[tree.slots[cur].data.path], i);
    assert ChildrenArranged(a, b, order, reached, a');
    ClosedUnion(tree, branches, below, a, b, reached);
  }

  /**
   * Directories closed under the index `branches` and directories closed under a part `b` of it
   * (over the same entries) together are closed under `branches`.
   */
  lemma ClosedUnion(tree: Arena, branches: Branches, below: set<Id>, a: Arena, b: Branches, reached: set<Id>)
    requires Closed(tree, branches, below) && Closed(a, b, reached) && SameEntries(tree, a)
    requires forall q :: q in b ==> q in branches && b[q] == branches[q]
    requires forall x :: x in reached ==> x < |a.slots| && a.slots[x].data.path in b
    ensures Closed(tree, branches, below + reached)
  {
    forall x, y | && x in below + reached && x < |tree.slots| && tree.slots[x].data.path in branches
                  && y in branches[tree.slots[x].data.path] && y < |tree.slots| && tree.slots[y].data.IsDir()
      ensures y in below + reached
    {
      if x in reached {
        assert a.slots[x].data.path == tree.slots[x].data.path;
        assert a.slots[y].data.IsDir();
      }
    }
  }

  lemma DeepChildUnlisted(tree: Arena, cur: Id, branches: Branches, init: seq<Node>, order: Option<Le>, i: nat,
                          a: Arena, b: Branches, below: set<Id>, a': Arena, b': Branches, reached: set<Id>)
    requires cur < |tree.slots|
    requires Progress(tree, cur, branches, init, a, b) && Deep(tree, cur, branches, order, i, a, b, below)
    requires var children := branches[tree.slots[cur].data.path];
      && i < |children| && children[i] < |a.slots|
      && Assembled(a, children[i], b, order, init, a', b', reached)
    ensures forall y :: y in below + reached ==> NotListed(b', y)
  {
    var c := branches[tree.slots[cur].data.path][i];
    AssembledUnlisted(a, c, b, order, init, a', b', reached);
    AssembledIndex(a, c, b, order, init, a', b', reached);
  }

  lemma DeepChildRooted(tree: Arena, branches: Branches, children: seq<Id>, i: nat, below: set<Id>,
                        a: Arena, b: Branches, reached: set<Id>)
    requires i < |children| && children[i] < |tree.slots| && tree.slots[children[i]].data.IsDir()
    requires RootedBelow(tree, branches, children, i, below)
    requires SameEntries(tree, a) && forall q :: q in b ==> q in branches && b[q] == branches[q]
    requires children[i] in reached && Rooted(a, b, children[i], reached)
    ensures RootedBelow(tree, branches, children, i + 1, below + reached)
  {
    var c := children[i];
    PrefixStep(children, i);
    forall y | y in below + reached
      ensures && y < |tree.slots| && tree.slots[y].data.IsDir()
              && (|| y in children[..i + 1]
                  || exists x :: x in below + reached && x < |tree.slots| && tree.slots[x].data.path in branches
                                   && y in branches[tree.slots[x].data.path])
    {
      if y in reached && y != c {
        var x :| x in reached && x < |a.slots| && a.slots[x].data.path in b && y in b[a.slots[x].data.path];
        assert a.slots[x].data.path == tree.slots[x].data.path;
        assert a.slots[y].data == tree.slots[y].data.(fileSize := a.slots[y].data.fileSize);
      } else if y in below && y !in children[..i] {
        var x :| x in below && x < |tree.slots| && tree.slots[x].data.path in branches
                 && y in branches[tree.slots[x].data.path];
      }
    }
  }

  /** With a complete index, the recursive call on the next child directory cannot fail either. */
  /** The call on a pending child directory inherits completeness from its parent's call. */
  lemma ChildComplete(tree: Arena, cur: Id, branches: Branches, order: Option<Le>, init: seq<Node>, i: nat,
                      a: Arena, b: Branches, below: set<Id>)
    requires cur < |tree.slots| && PendingIndex(tree, branches)
    requires Progress(tree, cur, branches, init, a, b) && Deep(tree, cur, branches, order, i, a, b, below)
    requires var children := branches[tree.slots[cur].data.path];
      i < |children| && children[i] < |a.slots| && a.slots[children[i]].data.IsDir()
    ensures Complete(tree, branches, cur) ==> Complete(a, b, branches[tree.slots[cur].data.path][i])
  {
    if Complete(tree, branches, cur) {
      StillComplete(tree, cur, branches, order, init, i, a, b, below);
    }
  }

  lemma StillComplete(tree: Arena, cur: Id, branches: Branches, order: Option<Le>, init: seq<Node>, i: nat,
                      a: Arena, b: Branches, below: set<Id>)
    requires cur < |tree.slots| && PendingIndex(tree, branches)
    requires Progress(tree, cur, branches, init, a, b) && Deep(tree, cur, branches, order, i, a, b, below)
    requires Complete(tree, branches, cur)
    requires var children := branches[tree.slots[cur].data.path];
      i < |children| && children[i] < |a.slots| && a.slots[children[i]].data.IsDir()
    ensures Complete(a, b, branches[tree.slots[cur].data.path][i])
  {
    var path := tree.slots[cur].data.path;
    var c := branches[path][i];
    NextNotReached(tree, cur, branches, order, i, a, b, below);
    assert forall x :: 0 <= x < |a.slots| ==>
      a.slots[x].data == tree.slots[x].data.(fileSize := a.slots[x].data.fileSize);
    assert tree.slots[c].data.path in branches;
    assert tree.slots[c].data.path !in PathsOf(tree, below);
    forall q, y | q in b && y in b[q] && y < |a.slots| && a.slots[y].data.IsDir()
      ensures a.slots[y].data.path in b
    {
      assert y in branches[q];
      assert y !in below;
      assert tree.slots[y].data.path !in PathsOf(tree, below);
    }
  }

  /** Appending the children of `cur` leaves the directories reached below it as they were. */
  lemma FinishArranged(tree: Arena, cur: Id, branches: Branches, order: Option<Le>, init: seq<Node>,
                       assembled: Arena, b: Branches, below: set<Id>, a1: Arena, arranged: seq<Id>, a: Arena)
    requires cur < |tree.slots| && tree.slots[cur].data.path in branches && NotListed(branches, cur)
    requires |assembled.slots| == |tree.slots| && ChildrenArranged(tree, branches, order, below, assembled)
    requires |a1.slots| == |assembled.slots|
    requires forall x :: 0 <= x < |assembled.slots| && x != cur ==> a1.slots[x] == assembled.slots[x]
    requires Attaching(a1, cur, arranged, init, b, |arranged|, a)
    requires var children := branches[tree.slots[cur].data.path];
      InArena(children, a) && a.slots[cur].children == Arrange(children, a, order)
    ensures ChildrenArranged(tree, branches, order, below + {cur}, a)
  {
    AttachedData(a1, cur, arranged, init, b, |arranged|, a);
    forall x | x in below + {cur}
      ensures && x < |tree.slots| && tree.slots[x].data.path in branches
              && InArena(branches[tree.slots[x].data.path], a)
              && a.slots[x].children == Arrange(branches[tree.slots[x].data.path], a, order)
    {
      if x != cur {
        var ids := branches[tree.slots[x].data.path];
        assert a.slots[x] == a1.slots[x].(parent := a.slots[x].parent);
        assert SameData(ids, assembled, a);
        ArrangeFrame(ids, assembled, a, order);
      }
    }
  }

  /** The directories reached from `cur` are `cur` and those reached from its children. */
  lemma FinishReached(tree: Arena, cur: Id, branches: Branches, order: Option<Le>, init: seq<Node>,
                      assembled: Arena, b: Branches, below: set<Id>)
    requires cur < |tree.slots| && Progress(tree, cur, branches, init, assembled, b)
    requires Deep(tree, cur, branches, order, |branches[tree.slots[cur].data.path]|, assembled, b, below)
    ensures var D := below + {cur};
      && Closed(tree, branches, D) && Rooted(tree, branches, cur, D)
      && b == branches - PathsOf(tree, D)
  {
    var path := tree.slots[cur].data.path;
    var children := branches[path];
    assert children[..|children|] == children;
    FinishClosed(tree, cur, branches, below);
    FinishRooted(tree, cur, branches, below);
    FinishIndex(tree, cur, branches, b, below);
  }

  /** Once every pending directory of `cur` is reached, adding `cur` keeps the set closed. */
  lemma FinishClosed(tree: Arena, cur: Id, branches: Branches, below: set<Id>)
    requires cur < |tree.slots| && tree.slots[cur].data.path in branches
    requires Closed(tree, branches, below)
    requires forall y ::
      (y in branches[tree.slots[cur].data.path] && y < |tree.slots| && tree.slots[y].data.IsDir()) ==> y in below
    ensures Closed(tree, branches, below + {cur})
  {
  }

  /** Once every child is looked at, each reached directory hangs off `cur` or another reached one. */
  lemma FinishRooted(tree: Arena, cur: Id, branches: Branches, below: set<Id>)
    requires cur < |tree.slots| && tree.slots[cur].data.path in branches
    requires var children := branches[tree.slots[cur].data.path];
      && RootedBelow(tree, branches, children, |children|, below) && children[..|children|] == children
    ensures Rooted(tree, branches, cur, below + {cur})
  {
    var children := branches[tree.slots[cur].data.path];
    forall y | y in below
      ensures exists x :: x in below + {cur} && x < |tree.slots| && tree.slots[x].data.path in branches
                          && y in branches[tree.slots[x].data.path]
    {
      if y in children {
        assert cur in below + {cur};
      } else {
        var x :| x in below && x < |tree.slots| && tree.slots[x].data.path in branches
                 && y in branches[tree.slots[x].data.path];
      }
    }
  }

  /** The index left over has lost the slot of `cur` and of every reached directory. */
  lemma FinishIndex(tree: Arena, cur: Id, branches: Branches, b: Branches, below: set<Id>)
    requires cur < |tree.slots|
    requires b == branches - ({tree.slots[cur].data.path} + PathsOf(tree, below))
    ensures b == branches - PathsOf(tree, below + {cur})
  {
    assert PathsOf(tree, below + {cur}) == {tree.slots[cur].data.path} + PathsOf(tree, below);
  }

  // ---------------------------------------------------------------------------------------
  // Recording the size and appending the children.

  /** Setting the size of a detached node keeps the index and every other node's aggregate. */
  lemma StampKeeps(a: Arena, cur: Id, n: Node, init: seq<Node>, b: Branches)
    requires PendingIndex(a, b) && Aggregated(a, init)
    requires cur < |a.slots| && a.slots[cur].parent.None? && n.path == a.slots[cur].data.path
    ensures PendingIndex(SetData(a, cur, n), b) && AggregatedExcept(SetData(a, cur, n), init, cur)
  {
    var a1 := SetData(a, cur, n);
    SetDataLinked(a, cur, n);
    forall x | 0 <= x < |a1.slots| && x != cur
      ensures SizedAt(a1, init, x)
    {
      ChildrenInArena(a, x);
      var cs := a.slots[x].children;
      forall k | 0 <= k < |cs|
        ensures a1.slots[cs[k]].data == a.slots[cs[k]].data
      {
        assert ChildLink(a, x, cs[k]);
      }
      SumBytesFrame(a, a1, cs);
      assert SizedAt(a, init, x);
    }
    forall q, k | q in b && 0 <= k < |b[q]|
      ensures Pends(a1, q, b[q][k])
    {
      assert Pends(a, q, b[q][k]);
    }
  }

  /**
   * While the arranged children are appended to `cur`: the first `i` of them are its children,
   * the rest are still detached, and nothing else changed since the size was recorded except
   * the parents of the appended ones.
   */
  ghost predicate Attaching(a1: Arena, cur: Id, arranged: seq<Id>, init: seq<Node>, b: Branches, i: nat, a: Arena)
    requires cur < |a1.slots| && i <= |arranged|
  {
    && |a.slots| == |a1.slots|
    && PendingIndex(a, b) && a.slots[cur].data.path !in b
    && AggregatedExcept(a, init, cur)
    && Utils.NoDuplicates(arranged)
    && a.slots[cur] == a1.slots[cur].(children := arranged[..i])
    && (forall k :: 0 <= k < |arranged| ==>
          && arranged[k] < |a.slots| && arranged[k] != cur && NotListed(b, arranged[k])
          && ParentPath(a.slots[arranged[k]].data.path) == Some(a.slots[cur].data.path))
    && (forall k :: i <= k < |arranged| ==> a.slots[arranged[k]].parent.None?)
    && (forall x :: 0 <= x < |a.slots| && x != cur ==> a.slots[x] == a1.slots[x].(parent := a.slots[x].parent))
    && (forall x :: 0 <= x < |a.slots| && x != cur && x !in arranged ==> a.slots[x] == a1.slots[x])
  }

  /** Appends the arranged children to `current` in order, each as its last child so far. */
  method AppendChildren(stamped: Arena, current: Id, arranged: seq<Id>, ghost init: seq<Node>, ghost b: Branches)
    returns (a: Arena)
    requires current < |stamped.slots| && Attaching(stamped, current, arranged, init, b, 0, stamped)
    ensures Attaching(stamped, current, arranged, init, b, |arranged|, a)
  {
    a := stamped;
    for i := 0 to |arranged|
      invariant Attaching(stamped, current, arranged, init, b, i, a)
    {
      AttachStep(stamped, current, arranged, init, b, i, a);
      a := Append(a, current, arranged[i]);
    }
  }

  lemma AttachStart(tree: Arena, cur: Id, branches: Branches, init: seq<Node>, a: Arena, b: Branches,
                    a1: Arena, arranged: seq<Id>)
    requires cur < |tree.slots| && PendingIndex(tree, branches) && Progress(tree, cur, branches, init, a, b)
    requires InArena(branches[tree.slots[cur].data.path], a1)
    requires PendingIndex(a1, b) && AggregatedExcept(a1, init, cur)
    requires a1.slots[cur] == a.slots[cur].(data := a1.slots[cur].data) && a1.slots[cur].data.path == a.slots[cur].data.path
    requires |a1.slots| == |a.slots| && forall x :: 0 <= x < |a.slots| && x != cur ==> a1.slots[x] == a.slots[x]
    requires multiset(arranged) == multiset(branches[tree.slots[cur].data.path])
    ensures Attaching(a1, cur, arranged, init, b, 0, a1)
  {
    var path := tree.slots[cur].data.path;
    var children := branches[path];
    PermutationNoDuplicates(children, arranged);
    assert tree.slots[cur].children == [];
    forall k | 0 <= k < |arranged|
      ensures && arranged[k] < |a1.slots| && arranged[k] != cur && NotListed(b, arranged[k])
              && ParentPath(a1.slots[arranged[k]].data.path) == Some(a1.slots[cur].data.path)
              && a1.slots[arranged[k]].parent.None?
    {
      assert arranged[k] in multiset(children);
      var j :| 0 <= j < |children| && children[j] == arranged[k];
      assert Pends(a, path, children[j]);
    }
  }

  lemma AttachStep(a1: Arena, cur: Id, arranged: seq<Id>, init: seq<Node>, b: Branches, i: nat, a: Arena)
    requires cur < |a1.slots| && i < |arranged| && Attaching(a1, cur, arranged, init, b, i, a)
    ensures Attaching(a1, cur, arranged, init, b, i + 1, Append(a, cur, arranged[i]))
  {
    var c := arranged[i];
    var a' := Append(a, cur, c);
    AppendLinked(a, cur, c);
    assert arranged[..i + 1] == arranged[..i] + [c];
    forall x | 0 <= x < |a'.slots| && x != cur
      ensures SizedAt(a', init, x)
    {
      ChildrenInArena(a, x);
      SumBytesFrame(a, a', a.slots[x].children);
      assert SizedAt(a, init, x);
    }
    forall k | i + 1 <= k < |arranged|
      ensures a'.slots[arranged[k]].parent.None?
    {
      assert arranged[k] != c;
    }
    forall q, k | q in b && 0 <= k < |b[q]|
      ensures Pends(a', q, b[q][k])
    {
      assert Pends(a, q, b[q][k]);
      assert b[q][k] != c;
    }
  }

  /** Appending changes no node's data. */
  lemma AttachedData(a1: Arena, cur: Id, arranged: seq<Id>, init: seq<Node>, b: Branches, i: nat, a: Arena)
    requires cur < |a1.slots| && i <= |arranged| && Attaching(a1, cur, arranged, init, b, i, a)
    ensures forall x :: 0 <= x < |a.slots| ==> a.slots[x].data == a1.slots[x].data
  {
    forall x | 0 <= x < |a.slots|
      ensures a.slots[x].data == a1.slots[x].data
    {
      if x != cur {
        assert a.slots[x] == a1.slots[x].(parent := a.slots[x].parent);
      }
    }
  }

  /** A directory whose slot is still pending has no children yet, so it has its original size. */
  lemma StartSize(tree: Arena, cur: Id, branches: Branches, init: seq<Node>)
    requires PendingIndex(tree, branches) && Aggregated(tree, init)
    requires cur < |tree.slots| && tree.slots[cur].data.path in branches
    ensures tree.slots[cur].data == init[cur]
  {
    assert SizedAt(tree, init, cur);
    assert tree.slots[cur].children == [];
  }

  /** Once all children are appended, the directory's size is the total of its children's. */
  lemma FinishSize(cur: Id, children: seq<Id>, order: Option<Le>, init: seq<Node>, assembled: Arena,
                   b: Branches, dirSize: nat, a1: Arena, arranged: seq<Id>, a: Arena)
    requires cur < |assembled.slots| && InArena(children, assembled)
    requires |init| == |assembled.slots| && dirSize == SumBytes(assembled, children) && assembled.slots[cur].data == init[cur]
    requires a1 == if dirSize > 0 then SetData(assembled, cur, assembled.slots[cur].data.WithFileSize(dirSize)) else assembled
    requires forall x :: 0 <= x < |assembled.slots| && x != cur ==> a1.slots[x] == assembled.slots[x]
    requires arranged == Arrange(children, a1, order)
    requires Attaching(a1, cur, arranged, init, b, |arranged|, a)
    ensures Aggregated(a, init) && InArena(a.slots[cur].children, a)
    ensures a.slots[cur].children == Arrange(children, a, order)
    ensures a.slots[cur].data == Stamp(init[cur], SumBytes(a, a.slots[cur].children))
  {
    assert arranged[..|arranged|] == arranged;
    AttachedData(a1, cur, arranged, init, b, |arranged|, a);
    assert cur !in children by {
      forall k | 0 <= k < |arranged|
        ensures arranged[k] != cur
      {
      }
      assert cur !in multiset(arranged);
    }
    FinishSum(cur, children, order, assembled, a1, arranged, a);
    ChildrenInArena(a, cur);
    assert SizedAt(a, init, cur);
  }

  /**
   * Neither stamping `cur`, which is not among its own children, nor arranging and attaching
   * them changes their order or their total size.
   */
  lemma FinishSum(cur: Id, children: seq<Id>, order: Option<Le>, assembled: Arena, a1: Arena, arranged: seq<Id>,
                  a: Arena)
    requires cur < |assembled.slots| && InArena(children, assembled) && cur !in children
    requires |a1.slots| == |assembled.slots|
    requires forall x :: 0 <= x < |assembled.slots| && x != cur ==> a1.slots[x] == assembled.slots[x]
    requires |a.slots| == |a1.slots| && forall x :: 0 <= x < |a.slots| ==> a.slots[x].data == a1.slots[x].data
    requires arranged == Arrange(children, a1, order)
    ensures InArena(arranged, a) && arranged == Arrange(children, a, order)
    ensures SumBytes(a, arranged) == SumBytes(assembled, children)
  {
    SumBytesFrame(assembled, a1, children);
    assert SameData(children, a1, a);
    ArrangeFrame(children, a1, a, order);
    if order.Some? {
      SumBytesSort(children, a1, order.value);
    }
    SumBytesFrame(a1, a, arranged);
  }

  /** Only `cur` and its pending children have changed since the start. */
  lemma FinishFrame(tree: Arena, cur: Id, branches: Branches, init: seq<Node>, assembled: Arena,
                    b: Branches, a1: Arena, arranged: seq<Id>, a: Arena)
    requires cur < |tree.slots| && Progress(tree, cur, branches, init, assembled, b)
    requires |a1.slots| == |assembled.slots|
    requires forall x :: 0 <= x < |assembled.slots| && x != cur ==> a1.slots[x] == assembled.slots[x]
    requires multiset(arranged) == multiset(branches[tree.slots[cur].data.path])
    requires Attaching(a1, cur, arranged, init, b, |arranged|, a)
    ensures forall x :: 0 <= x < |tree.slots| && x != cur && NotListed(branches, x) ==> a.slots[x] == tree.slots[x]
  {
    var children := branches[tree.slots[cur].data.path];
    forall x | 0 <= x < |tree.slots| && x != cur && NotListed(branches, x)
      ensures a.slots[x] == tree.slots[x]
    {
      assert x !in children;
      assert x !in multiset(arranged);
    }
  }

  /**
   * What attaching establishes about `cur` itself and about everything outside its slot: its
   * children are its pending ids, arranged; its size is their total; it is still detached; only
   * sizes changed elsewhere.
   */
  ghost predicate ShallowDone(tree: Arena, cur: Id, branches: Branches, order: Option<Le>, init: seq<Node>,
                              a: Arena, b: Branches)
    requires cur < |tree.slots|
  {
    && |a.slots| == |tree.slots| && PendingIndex(a, b) && Aggregated(a, init)
    && tree.slots[cur].data.path in branches
    && InArena(branches[tree.slots[cur].data.path], a)
    && a.slots[cur].children == Arrange(branches[tree.slots[cur].data.path], a, order)
    && InArena(a.slots[cur].children, a)
    && a.slots[cur].data == Stamp(tree.slots[cur].data, SumBytes(a, a.slots[cur].children))
    && a.slots[cur].parent.None? && a.slots[cur].removed == tree.slots[cur].removed
    && SameEntries(tree, a)
    && (forall x :: 0 <= x < |tree.slots| && x != cur && NotListed(branches, x) ==> a.slots[x] == tree.slots[x])
  }

  /** What attaching establishes about the directories `D` reached from `cur`. */
  ghost predicate DeepDone(tree: Arena, cur: Id, branches: Branches, order: Option<Le>, a: Arena, b: Branches,
                           D: set<Id>)
  {
    && cur in D && ChildrenArranged(tree, branches, order, D, a)
    && Closed(tree, branches, D) && Rooted(tree, branches, cur, D)
    && b == branches - PathsOf(tree, D)
  }

  /** The pieces of `Assembled`, put together. */
  lemma Finish(tree: Arena, cur: Id, branches: Branches, order: Option<Le>, init: seq<Node>,
               a: Arena, b: Branches, D: set<Id>)
    requires cur < |tree.slots|
    requires ShallowDone(tree, cur, branches, order, init, a, b) && DeepDone(tree, cur, branches, order, a, b, D)
    ensures Assembled(tree, cur, branches, order, init, a, b, D)
    ensures InArena(a.slots[cur].children, a)
    ensures a.slots[cur].data == Stamp(tree.slots[cur].data, SumBytes(a, a.slots[cur].children))
  {
  }

  /** Recording the size and appending the children changed nothing but sizes and `cur`'s children. */
  lemma FinishEntries(tree: Arena, cur: Id, assembled: Arena, dirSize: nat, a1: Arena, arranged: seq<Id>,
                      init: seq<Node>, b: Branches, a: Arena)
    requires cur < |tree.slots| && SameEntries(tree, assembled) && assembled.slots[cur] == tree.slots[cur]
    requires a1 == if dirSize > 0 then SetData(assembled, cur, assembled.slots[cur].data.WithFileSize(dirSize)) else assembled
    requires Attaching(a1, cur, arranged, init, b, |arranged|, a)
    ensures SameEntries(tree, a) && a.slots[cur].parent == tree.slots[cur].parent
    ensures a.slots[cur].removed == tree.slots[cur].removed
  {
    AttachedData(a1, cur, arranged, init, b, |arranged|, a);
    forall x | 0 <= x < |tree.slots|
      ensures a.slots[x].data == tree.slots[x].data.(fileSize := a.slots[x].data.fileSize)
    {
      assert a.slots[x].data == a1.slots[x].data;
      assert assembled.slots[x].data == tree.slots[x].data.(fileSize := assembled.slots[x].data.fileSize);
    }
  }

  // ---------------------------------------------------------------------------------------

  /** Extending a prefix by one element. */
  lemma PrefixStep<T>(s: seq<T>, i: nat)
    requires i < |s|
    ensures s[..i + 1] == s[..i] + [s[i]]
    ensures forall y :: y in s[..i + 1] <==> y in s[..i] || y == s[i]
  {
    assert s[..i + 1] == s[..i] + [s[i]];
  }

  lemma {:induction false} NoDuplicatesCount<T>(s: seq<T>, x: T)
    requires Utils.NoDuplicates(s)
    ensures multiset(s)[x] <= 1
  {
    if s != [] {
      assert s == [s[0]] + s[1..];
      NoDuplicatesCount(s[1..], x);
      assert s[0] !in s[1..];
    }
  }

  /** A permutation of a sequence without repetitions has none either. */
  lemma PermutationNoDuplicates<T>(s: seq<T>, t: seq<T>)
    requires multiset(s) == multiset(t) && Utils.NoDuplicates(s)
    ensures Utils.NoDuplicates(t)
  {
    forall i, j | 0 <= i < j < |t|
      ensures t[i] != t[j]
    {
      NoDuplicatesCount(s, t[i]);
      assert t == t[..i] + [t[i]] + t[i + 1..j] + [t[j]] + t[j + 1..];
      assert multiset(t)[t[i]] >= 1 + (if t[j] == t[i] then 1 else 0);
    }
  }

  // ---------------------------------------------------------------------------------------
  // What assembly promises about each directory.

  /**
   * After `assemble_tree` on `cur`, its children are exactly its pending children: in discovery
   * order without a sort order, and otherwise sorted by the comparator, with children that
   * compare equal kept in discovery order. Its size is the sum of its children's sizes, set
   * only when positive.
   */
  lemma AssembledChildren(a: Arena, cur: Id, b: Branches, order: Option<Le>, init: seq<Node>,
                          a': Arena, b': Branches, D: set<Id>)
    requires cur < |a.slots| && |init| == |a.slots| && Assembled(a, cur, b, order, init, a', b', D)
    ensures var (pending, children) := (b[a.slots[cur].data.path], a'.slots[cur].children);
      && InArena(children, a')
      && multiset(children) == multiset(pending)
      && (order.None? ==> children == pending)
      && (order.Some? && TotalPreorderOn(pending, a', order.value) ==>
            && Sorted(children, a', order.value)
            && forall c :: c in pending ==> Equivalents(children, a', order.value, c) == Equivalents(pending, a', order.value, c))
      && a'.slots[cur].data == Stamp(init[cur], SumBytes(a', children))
  {
    var pending := b[a.slots[cur].data.path];
    assert a'.slots[cur].children == Arrange(pending, a', order);
    assert SizedAt(a', init, cur);
    if order.Some? && TotalPreorderOn(pending, a', order.value) {
      SortIdsSorted(pending, a', order.value);
      forall c | c in pending
        ensures Equivalents(SortIds(pending, a', order.value), a', order.value, c) == Equivalents(pending, a', order.value, c)
      {
        SortIdsStable(pending, a', order.value, c);
      }
    }
  }

  // ---------------------------------------------------------------------------------------
  // An example: a root `r` holding a directory `d`, which holds a 5-byte file `f`.

  function SampleData(): seq<Node> {
    [Node(["r"], 0, Dir, None, None), Node(["r", "d"], 1, Dir, None, None), Node(["r", "d", "f"], 2, File, Some(5), None)]
  }

  /** The three nodes as the consumer loop leaves them: detached, `d` pending under `r`, `f` under `d`. */
  function Sample(): Arena {
    var n := SampleData();
    Arena([Slot(n[0], None, [], false), Slot(n[1], None, [], false), Slot(n[2], None, [], false)])
  }

  function SampleIndex(): Branches {
    map[["r"] := [1], ["r", "d"] := [2]]
  }

  /** The sample is a consistent starting point for assembly from `r`. */
  lemma SampleConsistent()
    ensures PendingIndex(Sample(), SampleIndex()) && Aggregated(Sample(), SampleData())
    ensures NotListed(SampleIndex(), 0) && Sample().slots[0].parent.None?
  {
    var a := Sample();
    assert ["r", "d"][..1] == ["r"] && ["r", "d", "f"][..2] == ["r", "d"];
    assert Pends(a, ["r"], 1) && Pends(a, ["r", "d"], 2);
    SampleAggregated();
  }

  lemma SampleAggregated()
    ensures Aggregated(Sample(), SampleData())
  {
    var a := Sample();
    forall x | 0 <= x < 3
      ensures SizedAt(a, SampleData(), x)
    {
      assert a.slots[x].children == [];
    }
  }

  /** The sample is complete, so assembling it from `r` cannot fail. */
  lemma SampleComplete()
    ensures Complete(Sample(), SampleIndex(), 0)
  {
    var a := Sample();
    var b := SampleIndex();
    assert forall x :: 0 <= x < 3 && a.slots[x].data.IsDir() ==> a.slots[x].data.path in b;
  }

  /** The directories reached from `r` in the sample are `r` and `d`. */
  lemma SampleReached(D: set<Id>)
    requires 0 in D && Closed(Sample(), SampleIndex(), D) && Rooted(Sample(), SampleIndex(), 0, D)
    ensures D == {0, 1} && PathsOf(Sample(), D) == {["r"], ["r", "d"]}
  {
    var a := Sample();
    var b := SampleIndex();
    assert 1 in b[a.slots[0].data.path];
    assert 1 in D;
    forall y | y in D
      ensures y == 0 || y == 1
    {
      if y != 0 {
        assert a.slots[y].data.IsDir();
      }
    }
  }

  /** In the sample, `f` cannot have children: no node's path extends its own. */
  lemma SampleLeaf(a': Arena)
    requires Linked(a') && SameEntries(Sample(), a')
    ensures forall c :: c !in a'.slots[2].children
  {
    var cs := a'.slots[2].children;
    forall c | c in cs
      ensures c < |a'.slots| && |a'.slots[c].data.path| == 4
    {
      var k :| 0 <= k < |cs| && cs[k] == c;
      assert ChildLink(a', 2, cs[k]);
      var p := a'.slots[c].data.path;
      assert p[..|p| - 1] == a'.slots[2].data.path;
    }
    assert forall y :: 0 <= y < |a'.slots| ==> |a'.slots[y].data.path| == |Sample().slots[y].data.path| <= 3;
  }

  /** With `f` under `d` and `d` under `r`, both directories get `f`'s size. */
  lemma SampleSizes(a': Arena)
    requires SameEntries(Sample(), a') && Aggregated(a', SampleData())
    requires a'.slots[0].children == [1] && a'.slots[1].children == [2]
    ensures a'.slots[0].data.fileSize == Some(5) && a'.slots[1].data.fileSize == Some(5)
  {
    var n := SampleData();
    SampleLeaf(a');
    assert multiset(a'.slots[2].children) == multiset{};
    assert |a'.slots[2].children| == |multiset(a'.slots[2].children)| == 0;
    assert SizedAt(a', n, 2);
    assert a'.slots[2].data == n[2];
    assert SumBytes(a', [2]) == 5;
    assert SizedAt(a', n, 1);
    assert a'.slots[1].data == n[1].WithFileSize(5);
    assert SumBytes(a', [1]) == 5;
    assert SizedAt(a', n, 0);
  }

  /**
   * Whatever satisfies `Assembled` for the sample has assembled `d` too: `d` has `f` as its child
   * and its size, `r` has `d` as its child and the same size, and both slots left the index.
   */
  lemma SampleAssembled(order: Option<Le>, a': Arena, b': Branches, D: set<Id>)
    requires Assembled(Sample(), 0, SampleIndex(), order, SampleData(), a', b', D)
    ensures D == {0, 1} && b' == map[]
    ensures a'.slots[0].children == [1] && a'.slots[1].children == [2]
    ensures a'.slots[0].data.fileSize == Some(5) && a'.slots[1].data.fileSize == Some(5)
  {
    SampleReached(D);
    var b := SampleIndex();
    assert b - {["r"], ["r", "d"]} == map[];
    assert a'.slots[1].children == Arrange([2], a', order);
    assert a'.slots[0].children == Arrange([1], a', order);
    SampleSizes(a');
  }
}
