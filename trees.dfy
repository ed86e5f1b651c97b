/**
 * The `Tree` value and its construction: the collected entries are assembled from the root
 * and, when pruning is configured, empty directories are removed afterwards.
 */
module Trees {
  import opened Wrappers
  import opened Nodes
  import opened IndexTree
  import opened Collect
  import opened SiblingSort
  import opened Assemble
  import opened Prune

  /**
   * The settings the tree itself reads: the maximum depth to display, whether to prune empty
   * directories, and the comparator of the configured sort order, if any.
   */
  datatype Context = Context(level: Option<Usize>, prune: bool, order: Option<Le>)

  /** The arena of nodes, the id of the root directory and the settings. */
  datatype Tree = Tree(inner: Arena, root: Id, ctx: Context)

  /** `Tree::level`: the configured depth limit; without one, `usize::MAX`, which no depth exceeds. */
  function Level(t: Tree): (l: Usize)
    ensures t.ctx.level.Some? ==> l == t.ctx.level.value
    ensures t.ctx.level.None? ==> l == USIZE_LIMIT - 1
  {
    t.ctx.level.GetOr(USIZE_LIMIT - 1)
  }

  /** The node data of every id, as collected. */
  function DataOf(a: Arena): (init: seq<Node>)
    ensures |init| == |a.slots| && forall x :: 0 <= x < |a.slots| ==> init[x] == a.slots[x].data
  {
    seq(|a.slots|, i requires 0 <= i < |a.slots| => a.slots[i].data)
  }

  /** Before assembly no node has children, so every node trivially carries its aggregate size. */
  lemma DetachedAggregated(a: Arena)
    requires Detached(a)
    ensures Aggregated(a, DataOf(a))
  {
    DetachedLinked(a);
    forall x | 0 <= x < |a.slots|
      ensures SizedAt(a, DataOf(a), x)
    {
      assert a.slots[x].children == [];
    }
  }

  /**
   * What `traverse` returns after the consumer loop: the collected arena assembled from the
   * root, then pruned if configured.
   */
  ghost predicate Built(c: Collection, ctx: Context, a: Arena)
    requires c.root < |c.arena.slots|
  {
    exists a', b', D ::
      && Assembled(c.arena, c.root, c.branches, ctx.order, DataOf(c.arena), a', b', D)
      && a == (if ctx.prune then Pruned(a', EmptyDirs(a', c.root)) else a')
  }

  /**
   * In a built tree the root's children are among its pending children; without pruning they
   * are all of them, each once, and every directory carries the aggregate size of its children.
   */
  lemma BuiltRoot(c: Collection, ctx: Context, a: Arena)
    requires c.root < |c.arena.slots| && Built(c, ctx, a)
    ensures var pending := c.branches[c.arena.slots[c.root].data.path];
      && (forall x :: x in a.slots[c.root].children ==> x in pending)
      && (!ctx.prune ==> multiset(a.slots[c.root].children) == multiset(pending) && Aggregated(a, DataOf(c.arena)))
  {
    var a', b', D :| Assembled(c.arena, c.root, c.branches, ctx.order, DataOf(c.arena), a', b', D)
                      && a == (if ctx.prune then Pruned(a', EmptyDirs(a', c.root)) else a');
    AssembledChildren(c.arena, c.root, c.branches, ctx.order, DataOf(c.arena), a', b', D);
    if ctx.prune {
      PrunedChildrenWithin(a', EmptyDirs(a', c.root), c.root);
    }
    var pending := c.branches[c.arena.slots[c.root].data.path];
    forall x | x in a'.slots[c.root].children
      ensures x in pending
    {
      assert x in multiset(a'.slots[c.root].children);
    }
  }

  /**
   * The root itself is among the descendants the prune pass looks at, so the root of a built
   * tree is removed exactly when pruning is configured and the root had no pending children.
   */
  lemma BuiltRootRemoved(c: Collection, ctx: Context, a: Arena)
    requires Detached(c.arena) && RootRecorded(c.arena, c.branches, c.root) && Built(c, ctx, a)
    ensures a.slots[c.root].removed <==> ctx.prune && c.branches[c.arena.slots[c.root].data.path] == []
  {
    var a', b', D :| Assembled(c.arena, c.root, c.branches, ctx.order, DataOf(c.arena), a', b', D)
                      && a == (if ctx.prune then Pruned(a', EmptyDirs(a', c.root)) else a');
    AssembledChildren(c.arena, c.root, c.branches, ctx.order, DataOf(c.arena), a', b', D);
    var pending := c.branches[c.arena.slots[c.root].data.path];
    assert a'.slots[c.root].children == [] <==> pending == [];
    assert a'.slots[c.root].data.IsDir();
    if ctx.prune {
      PrunedRoot(a', c.root);
    }
  }

  /** Pruning only takes children away. */
  lemma PrunedChildrenWithin(a: Arena, gone: set<Id>, x: Id)
    requires x < |a.slots|
    ensures forall y :: y in Pruned(a, gone).slots[x].children ==> y in a.slots[x].children
  {
  }

  /**
   * A successful collection whose directories all have distinct paths is complete from the root:
   * the root and every pending directory have a slot, so assembly cannot hit a missing one.
   */
  lemma CollectedComplete(msgs: seq<Message>)
    requires Collected(msgs).Ok? && DistinctDirPaths(Collected(msgs).value.arena)
    ensures var c := Collected(msgs).value; Complete(c.arena, c.branches, c.root)
  {
    CollectedConsistent(msgs);
    CollectedDirSlots(msgs);
  }

  /**
   * A walk of a root `r` holding a 3-byte file `f` meets the condition under which the traversal
   * succeeds: it is collected, and its only directory has a path of its own.
   */
  lemma SampleTraversable()
    ensures var msgs := [Ongoing(Node(["r"], 0, Dir, None, None)), Ongoing(Node(["r", "f"], 1, File, Some(3), None))];
      && Collected(msgs).Ok? && DistinctDirPaths(Collected(msgs).value.arena)
  {
    var msgs := [Ongoing(Node(["r"], 0, Dir, None, None)), Ongoing(Node(["r", "f"], 1, File, Some(3), None))];
    var s1 := Step(START, msgs[0].node).value;
    assert ["r", "f"][..1] == ["r"];
    var s2 := Step(s1, msgs[1].node).value;
    assert s2.arena.slots[1].data.kind == File;
  }

  /**
   * `Tree::traverse` once the channel has delivered `msgs`: the consumer loop, the root check,
   * `assemble_tree` from the root, and `prune_directories` when `ctx.prune` is set. Errors of
   * the loop and of the root check come out unchanged; a missing pending-children slot during
   * assembly is `BranchMissing`, which cannot happen when no two collected directories share a
   * path.
   */
  method Traverse(msgs: seq<Message>, ctx: Context) returns (r: Result<(Arena, Id), Error>)
    ensures Collected(msgs).Err? ==> r == Err(Collected(msgs).error)
    ensures Collected(msgs).Ok? && DistinctDirPaths(Collected(msgs).value.arena) ==> r.Ok?
    ensures r.Err? ==> r.error == BranchMissing || (Collected(msgs).Err? && r.error == Collected(msgs).error)
    ensures r.Ok? ==>
      && Collected(msgs).Ok?
      && var c := Collected(msgs).value;
      && r.value.1 == c.root && c.root < |c.arena.slots|
      && Linked(r.value.0) && |r.value.0.slots| == |c.arena.slots|
      && Built(c, ctx, r.value.0)
  {
    var collected := Consume(msgs);
    if collected.Err? {
      return Err(collected.error);
    }
    var c := collected.value;
    CollectedConsistent(msgs);
    DetachedAggregated(c.arena);
    if DistinctDirPaths(c.arena) {
      CollectedComplete(msgs);
    }
    var assembled;
    ghost var reached;
    assembled, reached := AssembleTree(c.arena, c.root, c.branches, ctx.order, DataOf(c.arena));
    if assembled.Err? {
      return Err(assembled.error);
    }
    var (tree, branches) := assembled.value;
    if ctx.prune {
      tree := PruneDirectories(c.root, tree);
    }
    return Ok((tree, c.root));
  }

  /** `Tree::init`: the traversal, wrapped with its settings into a `Tree`. */
  method Init(msgs: seq<Message>, ctx: Context) returns (r: Result<Tree, Error>)
    ensures Collected(msgs).Err? ==> r == Err(Collected(msgs).error)
    ensures Collected(msgs).Ok? && DistinctDirPaths(Collected(msgs).value.arena) ==> r.Ok?
    ensures r.Ok? ==>
      && Collected(msgs).Ok? && r.value.ctx == ctx && r.value.root == Collected(msgs).value.root
      && Linked(r.value.inner) && r.value.root < |r.value.inner.slots|
      && r.value.root < |Collected(msgs).value.arena.slots|
      && Built(Collected(msgs).value, ctx, r.value.inner)
  {
    var traversed := Traverse(msgs, ctx);
    if traversed.Err? {
      return Err(traversed.error);
    }
    var (inner, root) := traversed.value;
    return Ok(Tree(inner, root, ctx));
  }
}
