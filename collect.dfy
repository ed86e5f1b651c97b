/**
 * The consumer side of the traversal: discovered entries arrive one message at a time and are
 * turned into detached arena nodes, a path-keyed index of pending children and a set of seen
 * inodes. The channel is replaced by the finite sequence of messages it delivers; the loop stops
 * at `Done` or at the end of the sequence (the channel closing).
 */
module Collect {
  import opened Wrappers
  import opened Nodes
  import opened IndexTree
  import Utils

  /** The pending-children index: directory path to the ids collected for it so far. */
  type Branches = map<Path, seq<Id>>

  /** `(inode, device)`, as returned by `Inode::properties`. */
  type InodeKey = (nat, nat)

  datatype Message = Ongoing(node: Node) | Done

  datatype State = State(arena: Arena, branches: Branches, inodes: set<InodeKey>, rootId: Option<Id>)

  const START: State := State(Arena([]), map[], {}, None)

  /** The depth-0 directory: it becomes the root and bypasses everything else. */
  predicate IsRoot(n: Node) {
    n.IsDir() && n.depth == 0
  }

  /** An entry subject to hard-link deduplication. */
  predicate IsHardLinked(n: Node) {
    n.inode.Some? && n.inode.value.nlink > 1
  }

  /** One pass of the consumer loop body for `Ongoing(n)`. */
  function Step(s: State, n: Node): Result<State, Error> {
    var branches := if n.IsDir() && n.path !in s.branches then s.branches[n.path := []] else s.branches;
    if IsRoot(n) then
      Ok(State(NewNode(s.arena, n), branches, s.inodes, Some(|s.arena.slots|)))
    else if IsHardLinked(n) && n.inode.value.Properties() in s.inodes then
      Ok(s.(branches := branches))
    else
      var inodes := if IsHardLinked(n) then s.inodes + {n.inode.value.Properties()} else s.inodes;
      match ParentPath(n.path)
      case None => Err(ExpectedParent)
      case Some(parent) =>
        var id := |s.arena.slots|;
        var branches' := if parent in branches then branches[parent := branches[parent] + [id]]
                         else branches[parent := []];
        Ok(State(NewNode(s.arena, n), branches', inodes, s.rootId))
  }

  /** The loop: every message up to the first `Done`, stopping at the first error. */
  function Run(s: State, msgs: seq<Message>): Result<State, Error>
    decreases |msgs|
  {
    if msgs == [] || msgs[0].Done? then Ok(s)
    else
      match Step(s, msgs[0].node)
      case Err(e) => Err(e)
      case Ok(t) => Run(t, msgs[1..])
  }

  datatype Collection = Collection(arena: Arena, branches: Branches, root: Id)

  /** The loop followed by `root_id.ok_or(Error::MissingRoot)`. */
  function Collected(msgs: seq<Message>): Result<Collection, Error> {
    match Run(START, msgs)
    case Err(e) => Err(e)
    case Ok(s) =>
      if s.rootId.None? then Err(MissingRoot) else Ok(Collection(s.arena, s.branches, s.rootId.value))
  }

  /** The consumer loop of `Tree::traverse` up to the root check. */
  method Consume(msgs: seq<Message>) returns (r: Result<Collection, Error>)
    ensures r == Collected(msgs)
  {
    var tree := Arena([]);
    var branches: Branches := map[];
    var inodes: set<InodeKey> := {};
    var rootId: Option<Id> := None;
    var i := 0;
    while i < |msgs| && msgs[i].Ongoing?
      invariant 0 <= i <= |msgs|
      invariant Run(START, msgs) == Run(State(tree, branches, inodes, rootId), msgs[i..])
    {
      var node := msgs[i].node;
      ghost var before := State(tree, branches, inodes, rootId);
      assert msgs[i..][1..] == msgs[i + 1..];
      assert Run(before, msgs[i..]) == match Step(before, node) case Err(e) => Err(e) case Ok(t) => Run(t, msgs[i + 1..]);
      i := i + 1;
      if node.IsDir() {
        var nodePath := node.path;
        if nodePath !in branches {
          branches := branches[nodePath := []];
        }
        if node.depth == 0 {
          rootId := Some(|tree.slots|);
          tree := NewNode(tree, node);
          assert Step(before, node) == Ok(State(tree, branches, inodes, rootId));
          continue;
        }
      }
      if node.inode.Some? {
        var inode := node.inode.value;
        if inode.nlink > 1 {
          var inserted := inode.Properties() !in inodes;
          inodes := inodes + {inode.Properties()};
          if !inserted {
            assert inodes == before.inodes;
            assert Step(before, node) == Ok(State(tree, branches, inodes, rootId));
            continue;
          }
        }
      }
      var parentPath := ParentPath(node.path);
      if parentPath.None? {
        return Err(ExpectedParent);
      }
      var parent := parentPath.value;
      var nodeId := |tree.slots|;
      tree := NewNode(tree, node);
      if parent in branches {
        branches := branches[parent := branches[parent] + [nodeId]];
      } else {
        branches := branches[parent := []];
      }
      assert Step(before, node) == Ok(State(tree, branches, inodes, rootId));
    }
    if rootId.None? {
      return Err(MissingRoot);
    }
    return Ok(Collection(tree, branches, rootId.value));
  }

  // ---------------------------------------------------------------------------------------
  // What one message does.

  /**
   * A directory message creates an empty slot for its own path only if there is none; an
   * existing slot, possibly holding children already, is left as it was.
   */
  lemma StepDirectorySlot(s: State, n: Node)
    requires n.IsDir() && Step(s, n).Ok?
    ensures var t := Step(s, n).value;
      n.path in t.branches && t.branches[n.path] == if n.path in s.branches then s.branches[n.path] else []
  {
  }

  /**
   * The depth-0 directory becomes the root: a new node whose id is recorded as the root, and
   * no pending list gains an id.
   */
  lemma StepRoot(s: State, n: Node)
    requires IsRoot(n)
    ensures Step(s, n).Ok?
    ensures var t := Step(s, n).value;
      && t.rootId == Some(|s.arena.slots|)
      && t.arena.slots == s.arena.slots + [Slot(n, None, [], false)]
      && t.inodes == s.inodes
      && t.branches.Keys == s.branches.Keys + {n.path}
      && forall q :: q in s.branches ==> t.branches[q] == s.branches[q]
  {
  }

  /** A hard link whose inode was seen before creates no node and records nothing. */
  lemma StepDuplicateLinkDropped(s: State, n: Node)
    requires !IsRoot(n) && IsHardLinked(n) && n.inode.value.Properties() in s.inodes
    ensures Step(s, n).Ok?
    ensures var t := Step(s, n).value;
      t.arena == s.arena && t.inodes == s.inodes && t.rootId == s.rootId
      && (!n.IsDir() ==> t.branches == s.branches)
  {
  }

  /** The first hard link of an inode is recorded and, if it has a parent path, kept. */
  lemma StepFirstLinkKept(s: State, n: Node)
    requires !IsRoot(n) && IsHardLinked(n) && n.inode.value.Properties() !in s.inodes
    ensures Step(s, n).Ok? <==> n.path != []
    ensures Step(s, n).Ok? ==> var t := Step(s, n).value;
      t.arena.slots == s.arena.slots + [Slot(n, None, [], false)]
      && t.inodes == s.inodes + {n.inode.value.Properties()}
  {
  }

  /** An entry that is not a hard link is never dropped by the inode check. */
  lemma StepUnlinkedKept(s: State, n: Node)
    requires !IsHardLinked(n)
    ensures Step(s, n).Ok? <==> IsRoot(n) || n.path != []
    ensures Step(s, n).Ok? ==> Step(s, n).value.arena.slots == s.arena.slots + [Slot(n, None, [], false)]
    ensures Step(s, n).Ok? ==> Step(s, n).value.inodes == s.inodes
  {
  }

  /**
   * A non-root entry that is not a dropped duplicate and has no parent path aborts with
   * `ExpectedParent`. Otherwise its new id is appended to the parent's slot if there is one;
   * if there is none, an empty slot is created and the id is not recorded anywhere.
   */
  lemma StepParentSlot(s: State, n: Node)
    requires !IsRoot(n) && !(IsHardLinked(n) && n.inode.value.Properties() in s.inodes)
    ensures n.path == [] <==> Step(s, n) == Err(ExpectedParent)
    ensures n.path != [] ==>
      var t := Step(s, n).value;
      var parent := n.path[..|n.path| - 1];
      var id := |s.arena.slots|;
      && parent in t.branches
      && (parent in s.branches ==> t.branches[parent] == s.branches[parent] + [id])
      && (parent !in s.branches ==> t.branches[parent] == [])
      && (forall q :: q in s.branches && q != parent ==> t.branches[q] == s.branches[q])
  {
  }

  /**
   * An entry that arrives before any message for its parent directory is collected as a node
   * that no slot lists, so assembly never attaches it: here the file `r/d/f` comes before
   * `r/d`.
   */
  lemma EarlyChildUnlisted()
    ensures var msgs := [
        Ongoing(Node(["r"], 0, Dir, None, None)),
        Ongoing(Node(["r", "d", "f"], 2, File, Some(1), None)),
        Ongoing(Node(["r", "d"], 1, Dir, None, None))];
      && Collected(msgs).Ok?
      && var c := Collected(msgs).value;
      && |c.arena.slots| == 3 && c.arena.slots[1].data.path == ["r", "d", "f"]
      && forall q :: q in c.branches ==> 1 !in c.branches[q]
  {
    var msgs := [
        Ongoing(Node(["r"], 0, Dir, None, None)),
        Ongoing(Node(["r", "d", "f"], 2, File, Some(1), None)),
        Ongoing(Node(["r", "d"], 1, Dir, None, None))];
    var s1 := Step(START, msgs[0].node).value;
    assert s1.branches == map[["r"] := []];
    var s2 := Step(s1, msgs[1].node).value;
    assert ["r", "d", "f"][..2] == ["r", "d"];
    assert s2.branches == map[["r"] := [], ["r", "d"] := []];
    assert ["r", "d"] in s2.branches && ["r"] in s2.branches;
    assert ParentPath(["r", "d"]) == Some(["r"]) by {
      assert ["r", "d"][..1] == ["r"];
    }
    var s3 := Step(s2, msgs[2].node).value;
    assert s3.branches == s2.branches[["r"] := s2.branches[["r"]] + [2]];
    assert s2.branches[["r"]] == [] && s2.branches[["r", "d"]] == [];
    assert s3.branches[["r"]] == [2] && s3.branches[["r", "d"]] == [];
    assert s3.branches.Keys == {["r"], ["r", "d"]};
    assert msgs[1..][1..][1..] == [];
    assert Run(START, msgs) == Ok(s3);
  }

  // ---------------------------------------------------------------------------------------
  // What the whole loop keeps.

  /** `c` is a detached node waiting in the slot of `q`, which is its parent path. */
  ghost predicate Pends(a: Arena, q: Path, c: Id) {
    c < |a.slots| && a.slots[c].parent.None? && ParentPath(a.slots[c].data.path) == Some(q)
  }

  /**
   * The arena and the pending-children index agree: every listed id is a detached node whose
   * parent path is the slot's key, no slot lists an id twice, and a node that already has
   * children no longer has a slot.
   */
  ghost predicate PendingIndex(a: Arena, b: Branches) {
    && Linked(a)
    && (forall q, k :: q in b && 0 <= k < |b[q]| ==> Pends(a, q, b[q][k]))
    && (forall q :: q in b ==> Utils.NoDuplicates(b[q]))
    && (forall x :: 0 <= x < |a.slots| && a.slots[x].children != [] ==> a.slots[x].data.path !in b)
  }

  /** No node is linked to any other yet, and none is removed. */
  ghost predicate Detached(a: Arena) {
    forall x :: 0 <= x < |a.slots| ==>
      a.slots[x].parent.None? && a.slots[x].children == [] && !a.slots[x].removed
  }

  /** The root is a depth-0 directory with a slot of its own, and no slot lists it. */
  ghost predicate RootRecorded(a: Arena, b: Branches, root: Id) {
    && root < |a.slots| && IsRoot(a.slots[root].data) && a.slots[root].data.path in b
    && forall q, k :: q in b && 0 <= k < |b[q]| ==> b[q][k] != root
  }

  ghost predicate Consistent(s: State) {
    && Detached(s.arena)
    && PendingIndex(s.arena, s.branches)
    && (s.rootId.Some? ==> RootRecorded(s.arena, s.branches, s.rootId.value))
  }

  lemma DetachedLinked(a: Arena)
    requires Detached(a)
    ensures Linked(a)
  {
  }

  lemma StepConsistent(s: State, n: Node)
    requires Consistent(s) && Step(s, n).Ok?
    ensures Consistent(Step(s, n).value)
  {
    var t := Step(s, n).value;
    StepDetached(s, n);
    DetachedLinked(t.arena);
    StepPends(s, n);
    StepNoDuplicates(s, n);
    StepRootRecorded(s, n);
  }

  /** A step appends at most one detached node and keeps every earlier one. */
  lemma StepDetached(s: State, n: Node)
    requires Consistent(s) && Step(s, n).Ok?
    ensures Detached(Step(s, n).value.arena)
    ensures Step(s, n).value.arena.slots[..|s.arena.slots|] == s.arena.slots
  {
  }

  lemma StepPends(s: State, n: Node)
    requires Consistent(s) && Step(s, n).Ok?
    ensures var t := Step(s, n).value;
      forall q, k :: q in t.branches && 0 <= k < |t.branches[q]| ==> Pends(t.arena, q, t.branches[q][k])
  {
    var t := Step(s, n).value;
    StepDetached(s, n);
    forall q, k | q in t.branches && 0 <= k < |t.branches[q]|
      ensures Pends(t.arena, q, t.branches[q][k])
    {
      if q in s.branches && k < |s.branches[q]| {
        assert Pends(s.arena, q, s.branches[q][k]);
      }
    }
  }

  lemma StepNoDuplicates(s: State, n: Node)
    requires Consistent(s) && Step(s, n).Ok?
    ensures var t := Step(s, n).value;
      forall q :: q in t.branches ==> Utils.NoDuplicates(t.branches[q])
  {
    var t := Step(s, n).value;
    forall q | q in t.branches
      ensures Utils.NoDuplicates(t.branches[q])
    {
      if q in s.branches {
        assert Utils.NoDuplicates(s.branches[q]);
        forall k | 0 <= k < |s.branches[q]|
          ensures s.branches[q][k] < |s.arena.slots|
        {
          assert Pends(s.arena, q, s.branches[q][k]);
        }
      }
    }
  }

  lemma StepRootRecorded(s: State, n: Node)
    requires Consistent(s) && Step(s, n).Ok?
    ensures var t := Step(s, n).value;
      t.rootId.Some? ==> RootRecorded(t.arena, t.branches, t.rootId.value)
  {
    var t := Step(s, n).value;
    StepDetached(s, n);
    if t.rootId.Some? {
      var r := t.rootId.value;
      forall q, k | q in t.branches && 0 <= k < |t.branches[q]|
        ensures t.branches[q][k] != r
      {
        if q in s.branches && k < |s.branches[q]| {
          assert Pends(s.arena, q, s.branches[q][k]);
        }
      }
    }
  }

  lemma {:induction false} RunConsistent(s: State, msgs: seq<Message>)
    requires Consistent(s) && Run(s, msgs).Ok?
    ensures Consistent(Run(s, msgs).value)
    decreases |msgs|
  {
    if msgs != [] && msgs[0].Ongoing? {
      StepConsistent(s, msgs[0].node);
      RunConsistent(Step(s, msgs[0].node).value, msgs[1..]);
    }
  }

  /**
   * A successful collection hands assembly detached nodes, a consistent pending-children index,
   * and a depth-0 directory root that has a slot and sits in no slot.
   */
  lemma CollectedConsistent(msgs: seq<Message>)
    requires Collected(msgs).Ok?
    ensures var c := Collected(msgs).value;
      Detached(c.arena) && PendingIndex(c.arena, c.branches) && RootRecorded(c.arena, c.branches, c.root)
  {
    RunConsistent(START, msgs);
  }

  /** Every directory node has a pending-children slot for its own path. */
  ghost predicate DirSlots(a: Arena, b: Branches) {
    forall x :: 0 <= x < |a.slots| && a.slots[x].data.IsDir() ==> a.slots[x].data.path in b
  }

  /** A step never takes a slot away and gives a new directory node one. */
  lemma StepDirSlots(s: State, n: Node)
    requires DirSlots(s.arena, s.branches) && Step(s, n).Ok?
    ensures DirSlots(Step(s, n).value.arena, Step(s, n).value.branches)
  {
    var t := Step(s, n).value;
    assert s.branches.Keys <= t.branches.Keys;
    forall x | 0 <= x < |t.arena.slots| && t.arena.slots[x].data.IsDir()
      ensures t.arena.slots[x].data.path in t.branches
    {
      if x < |s.arena.slots| {
        assert t.arena.slots[x] == s.arena.slots[x];
      }
    }
  }

  lemma {:induction false} RunDirSlots(s: State, msgs: seq<Message>)
    requires DirSlots(s.arena, s.branches) && Run(s, msgs).Ok?
    ensures DirSlots(Run(s, msgs).value.arena, Run(s, msgs).value.branches)
    decreases |msgs|
  {
    if msgs != [] && msgs[0].Ongoing? {
      StepDirSlots(s, msgs[0].node);
      RunDirSlots(Step(s, msgs[0].node).value, msgs[1..]);
    }
  }

  /** Every collected directory has a slot, since each directory message creates one if missing. */
  lemma CollectedDirSlots(msgs: seq<Message>)
    requires Collected(msgs).Ok?
    ensures DirSlots(Collected(msgs).value.arena, Collected(msgs).value.branches)
  {
    RunDirSlots(START, msgs);
  }

  lemma {:induction false} RunWithoutRoot(s: State, msgs: seq<Message>)
    requires s.rootId.None?
    requires forall i :: 0 <= i < |msgs| && msgs[i].Ongoing? ==> !IsRoot(msgs[i].node)
    ensures Run(s, msgs).Ok? ==> Run(s, msgs).value.rootId.None?
    decreases |msgs|
  {
    if msgs != [] && msgs[0].Ongoing? && Step(s, msgs[0].node).Ok? {
      RunWithoutRoot(Step(s, msgs[0].node).value, msgs[1..]);
    }
  }

  /**
   * A message stream without a depth-0 directory fails: with `MissingRoot`, or with
   * `ExpectedParent` if an entry without a parent path comes first.
   */
  lemma CollectedNeedsRoot(msgs: seq<Message>)
    requires forall i :: 0 <= i < |msgs| && msgs[i].Ongoing? ==> !IsRoot(msgs[i].node)
    ensures Collected(msgs) == Err(MissingRoot) || Collected(msgs) == Err(ExpectedParent)
  {
    RunWithoutRoot(START, msgs);
    RunErrors(START, msgs);
  }

  lemma {:induction false} RunErrors(s: State, msgs: seq<Message>)
    ensures Run(s, msgs).Err? ==> Run(s, msgs).error == ExpectedParent
    decreases |msgs|
  {
    if msgs != [] && msgs[0].Ongoing? && Step(s, msgs[0].node).Ok? {
      RunErrors(Step(s, msgs[0].node).value, msgs[1..]);
    }
  }

  // ---------------------------------------------------------------------------------------
  // Hard links.

  /** Message `i` is reached by the loop: no `Done` comes before it. */
  predicate Processed(msgs: seq<Message>, i: nat) {
    i < |msgs| && forall l :: 0 <= l <= i ==> msgs[l].Ongoing?
  }

  /** A non-root entry with more than one link: the inode check applies to it. */
  predicate Deduplicated(n: Node) {
    !IsRoot(n) && IsHardLinked(n)
  }

  function KeyOf(n: Node): InodeKey
    requires n.inode.Some?
  {
    n.inode.value.Properties()
  }

  /** The inode identities of the deduplicated nodes of the arena. */
  ghost function LinkKeys(a: Arena): set<InodeKey> {
    set x | 0 <= x < |a.slots| && Deduplicated(a.slots[x].data) :: KeyOf(a.slots[x].data)
  }

  /**
   * The seen-inode set is exactly the identities of the deduplicated nodes kept, and no two
   * such nodes share one.
   */
  ghost predicate LinksSeen(s: State) {
    && s.inodes == LinkKeys(s.arena)
    && forall x, y ::
         (0 <= x < y < |s.arena.slots| && Deduplicated(s.arena.slots[x].data) && Deduplicated(s.arena.slots[y].data))
         ==> KeyOf(s.arena.slots[x].data) != KeyOf(s.arena.slots[y].data)
  }

  lemma {:induction false} StepLinksSeen(s: State, n: Node)
    requires LinksSeen(s) && Step(s, n).Ok?
    ensures LinksSeen(Step(s, n).value)
    ensures Deduplicated(n) ==> KeyOf(n) in Step(s, n).value.inodes
  {
    var t := Step(s, n).value;
    var size := |s.arena.slots|;
    if t.arena != s.arena {
      assert t.arena.slots == s.arena.slots + [Slot(n, None, [], false)];
      var extra := if Deduplicated(n) then {KeyOf(n)} else {};
      assert LinkKeys(t.arena) == LinkKeys(s.arena) + extra by {
        forall k | k in LinkKeys(t.arena)
          ensures k in LinkKeys(s.arena) + extra
        {
          var x :| 0 <= x < |t.arena.slots| && Deduplicated(t.arena.slots[x].data) && KeyOf(t.arena.slots[x].data) == k;
          if x < size {
            assert s.arena.slots[x] == t.arena.slots[x];
          }
        }
        forall k | k in LinkKeys(s.arena) + extra
          ensures k in LinkKeys(t.arena)
        {
          if k in LinkKeys(s.arena) {
            var x :| 0 <= x < size && Deduplicated(s.arena.slots[x].data) && KeyOf(s.arena.slots[x].data) == k;
            assert t.arena.slots[x] == s.arena.slots[x];
          } else {
            assert t.arena.slots[size].data == n;
          }
        }
      }
      forall x | 0 <= x < size && Deduplicated(s.arena.slots[x].data) && Deduplicated(n)
        ensures KeyOf(s.arena.slots[x].data) != KeyOf(n)
      {
        assert KeyOf(s.arena.slots[x].data) in LinkKeys(s.arena);
      }
    }
  }

  lemma {:induction false} RunLinksSeen(s: State, msgs: seq<Message>)
    requires LinksSeen(s) && Run(s, msgs).Ok?
    ensures LinksSeen(Run(s, msgs).value)
    ensures s.inodes <= Run(s, msgs).value.inodes
    ensures forall i: nat :: Processed(msgs, i) && Deduplicated(msgs[i].node) ==>
      KeyOf(msgs[i].node) in Run(s, msgs).value.inodes
    decreases |msgs|
  {
    if msgs != [] && msgs[0].Ongoing? {
      var t := Step(s, msgs[0].node).value;
      StepLinksSeen(s, msgs[0].node);
      RunLinksSeen(t, msgs[1..]);
      forall i: nat | Processed(msgs, i) && Deduplicated(msgs[i].node)
        ensures KeyOf(msgs[i].node) in Run(s, msgs).value.inodes
      {
        if i > 0 {
          assert Processed(msgs[1..], i - 1);
        }
      }
    }
  }

  /**
   * Hard-link deduplication: for every processed entry with more than one link, exactly one
   * node with its inode identity is in the collected arena.
   */
  lemma CollectedOneNodePerLink(msgs: seq<Message>, i: nat)
    requires Collected(msgs).Ok?
    requires Processed(msgs, i) && Deduplicated(msgs[i].node)
    ensures var a := Collected(msgs).value.arena;
      && (exists x :: 0 <= x < |a.slots| && Deduplicated(a.slots[x].data) && KeyOf(a.slots[x].data) == KeyOf(msgs[i].node))
      && (forall x, y ::
            (0 <= x < |a.slots| && 0 <= y < |a.slots| && Deduplicated(a.slots[x].data) && Deduplicated(a.slots[y].data)
             && KeyOf(a.slots[x].data) == KeyOf(msgs[i].node) && KeyOf(a.slots[y].data) == KeyOf(msgs[i].node))
            ==> x == y)
  {
    assert LinkKeys(START.arena) == {};
    RunLinksSeen(START, msgs);
    var a := Collected(msgs).value.arena;
    assert KeyOf(msgs[i].node) in LinkKeys(a);
  }
}
