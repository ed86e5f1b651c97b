/**
 * `Display for Tree`: one line for the root, then one line per descendant in pre-order whose
 * depth is within the level. A line's prefix is the stack of connector glyphs of its ancestors
 * followed by a tee, or a corner for the last of its siblings. Each line is modelled by its
 * glyphs and its node; how a node's name and size are formatted is left out.
 */
module Render {
  import opened Wrappers
  import opened Nodes
  import opened IndexTree
  import opened Trees

  /** The two themes: symlinks are drawn with the link theme, everything else with the default one. */
  datatype Theme = Plain | Link

  /**
   * The components of a prefix: the empty first component, the blank `SEP` under a last
   * sibling, and a theme's vertical bar `vt`, tee `vtrt` and corner `uprt`.
   */
  datatype Glyph = Empty | Sep | Vt(theme: Theme) | Vtrt(theme: Theme) | Uprt(theme: Theme)

  /** What one `display_node` call writes: the joined prefix and the node. */
  datatype Line = Line(prefix: seq<Glyph>, node: Node)

  function ThemeOf(n: Node): Theme {
    if n.IsSymlink() then Link else Plain
  }

  /** `following_siblings(..).skip(1)` is empty: no sibling comes after `x`. */
  function IsLastSibling(a: Arena, x: Id): bool
    requires Linked(a) && x < |a.slots|
  {
    match a.slots[x].parent
    case None => true
    case Some(p) =>
      assert ParentLink(a, x);
      var siblings := a.slots[p].children;
      siblings[|siblings| - 1] == x
  }

  /** Every child is one level deeper than its parent, as the walker numbers depths. */
  ghost predicate DepthConsistent(a: Arena) {
    forall x, k :: 0 <= x < |a.slots| && 0 <= k < |a.slots[x].children| && a.slots[x].children[k] < |a.slots| ==>
      a.slots[a.slots[x].children[k]].data.depth == a.slots[x].data.depth + 1
  }

  // ---------------------------------------------------------------------------------------
  // The reference definition: a recursive pre-order walk that carries the prefix stack.

  /** A visited node, the prefix stack of its ancestors' connectors, and whether it is a last sibling. */
  datatype Visit = Visit(id: Id, stack: seq<Glyph>, last: bool)

  /** The connector a node leaves for its own children: blank under a last sibling, a bar otherwise. */
  function Conn(a: Arena, v: Visit): Glyph
    requires v.id < |a.slots|
  {
    if v.last then Sep else Vt(ThemeOf(a.slots[v.id].data))
  }

  /** The descendants of `x` without `x`, in pre-order, the children of `x` drawn under `stack`. */
  function Walk(a: Arena, x: Id, stack: seq<Glyph>): (vs: seq<Visit>)
    requires Linked(a) && x < |a.slots|
    ensures forall v :: v in vs ==> v.id < |a.slots|
    decreases PathBound(a.slots) - |a.slots[x].data.path|, 1
  {
    WalkChildren(a, x, 0, stack)
  }

  /** The walk from the `j`-th child of `x` on. */
  function WalkChildren(a: Arena, x: Id, j: nat, stack: seq<Glyph>): (vs: seq<Visit>)
    requires Linked(a) && x < |a.slots| && j <= |a.slots[x].children|
    ensures forall v :: v in vs ==> v.id < |a.slots|
    decreases PathBound(a.slots) - |a.slots[x].data.path|, 0, |a.slots[x].children| - j
  {
    var children := a.slots[x].children;
    if j == |children| then []
    else
      var c := children[j];
      assert ChildLink(a, x, c);
      var v := Visit(c, stack, j + 1 == |children|);
      [v] + Walk(a, c, stack + [Conn(a, v)]) + WalkChildren(a, x, j + 1, stack)
  }

  /** The glyphs a visited node's line is drawn with. */
  function PrefixOf(a: Arena, v: Visit): seq<Glyph>
    requires v.id < |a.slots|
  {
    var theme := ThemeOf(a.slots[v.id].data);
    v.stack + [if v.last then Uprt(theme) else Vtrt(theme)]
  }

  /** The lines of the visits whose depth is within `level`, in order. */
  function Lines(a: Arena, vs: seq<Visit>, level: nat): seq<Line>
    requires forall v :: v in vs ==> v.id < |a.slots|
  {
    if vs == [] then []
    else
      var v := vs[|vs| - 1];
      var shown := if a.slots[v.id].data.depth <= level then [Line(PrefixOf(a, v), a.slots[v.id].data)] else [];
      Lines(a, vs[..|vs| - 1], level) + shown
  }

  /** What `fmt` writes for `t`: the root with an empty prefix, then the walk under `[""]`. */
  function Rendered(t: Tree): seq<Line>
    requires Linked(t.inner) && t.root < |t.inner.slots|
  {
    [Line([], t.inner.slots[t.root].data)] + Lines(t.inner, Walk(t.inner, t.root, [Empty]), Level(t))
  }

  // ---------------------------------------------------------------------------------------
  // The loop.

  /**
   * `fmt` for `Tree`: the root line, then the descendants in pre-order. A line is written when
   * the node's depth is within the level; the prefix stack is extended when the next node is
   * one level deeper and truncated by the difference when it is shallower. Reading the root's
   * data panics when the root was removed by pruning; that outcome is `None`.
   */
  method Display(t: Tree) returns (r: Option<seq<Line>>)
    requires Linked(t.inner) && t.root < |t.inner.slots| && DepthConsistent(t.inner)
    ensures r.None? <==> t.inner.slots[t.root].removed
    ensures r.Some? ==> r.value == Rendered(t)
  {
    var inner := t.inner;
    var root := t.root;
    var level := Level(t);
    var descendants := Descendants(inner, root)[1..];
    if inner.slots[root].removed {
      return None;
    }
    ghost var visits := Walk(inner, root, [Empty]);
    WalkStart(inner, root);
    var out := [Line([], inner.slots[root].data)];
    var prefixComponents := [Empty];
    var i := 0;
    while i < |descendants|
      invariant 0 <= i <= |descendants| == |visits|
      invariant out == [Line([], inner.slots[root].data)] + Lines(inner, visits[..i], level)
      invariant i < |descendants| ==> prefixComponents == visits[i].stack
    {
      var shown := DisplayNode(inner, root, descendants, i, level, prefixComponents);
      OutStep(inner, root, i, level, out, shown);
      out := out + shown;
      if i + 1 < |descendants| {
        prefixComponents := NextPrefix(inner, root, descendants, i, prefixComponents);
      }
      i := i + 1;
    }
    assert visits[..|visits|] == visits;
    return Some(out);
  }

  /**
   * The line of the `i`-th descendant, if its depth is within the level: the prefix stack
   * followed by a corner for a last sibling and a tee otherwise.
   */
  method DisplayNode(inner: Arena, root: Id, descendants: seq<Id>, i: nat, level: nat, prefixComponents: seq<Glyph>)
    returns (shown: seq<Line>)
    requires Linked(inner) && root < |inner.slots|
    requires descendants == Descendants(inner, root)[1..] && |descendants| == |Walk(inner, root, [Empty])|
    requires i < |descendants| && prefixComponents == Walk(inner, root, [Empty])[i].stack
    ensures var v := Walk(inner, root, [Empty])[i];
      shown == if inner.slots[v.id].data.depth <= level then [Line(PrefixOf(inner, v), inner.slots[v.id].data)] else []
  {
    VisitAt(inner, root, i);
    var currentNode := inner.slots[descendants[i]].data;
    var theme := ThemeOf(currentNode);
    var currentPrefixComponents := prefixComponents;
    if IsLastSibling(inner, descendants[i]) {
      currentPrefixComponents := currentPrefixComponents + [Uprt(theme)];
    } else {
      currentPrefixComponents := currentPrefixComponents + [Vtrt(theme)];
    }
    shown := [];
    if currentNode.depth <= level {
      shown := [Line(currentPrefixComponents, currentNode)];
    }
  }

  /**
   * The prefix stack for the node after the `i`-th: pushed with the current node's connector
   * when the next node is one level deeper, truncated by the depth difference when it is
   * shallower, kept otherwise.
   */
  method NextPrefix(inner: Arena, root: Id, descendants: seq<Id>, i: nat, prefixComponents: seq<Glyph>)
    returns (next: seq<Glyph>)
    requires Linked(inner) && root < |inner.slots| && DepthConsistent(inner)
    requires descendants == Descendants(inner, root)[1..] && |descendants| == |Walk(inner, root, [Empty])|
    requires i + 1 < |descendants| && prefixComponents == Walk(inner, root, [Empty])[i].stack
    ensures next == Walk(inner, root, [Empty])[i + 1].stack
  {
    WalkFacts(inner, root, [Empty]);
    VisitAt(inner, root, i);
    VisitAt(inner, root, i + 1);
    NextStack(inner, root, i);
    var currentNode := inner.slots[descendants[i]].data;
    var nextNode := inner.slots[descendants[i + 1]].data;
    next := prefixComponents;
    if nextNode.depth == currentNode.depth + 1 {
      if IsLastSibling(inner, descendants[i]) {
        next := prefixComponents + [Sep];
      } else {
        next := prefixComponents + [Vt(ThemeOf(currentNode))];
      }
    } else if nextNode.depth < currentNode.depth {
      var depthDelta := currentNode.depth - nextNode.depth;
      next := prefixComponents[..|prefixComponents| - depthDelta];
    }
  }

  // ---------------------------------------------------------------------------------------
  // Facts about the walk.

  /** The ids of a sequence of visits. */
  function Ids(vs: seq<Visit>): (ids: seq<Id>)
    ensures |ids| == |vs| && forall k :: 0 <= k < |vs| ==> ids[k] == vs[k].id
  {
    if vs == [] then [] else [vs[0].id] + Ids(vs[1..])
  }

  lemma {:induction false} IdsConcat(u: seq<Visit>, w: seq<Visit>)
    ensures Ids(u + w) == Ids(u) + Ids(w)
  {
    assert forall k :: 0 <= k < |u + w| ==> Ids(u + w)[k] == (Ids(u) + Ids(w))[k];
  }

  /** The walk visits exactly the descendants, in the order of `descendants`. */
  lemma {:induction false} WalkIds(a: Arena, x: Id, stack: seq<Glyph>)
    requires Linked(a) && x < |a.slots|
    ensures Ids(Walk(a, x, stack)) == Descendants(a, x)[1..]
    decreases PathBound(a.slots) - |a.slots[x].data.path|, 1
  {
    WalkChildrenIds(a, x, 0, stack);
  }

  lemma {:induction false} WalkChildrenIds(a: Arena, x: Id, j: nat, stack: seq<Glyph>)
    requires Linked(a) && x < |a.slots| && j <= |a.slots[x].children|
    ensures Ids(WalkChildren(a, x, j, stack)) == ChildDescendants(a, x, j)
    decreases PathBound(a.slots) - |a.slots[x].data.path|, 0, |a.slots[x].children| - j
  {
    var children := a.slots[x].children;
    if j < |children| {
      var c := children[j];
      assert ChildLink(a, x, c);
      var v := Visit(c, stack, j + 1 == |children|);
      var w := Walk(a, c, stack + [Conn(a, v)]);
      var rest := WalkChildren(a, x, j + 1, stack);
      WalkIds(a, c, stack + [Conn(a, v)]);
      WalkChildrenIds(a, x, j + 1, stack);
      IdsConcat([v] + w, rest);
      IdsConcat([v], w);
      assert Descendants(a, c) == [c] + Descendants(a, c)[1..];
    }
  }

  /** Every stack of the walk extends the stack it started from. */
  lemma {:induction false} WalkExtends(a: Arena, x: Id, stack: seq<Glyph>)
    requires Linked(a) && x < |a.slots|
    ensures forall v :: v in Walk(a, x, stack) ==> |stack| <= |v.stack| && v.stack[..|stack|] == stack
    decreases PathBound(a.slots) - |a.slots[x].data.path|, 1
  {
    WalkChildrenExtends(a, x, 0, stack);
  }

  lemma {:induction false} WalkChildrenExtends(a: Arena, x: Id, j: nat, stack: seq<Glyph>)
    requires Linked(a) && x < |a.slots| && j <= |a.slots[x].children|
    ensures forall v :: v in WalkChildren(a, x, j, stack) ==> |stack| <= |v.stack| && v.stack[..|stack|] == stack
    decreases PathBound(a.slots) - |a.slots[x].data.path|, 0, |a.slots[x].children| - j
  {
    var children := a.slots[x].children;
    if j < |children| {
      var c := children[j];
      assert ChildLink(a, x, c);
      var v := Visit(c, stack, j + 1 == |children|);
      var s' := stack + [Conn(a, v)];
      WalkExtends(a, c, s');
      WalkChildrenExtends(a, x, j + 1, stack);
      forall u | u in Walk(a, c, s')
        ensures |stack| <= |u.stack| && u.stack[..|stack|] == stack
      {
        assert u.stack[..|stack|] == u.stack[..|s'|][..|stack|];
      }
    }
  }

  /** Under consistent depths, a visit's stack has one glyph more per level between the start and it. */
  lemma {:induction false} WalkDepth(a: Arena, x: Id, stack: seq<Glyph>)
    requires Linked(a) && x < |a.slots| && DepthConsistent(a)
    ensures forall v :: v in Walk(a, x, stack) ==>
      |v.stack| + a.slots[x].data.depth + 1 == |stack| + a.slots[v.id].data.depth
    decreases PathBound(a.slots) - |a.slots[x].data.path|, 1
  {
    WalkChildrenDepth(a, x, 0, stack);
  }

  lemma {:induction false} WalkChildrenDepth(a: Arena, x: Id, j: nat, stack: seq<Glyph>)
    requires Linked(a) && x < |a.slots| && j <= |a.slots[x].children| && DepthConsistent(a)
    ensures forall v :: v in WalkChildren(a, x, j, stack) ==>
      |v.stack| + a.slots[x].data.depth + 1 == |stack| + a.slots[v.id].data.depth
    decreases PathBound(a.slots) - |a.slots[x].data.path|, 0, |a.slots[x].children| - j
  {
    var children := a.slots[x].children;
    if j < |children| {
      var c := children[j];
      assert ChildLink(a, x, c);
      assert a.slots[c].data.depth == a.slots[x].data.depth + 1;
      var v := Visit(c, stack, j + 1 == |children|);
      WalkDepth(a, c, stack + [Conn(a, v)]);
      WalkChildrenDepth(a, x, j + 1, stack);
    }
  }

  /** The `last` flag of every visit is what `following_siblings` reports. */
  lemma {:induction false} WalkLast(a: Arena, x: Id, stack: seq<Glyph>)
    requires Linked(a) && x < |a.slots|
    ensures forall v :: v in Walk(a, x, stack) ==> v.last == IsLastSibling(a, v.id)
    decreases PathBound(a.slots) - |a.slots[x].data.path|, 1
  {
    WalkChildrenLast(a, x, 0, stack);
  }

  lemma {:induction false} WalkChildrenLast(a: Arena, x: Id, j: nat, stack: seq<Glyph>)
    requires Linked(a) && x < |a.slots| && j <= |a.slots[x].children|
    ensures forall v :: v in WalkChildren(a, x, j, stack) ==> v.last == IsLastSibling(a, v.id)
    decreases PathBound(a.slots) - |a.slots[x].data.path|, 0, |a.slots[x].children| - j
  {
    var children := a.slots[x].children;
    if j < |children| {
      var c := children[j];
      assert ChildLink(a, x, c);
      assert Utils.NoDuplicates(children);
      var v := Visit(c, stack, j + 1 == |children|);
      WalkLast(a, c, stack + [Conn(a, v)]);
      WalkChildrenLast(a, x, j + 1, stack);
    }
  }

  /**
   * Two consecutive visits: either the second is the first child of the first, drawn under
   * one more connector, or its stack is a prefix of the first's.
   */
  ghost predicate Follows(a: Arena, v: Visit, w: Visit)
    requires v.id < |a.slots|
  {
    || w.stack == v.stack + [Conn(a, v)]
    || (|w.stack| <= |v.stack| && w.stack == v.stack[..|w.stack|])
  }

  ghost predicate Chained(a: Arena, vs: seq<Visit>)
    requires forall v :: v in vs ==> v.id < |a.slots|
  {
    forall k :: 0 <= k < |vs| - 1 ==> Follows(a, vs[k], vs[k + 1])
  }

  lemma ChainedConcat(a: Arena, u: seq<Visit>, w: seq<Visit>)
    requires forall v :: v in u + w ==> v.id < |a.slots|
    requires Chained(a, u) && Chained(a, w)
    requires u != [] && w != [] ==> Follows(a, u[|u| - 1], w[0])
    ensures Chained(a, u + w)
  {
    forall k | 0 <= k < |u + w| - 1
      ensures Follows(a, (u + w)[k], (u + w)[k + 1])
    {
      if k + 1 < |u| {
        assert (u + w)[k] == u[k] && (u + w)[k + 1] == u[k + 1];
      } else if k + 1 == |u| {
        assert (u + w)[k] == u[|u| - 1] && (u + w)[k + 1] == w[0];
      } else {
        assert (u + w)[k] == w[k - |u|] && (u + w)[k + 1] == w[k - |u| + 1];
      }
    }
  }

  /** The stacks of consecutive visits are related as the loop's push and truncate expect. */
  lemma {:induction false} WalkChained(a: Arena, x: Id, stack: seq<Glyph>)
    requires Linked(a) && x < |a.slots|
    ensures Chained(a, Walk(a, x, stack))
    ensures Walk(a, x, stack) != [] ==> Walk(a, x, stack)[0].stack == stack
    decreases PathBound(a.slots) - |a.slots[x].data.path|, 1
  {
    WalkChildrenChained(a, x, 0, stack);
  }

  lemma {:induction false} WalkChildrenChained(a: Arena, x: Id, j: nat, stack: seq<Glyph>)
    requires Linked(a) && x < |a.slots| && j <= |a.slots[x].children|
    ensures Chained(a, WalkChildren(a, x, j, stack))
    ensures WalkChildren(a, x, j, stack) != [] ==> WalkChildren(a, x, j, stack)[0].stack == stack
    decreases PathBound(a.slots) - |a.slots[x].data.path|, 0, |a.slots[x].children| - j
  {
    var children := a.slots[x].children;
    if j < |children| {
      var c := children[j];
      assert ChildLink(a, x, c);
      var v := Visit(c, stack, j + 1 == |children|);
      var s' := stack + [Conn(a, v)];
      var w := Walk(a, c, s');
      var rest := WalkChildren(a, x, j + 1, stack);
      WalkChained(a, c, s');
      WalkChildrenChained(a, x, j + 1, stack);
      WalkExtends(a, c, s');
      ChainChild(a, v, w, rest, stack);
    }
  }

  /** A child's visit, then its subtree's walk, then the later siblings' walks form a chain. */
  lemma ChainChild(a: Arena, v: Visit, w: seq<Visit>, rest: seq<Visit>, stack: seq<Glyph>)
    requires v.id < |a.slots| && forall u :: u in w + rest ==> u.id < |a.slots|
    requires v.stack == stack && Chained(a, w) && Chained(a, rest)
    requires w != [] ==> w[0].stack == stack + [Conn(a, v)]
    requires forall u :: u in w ==> |stack + [Conn(a, v)]| <= |u.stack| && u.stack[..|stack + [Conn(a, v)]|] == stack + [Conn(a, v)]
    requires rest != [] ==> rest[0].stack == stack
    ensures Chained(a, [v] + w + rest)
  {
    ChainedConcat(a, [v], w);
    LastExtends(v, w, stack, stack + [Conn(a, v)]);
    ChainedConcat(a, [v] + w, rest);
  }

  /** The last visit of a child's line and its subtree still starts with the parent's stack. */
  lemma LastExtends(v: Visit, w: seq<Visit>, stack: seq<Glyph>, s': seq<Glyph>)
    requires v.stack == stack && |stack| <= |s'| && s'[..|stack|] == stack
    requires forall u :: u in w ==> |s'| <= |u.stack| && u.stack[..|s'|] == s'
    ensures var last := ([v] + w)[|w|];
      |stack| <= |last.stack| && last.stack[..|stack|] == stack
  {
    var last := ([v] + w)[|w|];
    if w != [] {
      assert last in w;
      assert last.stack[..|stack|] == last.stack[..|s'|][..|stack|];
    }
  }

  /** Everything the loop needs about the walk. */
  lemma WalkFacts(a: Arena, root: Id, stack: seq<Glyph>)
    requires Linked(a) && root < |a.slots|
    ensures Ids(Walk(a, root, stack)) == Descendants(a, root)[1..]
    ensures Walk(a, root, stack) != [] ==> Walk(a, root, stack)[0].stack == stack
    ensures forall v :: v in Walk(a, root, stack) ==> v.last == IsLastSibling(a, v.id)
  {
    WalkIds(a, root, stack);
    WalkChained(a, root, stack);
    WalkLast(a, root, stack);
  }

  /** The walk has one visit per descendant after the root, and starts with the initial stack. */
  lemma WalkStart(a: Arena, root: Id)
    requires Linked(a) && root < |a.slots|
    ensures |Descendants(a, root)| == |Walk(a, root, [Empty])| + 1
    ensures Walk(a, root, [Empty]) != [] ==> Walk(a, root, [Empty])[0].stack == [Empty]
  {
    WalkFacts(a, root, [Empty]);
  }

  /** The `i`-th visit is the `i`-th descendant after the root, with the loop's last-sibling flag. */
  lemma VisitAt(a: Arena, root: Id, i: nat)
    requires Linked(a) && root < |a.slots| && i < |Walk(a, root, [Empty])|
    ensures |Descendants(a, root)| == |Walk(a, root, [Empty])| + 1
    ensures var v := Walk(a, root, [Empty])[i];
      && v.id == Descendants(a, root)[i + 1]
      && v.last == IsLastSibling(a, v.id)
  {
    WalkFacts(a, root, [Empty]);
    assert Walk(a, root, [Empty])[i] in Walk(a, root, [Empty]);
  }

  /** One more visit adds its line exactly when its depth is within the level. */
  lemma LinesSnoc(a: Arena, vs: seq<Visit>, i: nat, level: nat)
    requires forall v :: v in vs ==> v.id < |a.slots|
    requires i < |vs|
    ensures var v := vs[i];
      Lines(a, vs[..i + 1], level)
        == Lines(a, vs[..i], level)
           + (if a.slots[v.id].data.depth <= level then [Line(PrefixOf(a, v), a.slots[v.id].data)] else [])
  {
    assert vs[..i + 1][..i] == vs[..i];
    assert vs[i] in vs;
  }

  /** Appending the line of the `i`-th visit keeps the output equal to the lines of the walk so far. */
  lemma OutStep(a: Arena, root: Id, i: nat, level: nat, out: seq<Line>, shown: seq<Line>)
    requires Linked(a) && root < |a.slots| && i < |Walk(a, root, [Empty])|
    requires out == [Line([], a.slots[root].data)] + Lines(a, Walk(a, root, [Empty])[..i], level)
    requires var v := Walk(a, root, [Empty])[i];
      shown == if a.slots[v.id].data.depth <= level then [Line(PrefixOf(a, v), a.slots[v.id].data)] else []
    ensures out + shown == [Line([], a.slots[root].data)] + Lines(a, Walk(a, root, [Empty])[..i + 1], level)
  {
    LinesSnoc(a, Walk(a, root, [Empty]), i, level);
  }

  /**
   * From one visit to the next, the depth decides the new stack: one deeper pushes the
   * connector, shallower truncates by the difference, equal keeps it; nothing else occurs.
   */
  lemma NextStack(a: Arena, root: Id, i: nat)
    requires Linked(a) && root < |a.slots| && DepthConsistent(a)
    requires i + 1 < |Walk(a, root, [Empty])|
    ensures var vs := Walk(a, root, [Empty]);
      var (v, w) := (vs[i], vs[i + 1]);
      var (dv, dw) := (a.slots[v.id].data.depth, a.slots[w.id].data.depth);
      && dw <= dv + 1
      && (dw == dv + 1 ==> w.stack == v.stack + [Conn(a, v)])
      && (dw < dv ==> dv - dw <= |v.stack| && w.stack == v.stack[..|v.stack| - (dv - dw)])
      && (dw == dv ==> w.stack == v.stack)
  {
    var vs := Walk(a, root, [Empty]);
    WalkChained(a, root, [Empty]);
    WalkDepth(a, root, [Empty]);
    assert vs[i] in vs && vs[i + 1] in vs;
    assert Follows(a, vs[i], vs[i + 1]);
  }

  // ---------------------------------------------------------------------------------------
  // What the rendering shows.

  /** No line is written for a node deeper than the level. */
  lemma {:induction false} LinesWithinLevel(a: Arena, vs: seq<Visit>, level: nat)
    requires forall v :: v in vs ==> v.id < |a.slots|
    ensures forall k :: 0 <= k < |Lines(a, vs, level)| ==> Lines(a, vs, level)[k].node.depth <= level
  {
    if vs != [] {
      LinesWithinLevel(a, vs[..|vs| - 1], level);
    }
  }

  /** When every visit is within the level, there is exactly one line per visit, in order. */
  lemma {:induction false} LinesAll(a: Arena, vs: seq<Visit>, level: nat)
    requires forall v :: v in vs ==> v.id < |a.slots|
    requires forall k :: 0 <= k < |vs| ==> a.slots[vs[k].id].data.depth <= level
    ensures |Lines(a, vs, level)| == |vs|
    ensures forall k :: 0 <= k < |vs| ==>
      Lines(a, vs, level)[k] == Line(PrefixOf(a, vs[k]), a.slots[vs[k].id].data)
  {
    if vs != [] {
      LinesAll(a, vs[..|vs| - 1], level);
    }
  }

  /** Every line after the root's shows a node whose depth is within the level. */
  lemma RenderedWithinLevel(t: Tree)
    requires Linked(t.inner) && t.root < |t.inner.slots|
    ensures forall k :: 1 <= k < |Rendered(t)| ==> Rendered(t)[k].node.depth <= Level(t)
  {
    LinesWithinLevel(t.inner, Walk(t.inner, t.root, [Empty]), Level(t));
  }

  /** The number of visits whose node is within `level`. */
  function CountWithin(a: Arena, vs: seq<Visit>, level: nat): nat
    requires forall v :: v in vs ==> v.id < |a.slots|
  {
    if vs == [] then 0
    else CountWithin(a, vs[..|vs| - 1], level) + if a.slots[vs[|vs| - 1].id].data.depth <= level then 1 else 0
  }

  /**
   * There is one line per visit within the level: the `k`-th visit, when within the level,
   * is on the line numbered by the visits within the level before it.
   */
  lemma {:induction false} LinesAt(a: Arena, vs: seq<Visit>, level: nat)
    requires forall v :: v in vs ==> v.id < |a.slots|
    ensures |Lines(a, vs, level)| == CountWithin(a, vs, level)
    ensures forall k :: 0 <= k < |vs| && a.slots[vs[k].id].data.depth <= level ==>
      && CountWithin(a, vs[..k], level) < |Lines(a, vs, level)|
      && Lines(a, vs, level)[CountWithin(a, vs[..k], level)] == Line(PrefixOf(a, vs[k]), a.slots[vs[k].id].data)
  {
    if vs != [] {
      var init := vs[..|vs| - 1];
      LinesAt(a, init, level);
      forall k | 0 <= k < |vs| && a.slots[vs[k].id].data.depth <= level
        ensures && CountWithin(a, vs[..k], level) < |Lines(a, vs, level)|
                && Lines(a, vs, level)[CountWithin(a, vs[..k], level)] == Line(PrefixOf(a, vs[k]), a.slots[vs[k].id].data)
      {
        if k < |vs| - 1 {
          assert vs[..k] == init[..k];
        } else {
          assert vs[..k] == init;
        }
      }
    }
  }

  /** Counting over a longer prefix never gives less, and a visit within the level adds one. */
  lemma {:induction false} CountWithinOrder(a: Arena, vs: seq<Visit>, level: nat, j: nat, k: nat)
    requires forall v :: v in vs ==> v.id < |a.slots|
    requires j < k <= |vs|
    ensures CountWithin(a, vs[..j], level) <= CountWithin(a, vs[..k], level)
    ensures a.slots[vs[j].id].data.depth <= level ==> CountWithin(a, vs[..j], level) < CountWithin(a, vs[..k], level)
    decreases k - j
  {
    assert vs[..j + 1][..j] == vs[..j];
    if j + 1 < k {
      CountWithinOrder(a, vs, level, j + 1, k);
    }
  }

  /**
   * With any level, the lines after the root's are exactly the visits of the walk whose depth
   * is within the level, in walk order: there are as many lines as such visits, and each such
   * visit has its line, later visits on later lines.
   */
  lemma RenderedAtLevel(t: Tree)
    requires Linked(t.inner) && t.root < |t.inner.slots|
    ensures var (a, vs, level) := (t.inner, Walk(t.inner, t.root, [Empty]), Level(t));
      && |Rendered(t)| == 1 + CountWithin(a, vs, level)
      && (forall k :: 0 <= k < |vs| && a.slots[vs[k].id].data.depth <= level ==>
            && 1 + CountWithin(a, vs[..k], level) < |Rendered(t)|
            && Rendered(t)[1 + CountWithin(a, vs[..k], level)] == Line(PrefixOf(a, vs[k]), a.slots[vs[k].id].data))
      && (forall j, k :: 0 <= j < k < |vs| && a.slots[vs[j].id].data.depth <= level ==>
            CountWithin(a, vs[..j], level) < CountWithin(a, vs[..k], level))
  {
    var (a, vs, level) := (t.inner, Walk(t.inner, t.root, [Empty]), Level(t));
    LinesAt(a, vs, level);
    forall j, k | 0 <= j < k < |vs| && a.slots[vs[j].id].data.depth <= level
      ensures CountWithin(a, vs[..j], level) < CountWithin(a, vs[..k], level)
    {
      CountWithinOrder(a, vs, level, j, k);
    }
  }

  /** With depths numbered consistently, no descendant is shallower than its ancestor. */
  lemma {:induction false} DescendantsDeeper(a: Arena, x: Id)
    requires Linked(a) && x < |a.slots| && DepthConsistent(a)
    ensures forall y :: y in Descendants(a, x) ==> a.slots[x].data.depth <= a.slots[y].data.depth
    decreases PathBound(a.slots) - |a.slots[x].data.path|, 1
  {
    ChildDescendantsDeeper(a, x, 0);
  }

  lemma {:induction false} ChildDescendantsDeeper(a: Arena, x: Id, j: nat)
    requires Linked(a) && x < |a.slots| && DepthConsistent(a) && j <= |a.slots[x].children|
    ensures forall y :: y in ChildDescendants(a, x, j) ==> a.slots[x].data.depth < a.slots[y].data.depth
    decreases PathBound(a.slots) - |a.slots[x].data.path|, 0, |a.slots[x].children| - j
  {
    if j < |a.slots[x].children| {
      var c := a.slots[x].children[j];
      assert ChildLink(a, x, c);
      DescendantsDeeper(a, c);
      ChildDescendantsDeeper(a, x, j + 1);
    }
  }

  /**
   * The depth limit never hides an ancestor: when a node below the root has a line because its
   * depth is within the level, every node between the root and it has a line too.
   */
  lemma RenderedKeepsAncestors(t: Tree, x: Id, y: Id)
    requires Linked(t.inner) && t.root < |t.inner.slots| && DepthConsistent(t.inner)
    requires x < |t.inner.slots| && x != t.root && x in Descendants(t.inner, t.root)
    requires y in Descendants(t.inner, x) && t.inner.slots[y].data.depth <= Level(t)
    ensures var (a, vs, level) := (t.inner, Walk(t.inner, t.root, [Empty]), Level(t));
      exists k :: 0 <= k < |vs| && vs[k].id == x
        && 1 + CountWithin(a, vs[..k], level) < |Rendered(t)|
        && Rendered(t)[1 + CountWithin(a, vs[..k], level)] == Line(PrefixOf(a, vs[k]), a.slots[x].data)
  {
    var (a, vs, level) := (t.inner, Walk(t.inner, t.root, [Empty]), Level(t));
    DescendantsDeeper(a, x);
    WalkVisits(a, t.root, x);
    var k :| 0 <= k < |vs| && vs[k].id == x;
    LineOfVisit(a, vs, level, k);
    var n := CountWithin(a, vs[..k], level);
    var lines := Lines(a, vs, level);
    assert Rendered(t) == [Line([], a.slots[t.root].data)] + lines;
    assert Rendered(t)[1 + n] == lines[n];
  }

  /** Every descendant other than the start is visited by the walk. */
  lemma WalkVisits(a: Arena, root: Id, x: Id)
    requires Linked(a) && root < |a.slots| && x != root && x in Descendants(a, root)
    ensures exists k :: 0 <= k < |Walk(a, root, [Empty])| && Walk(a, root, [Empty])[k].id == x
  {
    var vs := Walk(a, root, [Empty]);
    WalkIds(a, root, [Empty]);
    var ds := Descendants(a, root);
    var i :| 0 <= i < |ds| && ds[i] == x;
    assert Ids(vs)[i - 1] == x;
  }

  /** The line of the `k`-th visit, when it is within the level. */
  lemma LineOfVisit(a: Arena, vs: seq<Visit>, level: nat, k: nat)
    requires forall v :: v in vs ==> v.id < |a.slots|
    requires k < |vs| && a.slots[vs[k].id].data.depth <= level
    ensures CountWithin(a, vs[..k], level) < |Lines(a, vs, level)|
    ensures Lines(a, vs, level)[CountWithin(a, vs[..k], level)] == Line(PrefixOf(a, vs[k]), a.slots[vs[k].id].data)
  {
    LinesAt(a, vs, level);
  }

  /** Without a level, line `k` after the root's is the line of the `k`-th visit of the walk. */
  lemma RenderedVisits(t: Tree)
    requires Linked(t.inner) && t.root < |t.inner.slots| && t.ctx.level.None?
    ensures var vs := Walk(t.inner, t.root, [Empty]);
      && |Rendered(t)| == |vs| + 1
      && forall k :: 1 <= k < |Rendered(t)| ==>
           Rendered(t)[k] == Line(PrefixOf(t.inner, vs[k - 1]), t.inner.slots[vs[k - 1].id].data)
  {
    var vs := Walk(t.inner, t.root, [Empty]);
    LinesAll(t.inner, vs, Level(t));
  }

  /** Without a level every node is shown: line `k` is the `k`-th node of the pre-order walk from the root. */
  lemma RenderedShowsEveryNode(t: Tree)
    requires Linked(t.inner) && t.root < |t.inner.slots| && t.ctx.level.None?
    ensures |Rendered(t)| == |Descendants(t.inner, t.root)|
    ensures forall k :: 0 <= k < |Rendered(t)| ==>
      Rendered(t)[k].node == t.inner.slots[Descendants(t.inner, t.root)[k]].data
  {
    var vs := Walk(t.inner, t.root, [Empty]);
    RenderedVisits(t);
    WalkFacts(t.inner, t.root, [Empty]);
    forall k | 1 <= k < |Rendered(t)|
      ensures Rendered(t)[k].node == t.inner.slots[Descendants(t.inner, t.root)[k]].data
    {
      VisitAt(t.inner, t.root, k - 1);
    }
  }

  /**
   * Without a level, the prefix of a node `d` levels below the root has `d + 1` glyphs, and it
   * ends in a corner exactly when the node is the last of its siblings.
   */
  lemma RenderedPrefixes(t: Tree)
    requires Linked(t.inner) && t.root < |t.inner.slots| && DepthConsistent(t.inner)
    requires t.ctx.level.None?
    ensures |Rendered(t)| == |Descendants(t.inner, t.root)|
    ensures forall k :: 1 <= k < |Rendered(t)| ==>
      var (a, x) := (t.inner, Descendants(t.inner, t.root)[k]);
      var p := Rendered(t)[k].prefix;
      && 1 <= |p| && |p| + a.slots[t.root].data.depth == a.slots[x].data.depth + 1
      && (p[|p| - 1].Uprt? <==> IsLastSibling(a, x))
  {
    RenderedShowsEveryNode(t);
    forall k | 1 <= k < |Rendered(t)|
      ensures var (a, x) := (t.inner, Descendants(t.inner, t.root)[k]);
        var p := Rendered(t)[k].prefix;
        && 1 <= |p| && |p| + a.slots[t.root].data.depth == a.slots[x].data.depth + 1
        && (p[|p| - 1].Uprt? <==> IsLastSibling(a, x))
    {
      RenderedPrefixAt(t, k);
    }
  }

  lemma RenderedPrefixAt(t: Tree, k: nat)
    requires Linked(t.inner) && t.root < |t.inner.slots| && DepthConsistent(t.inner)
    requires t.ctx.level.None? && 1 <= k < |Descendants(t.inner, t.root)|
    ensures k < |Rendered(t)|
    ensures var (a, x) := (t.inner, Descendants(t.inner, t.root)[k]);
      var p := Rendered(t)[k].prefix;
      && 1 <= |p| && |p| + a.slots[t.root].data.depth == a.slots[x].data.depth + 1
      && (p[|p| - 1].Uprt? <==> IsLastSibling(a, x))
  {
    var a := t.inner;
    var vs := Walk(a, t.root, [Empty]);
    RenderedVisits(t);
    WalkStart(a, t.root);
    VisitAt(a, t.root, k - 1);
    WalkDepth(a, t.root, [Empty]);
    assert vs[k - 1] in vs;
  }
}
