/**
 * The sort applied to each sibling group in `assemble_tree`: `sort_by` with the comparator of
 * the configured order. The comparator is abstract: `le(m, n)` holds when `m` does not compare
 * greater than `n`. A stable sort by a total preorder has exactly one possible outcome, which
 * `SortIds` computes by insertion.
 */
module SiblingSort {
  import opened Nodes
  import opened IndexTree

  type Le = (Node, Node) -> bool

  ghost predicate InArena(s: seq<Id>, a: Arena) {
    forall k :: 0 <= k < |s| ==> s[k] < |a.slots|
  }

  /** Inserts `x` before the first element it does not exceed. */
  function Insert(x: Id, s: seq<Id>, a: Arena, le: Le): (r: seq<Id>)
    requires x < |a.slots| && InArena(s, a)
    ensures multiset(r) == multiset(s) + multiset{x}
    ensures InArena(r, a)
  {
    if s == [] then [x]
    else if le(a.slots[x].data, a.slots[s[0]].data) then [x] + s
    else
      assert s == [s[0]] + s[1..];
      [s[0]] + Insert(x, s[1..], a, le)
  }

  /** The ids of `s`, stably sorted by `le` on their nodes. */
  function SortIds(s: seq<Id>, a: Arena, le: Le): (r: seq<Id>)
    requires InArena(s, a)
    ensures multiset(r) == multiset(s)
    ensures InArena(r, a)
  {
    if s == [] then []
    else
      assert s == [s[0]] + s[1..];
      Insert(s[0], SortIds(s[1..], a, le), a, le)
  }

  /** `le` is total and transitive on the nodes of the ids in `dom`. */
  ghost predicate TotalPreorderOn(dom: seq<Id>, a: Arena, le: Le)
    requires InArena(dom, a)
  {
    && (forall x, y :: x in dom && y in dom ==> le(a.slots[x].data, a.slots[y].data) || le(a.slots[y].data, a.slots[x].data))
    && (forall x, y, z ::
          (x in dom && y in dom && z in dom && le(a.slots[x].data, a.slots[y].data) && le(a.slots[y].data, a.slots[z].data))
          ==> le(a.slots[x].data, a.slots[z].data))
  }

  ghost predicate Sorted(s: seq<Id>, a: Arena, le: Le)
    requires InArena(s, a)
  {
    forall i, j :: 0 <= i < j < |s| ==> le(a.slots[s[i]].data, a.slots[s[j]].data)
  }

  lemma {:induction false} InsertSorted(x: Id, s: seq<Id>, a: Arena, le: Le, dom: seq<Id>)
    requires x < |a.slots| && InArena(s, a) && InArena(dom, a) && TotalPreorderOn(dom, a, le)
    requires x in dom && (forall k :: 0 <= k < |s| ==> s[k] in dom) && Sorted(s, a, le)
    ensures Sorted(Insert(x, s, a, le), a, le)
  {
    if s != [] && !le(a.slots[x].data, a.slots[s[0]].data) {
      InsertSorted(x, s[1..], a, le, dom);
      InsertLowerBound(x, s[1..], a, le, s[0]);
    }
  }

  /** A node not above `x` and every node of `s` is not above any node of `Insert(x, s)`. */
  lemma {:induction false} InsertLowerBound(x: Id, s: seq<Id>, a: Arena, le: Le, b: Id)
    requires x < |a.slots| && InArena(s, a) && b < |a.slots|
    requires le(a.slots[b].data, a.slots[x].data)
    requires forall k :: 0 <= k < |s| ==> le(a.slots[b].data, a.slots[s[k]].data)
    ensures forall k :: 0 <= k < |Insert(x, s, a, le)| ==> le(a.slots[b].data, a.slots[Insert(x, s, a, le)[k]].data)
  {
    if s != [] && !le(a.slots[x].data, a.slots[s[0]].data) {
      InsertLowerBound(x, s[1..], a, le, b);
    }
  }

  /** With a total preorder, the sorted ids are in non-decreasing order. */
  lemma {:induction false} SortIdsSorted(s: seq<Id>, a: Arena, le: Le)
    requires InArena(s, a) && TotalPreorderOn(s, a, le)
    ensures Sorted(SortIds(s, a, le), a, le)
  {
    SortIdsSortedWithin(s, a, le, s);
  }

  lemma {:induction false} SortIdsSortedWithin(s: seq<Id>, a: Arena, le: Le, dom: seq<Id>)
    requires InArena(s, a) && InArena(dom, a) && TotalPreorderOn(dom, a, le)
    requires forall k :: 0 <= k < |s| ==> s[k] in dom
    ensures Sorted(SortIds(s, a, le), a, le)
  {
    if s != [] {
      SortIdsSortedWithin(s[1..], a, le, dom);
      var t := SortIds(s[1..], a, le);
      forall k | 0 <= k < |t|
        ensures t[k] in dom
      {
        assert t[k] in multiset(s[1..]);
      }
      InsertSorted(s[0], t, a, le, dom);
    }
  }

  /** The ids of `s` whose nodes compare equal to node `c`, in their order in `s`. */
  function Equivalents(s: seq<Id>, a: Arena, le: Le, c: Id): (r: seq<Id>)
    requires InArena(s, a) && c < |a.slots|
  {
    if s == [] then []
    else
      var rest := Equivalents(s[1..], a, le, c);
      if le(a.slots[s[0]].data, a.slots[c].data) && le(a.slots[c].data, a.slots[s[0]].data) then [s[0]] + rest
      else rest
  }

  lemma {:induction false} InsertStable(x: Id, s: seq<Id>, a: Arena, le: Le, c: Id, dom: seq<Id>)
    requires x < |a.slots| && InArena(s, a) && InArena(dom, a) && TotalPreorderOn(dom, a, le)
    requires x in dom && c in dom && (forall k :: 0 <= k < |s| ==> s[k] in dom)
    ensures Equivalents(Insert(x, s, a, le), a, le, c) == Equivalents([x] + s, a, le, c)
  {
    if s != [] && !le(a.slots[x].data, a.slots[s[0]].data) {
      InsertStable(x, s[1..], a, le, c, dom);
      assert ([x] + s)[1..] == s;
      assert ([x] + s[1..])[1..] == s[1..];
      assert ([s[0]] + Insert(x, s[1..], a, le))[1..] == Insert(x, s[1..], a, le);
    } else {
      assert ([x] + s)[1..] == s;
    }
  }

  /**
   * The sort is stable: the ids whose nodes compare equal to any given one keep their relative
   * order.
   */
  lemma {:induction false} SortIdsStable(s: seq<Id>, a: Arena, le: Le, c: Id)
    requires InArena(s, a) && TotalPreorderOn(s, a, le) && c in s
    ensures Equivalents(SortIds(s, a, le), a, le, c) == Equivalents(s, a, le, c)
  {
    SortIdsStableWithin(s, a, le, c, s);
  }

  lemma {:induction false} SortIdsStableWithin(s: seq<Id>, a: Arena, le: Le, c: Id, dom: seq<Id>)
    requires InArena(s, a) && InArena(dom, a) && TotalPreorderOn(dom, a, le) && c in dom
    requires forall k :: 0 <= k < |s| ==> s[k] in dom
    ensures Equivalents(SortIds(s, a, le), a, le, c) == Equivalents(s, a, le, c)
  {
    if s != [] {
      SortIdsStableWithin(s[1..], a, le, c, dom);
      var t := SortIds(s[1..], a, le);
      forall k | 0 <= k < |t|
        ensures t[k] in dom
      {
        assert t[k] in multiset(s[1..]);
      }
      InsertStable(s[0], t, a, le, c, dom);
      assert ([s[0]] + t)[1..] == t;
    }
  }
}
