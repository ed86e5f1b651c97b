/**
 * The two helpers of `src/utils.rs`: `uniq`, which drops every repeated item of a vector while
 * keeping the first occurrence of each, and `num_integral`, which counts the decimal digits of
 * an unsigned 64-bit integer.
 */
module Utils {

  predicate NoDuplicates<T(==)>(s: seq<T>) {
    forall i, j :: 0 <= i < j < |s| ==> s[i] != s[j]
  }

  /** What `uniq` computes: scanning left to right, an item is kept iff it was not seen before. */
  function Dedup<T(==)>(s: seq<T>): seq<T> {
    if s == [] then []
    else
      var init := s[..|s| - 1];
      if s[|s| - 1] in init then Dedup(init) else Dedup(init) + [s[|s| - 1]]
  }

  /**
   * `uniq`: a filter over the items whose closure inserts each item into a hash set and keeps
   * it exactly when the insertion reports a new element.
   */
  method Uniq<T(==)>(items: seq<T>) returns (r: seq<T>)
    ensures r == Dedup(items)
  {
    var seen: set<T> := {};
    r := [];
    for i := 0 to |items|
      invariant r == Dedup(items[..i])
      invariant forall x :: x in seen <==> x in items[..i]
    {
      var item := items[i];
      assert items[..i + 1][..i] == items[..i];
      var inserted := item !in seen;
      seen := seen + {item};
      if inserted {
        r := r + [item];
      }
    }
    assert items[..|items|] == items;
  }

  lemma {:induction false} DedupSameElements<T>(s: seq<T>)
    ensures forall x :: x in Dedup(s) <==> x in s
    ensures |Dedup(s)| <= |s|
  {
    if s != [] {
      var init := s[..|s| - 1];
      DedupSameElements(init);
      assert s == init + [s[|s| - 1]];
    }
  }

  lemma {:induction false} DedupNoDuplicates<T>(s: seq<T>)
    ensures NoDuplicates(Dedup(s))
  {
    if s != [] {
      var init := s[..|s| - 1];
      DedupNoDuplicates(init);
      DedupSameElements(init);
    }
  }

  /**
   * The positions `uniq` keeps: every index whose item does not occur earlier, in increasing
   * order.
   */
  function FirstOccurrences<T(==)>(s: seq<T>): (idx: seq<nat>)
    ensures forall k :: 0 <= k < |idx| ==> idx[k] < |s|
  {
    if s == [] then []
    else
      var init := s[..|s| - 1];
      if s[|s| - 1] in init then FirstOccurrences(init) else FirstOccurrences(init) + [|s| - 1]
  }

  /**
   * `uniq` yields a subsequence of its input: the items at the first occurrences, in input
   * order, and every first occurrence is among them.
   */
  lemma DedupKeepsFirstOccurrences<T>(s: seq<T>)
    ensures var idx := FirstOccurrences(s);
      && |idx| == |Dedup(s)|
      && (forall k, l :: 0 <= k < l < |idx| ==> idx[k] < idx[l])
      && (forall k :: 0 <= k < |idx| ==> Dedup(s)[k] == s[idx[k]] && s[idx[k]] !in s[..idx[k]])
      && (forall i :: 0 <= i < |s| && s[i] !in s[..i] ==> i in idx)
  {
    FirstOccurrencesShape(s);
    FirstOccurrencesItems(s);
    FirstOccurrencesComplete(s);
  }

  lemma {:induction false} FirstOccurrencesShape<T>(s: seq<T>)
    ensures |FirstOccurrences(s)| == |Dedup(s)|
    ensures forall k, l :: 0 <= k < l < |FirstOccurrences(s)| ==> FirstOccurrences(s)[k] < FirstOccurrences(s)[l]
  {
    if s != [] {
      FirstOccurrencesShape(s[..|s| - 1]);
    }
  }

  lemma {:induction false} FirstOccurrencesItems<T>(s: seq<T>)
    requires |FirstOccurrences(s)| == |Dedup(s)|
    ensures forall k :: 0 <= k < |FirstOccurrences(s)| ==>
      var i := FirstOccurrences(s)[k];
      Dedup(s)[k] == s[i] && s[i] !in s[..i]
  {
    if s != [] {
      var init := s[..|s| - 1];
      FirstOccurrencesShape(init);
      FirstOccurrencesItems(init);
      var idx0 := FirstOccurrences(init);
      forall k | 0 <= k < |idx0|
        ensures s[idx0[k]] == init[idx0[k]] && s[..idx0[k]] == init[..idx0[k]]
      {
      }
    }
  }

  lemma {:induction false} FirstOccurrencesComplete<T>(s: seq<T>)
    ensures forall i :: 0 <= i < |s| && s[i] !in s[..i] ==> i in FirstOccurrences(s)
  {
    if s != [] {
      var init := s[..|s| - 1];
      FirstOccurrencesComplete(init);
      forall i | 0 <= i < |s| && s[i] !in s[..i]
        ensures i in FirstOccurrences(s)
      {
        if i < |s| - 1 {
          assert s[..i] == init[..i];
        } else {
          assert s[..i] == init;
        }
      }
    }
  }

  /** On a sequence without repetitions `uniq` changes nothing. */
  lemma {:induction false} DedupOfDistinct<T>(s: seq<T>)
    requires NoDuplicates(s)
    ensures Dedup(s) == s
  {
    if s != [] {
      var init := s[..|s| - 1];
      DedupOfDistinct(init);
      assert s == init + [s[|s| - 1]];
      assert forall j :: 0 <= j < |init| ==> init[j] == s[j] != s[|s| - 1];
    }
  }

  /** `uniq` is idempotent. */
  lemma DedupIdempotent<T>(s: seq<T>)
    ensures Dedup(Dedup(s)) == Dedup(s)
  {
    DedupNoDuplicates(s);
    DedupOfDistinct(Dedup(s));
  }

  const U64_LIMIT: nat := 0x1_0000_0000_0000_0000

  type U64 = x: nat | x < U64_LIMIT

  function Pow10(n: nat): (p: nat)
    ensures p >= 1
  {
    if n == 0 then 1 else 10 * Pow10(n - 1)
  }

  /** `u64::ilog10`: the largest `r` with `10^r <= v`. */
  function ILog10(v: nat): (r: nat)
    requires v > 0
    ensures Pow10(r) <= v < Pow10(r + 1)
  {
    if v < 10 then 0 else 1 + ILog10(v / 10)
  }

  /** Powers of ten are ordered as their exponents. */
  lemma {:induction false} Pow10Order(m: nat, n: nat)
    ensures Pow10(m) <= Pow10(n) <==> m <= n
  {
    if m < n {
      Pow10Order(m, n - 1);
    } else if n < m {
      Pow10Order(n, m - 1);
    }
  }

  lemma Pow10Of20()
    ensures Pow10(20) == 100_000_000_000_000_000_000
  {
    assert Pow10(5) == 100_000;
    assert Pow10(10) == 10_000_000_000;
    assert Pow10(15) == 1_000_000_000_000_000;
  }

  /**
   * `num_integral`: 0 for 0, otherwise the number `n` of decimal digits, that is
   * `10^(n-1) <= value < 10^n`; a `u64` has at most 20 of them.
   */
  function NumIntegral(value: U64): (n: nat)
    ensures value == 0 <==> n == 0
    ensures value > 0 ==> Pow10(n - 1) <= value < Pow10(n)
    ensures n <= 20
  {
    if value == 0 then 0
    else
      var n := ILog10(value) + 1;
      assert n <= 20 by {
        Pow10Of20();
        Pow10Order(20, n - 1);
      }
      n
  }

  /** The bound 20 is reached: `u64::MAX` has 20 digits. */
  lemma NumIntegralOfMax()
    ensures NumIntegral(U64_LIMIT - 1) == 20
  {
    var n := NumIntegral(U64_LIMIT - 1);
    Pow10Of20();
    assert Pow10(20) == 10 * Pow10(19);
    Pow10Order(n, 19);
  }
}
