/**
 * Filtering a half-open range of naturals, as Rust's
 * `(lo..hi).filter(f).collect()` does, and the counting facts used
 * about the results.
 */
module Ranges {

  /** The numbers `x` in `lo .. hi` (upper end excluded) with `f(x)`, in
      ascending order. */
  function FilterRange(lo: nat, hi: nat, f: nat -> bool): (r: seq<nat>)
    ensures forall x :: x in r <==> lo <= x < hi && f(x)
    ensures forall i, j :: 0 <= i < j < |r| ==> r[i] < r[j]
    ensures lo <= hi ==> |r| <= hi - lo
    decreases hi
  {
    if hi <= lo then
      []
    else
      var rest := FilterRange(lo, hi - 1, f);
      assert forall i :: 0 <= i < |rest| ==> rest[i] in rest && rest[i] < hi - 1;
      rest + (if f(hi - 1) then [hi - 1] else [])
  }

  // ---------------------------------------------------------------------
  // Counting
  // ---------------------------------------------------------------------

  lemma SubsetCard<T>(a: set<T>, b: set<T>)
    requires a <= b
    ensures |a| <= |b|
    decreases a
  {
    if a != {} {
      var x :| x in a;
      SubsetCard(a - {x}, b - {x});
      assert a == (a - {x}) + {x};
      assert b == (b - {x}) + {x};
    }
  }

  /** The numbers `1 .. m`. */
  ghost function Range(m: nat): (r: set<nat>)
    ensures |r| == m
    ensures forall x :: x in r <==> 1 <= x <= m
  {
    if m == 0 then {} else Range(m - 1) + {m}
  }

  ghost predicate Distinct(s: seq<nat>) {
    forall i, j :: 0 <= i < j < |s| ==> s[i] != s[j]
  }

  ghost function Elements(s: seq<nat>): set<nat> {
    set x | x in s
  }

  lemma {:induction false} DistinctCard(s: seq<nat>)
    requires Distinct(s)
    ensures |Elements(s)| == |s|
  {
    if s != [] {
      var t, last := s[..|s| - 1], s[|s| - 1];
      assert s == t + [last];
      assert Distinct(t);
      DistinctCard(t);
      assert Elements(s) == Elements(t) + {last};
      assert last !in Elements(t);
    }
  }

  /** More than `m` values in `1 .. m` repeat one. */
  lemma Pigeonhole(s: seq<nat>, m: nat) returns (i: nat, j: nat)
    requires |s| > m
    requires forall k :: 0 <= k < |s| ==> 1 <= s[k] <= m
    ensures i < j < |s| && s[i] == s[j]
  {
    if Distinct(s) {
      DistinctCard(s);
      assert Elements(s) <= Range(m);
      SubsetCard(Elements(s), Range(m));
      assert false;
    }
    i, j :| 0 <= i < j < |s| && s[i] == s[j];
  }
}
