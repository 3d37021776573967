/** Sequence helpers: duplicate-freedom and order-keeping de-duplication. */
module Seqs {

  /** No value occurs twice in `s`. */
  predicate NoDuplicates<T(==)>(s: seq<T>)
  {
    forall i, j :: 0 <= i < j < |s| ==> s[i] != s[j]
  }

  /** The position of the first occurrence of `x` in `s`. */
  function IndexOf<T(==)>(s: seq<T>, x: T): (i: nat)
    requires x in s
    ensures i < |s| && s[i] == x
    ensures x !in s[..i]
  {
    if s[0] == x then 0 else 1 + IndexOf(s[1..], x)
  }

  /** Keeps the first occurrence of every value and drops later repeats, in
      encounter order (what a stream's `distinct` step does). */
  function Distinct<T(==,!new)>(s: seq<T>): (r: seq<T>)
    ensures NoDuplicates(r)
    ensures forall x :: x in r <==> x in s
    ensures |r| <= |s|
    ensures r == [] <==> s == []
  {
    if |s| == 0 then []
    else
      var p := Distinct(s[..|s| - 1]);
      if s[|s| - 1] in p then p else p + [s[|s| - 1]]
  }

  /** The positions of `s` whose element satisfies `keep`, in increasing
      order: the index trail of a stream's `filter` step. */
  function Positions<T>(s: seq<T>, keep: T -> bool): (idx: seq<nat>)
    ensures forall k :: 0 <= k < |idx| ==> idx[k] < |s| && keep(s[idx[k]])
    ensures forall k, l :: 0 <= k < l < |idx| ==> idx[k] < idx[l]
    ensures forall j :: 0 <= j < |s| && keep(s[j]) ==> j in idx
  {
    if |s| == 0 then []
    else
      var p := Positions(s[..|s| - 1], keep);
      p + (if keep(s[|s| - 1]) then [|s| - 1] else [])
  }

  /** In a duplicate-free sequence every member occurs exactly once. */
  lemma {:induction false} NoDuplicatesCountsOne<T>(s: seq<T>, x: T)
    requires NoDuplicates(s)
    requires x in s
    ensures multiset(s)[x] == 1
  {
    if s[|s| - 1] == x {
      var p := s[..|s| - 1];
      assert s == p + [x];
      assert x !in p by {
        forall k | 0 <= k < |p| ensures p[k] != x {
          assert s[k] != s[|s| - 1];
        }
      }
      assert multiset(p)[x] == 0;
    } else {
      var p := s[..|s| - 1];
      assert s == p + [s[|s| - 1]];
      assert x in p;
      NoDuplicatesCountsOne(p, x);
    }
  }

  /** The first occurrence of a value is unaffected by appending. */
  lemma IndexOfAppend<T>(s: seq<T>, y: T, x: T)
    requires x in s
    ensures IndexOf(s + [y], x) == IndexOf(s, x)
  {
    if s[0] != x {
      assert (s + [y])[1..] == s[1..] + [y];
      IndexOfAppend(s[1..], y, x);
    }
  }

  /** `Distinct` keeps values in the order of their first occurrence. */
  lemma {:induction false} DistinctKeepsFirstOccurrenceOrder<T(!new)>(s: seq<T>)
    ensures forall i, j :: 0 <= i < j < |Distinct(s)| ==>
      IndexOf(s, Distinct(s)[i]) < IndexOf(s, Distinct(s)[j])
  {
    if |s| > 0 {
      var q := s[..|s| - 1];
      var last := s[|s| - 1];
      var p := Distinct(q);
      assert s == q + [last];
      DistinctKeepsFirstOccurrenceOrder(q);
      forall x | x in q ensures IndexOf(s, x) == IndexOf(q, x) {
        IndexOfAppend(q, last, x);
      }
      if last !in p {
        assert last !in q;
        assert IndexOf(s, last) == |q| by {
          assert s[..|q|] == q;
        }
        forall i, j | 0 <= i < j < |Distinct(s)|
          ensures IndexOf(s, Distinct(s)[i]) < IndexOf(s, Distinct(s)[j])
        {
          assert Distinct(s) == p + [last];
          if j < |p| {
            assert Distinct(s)[i] == p[i] && Distinct(s)[j] == p[j];
          } else {
            assert Distinct(s)[i] == p[i];
            assert p[i] in q;
          }
        }
      }
    }
  }
}
