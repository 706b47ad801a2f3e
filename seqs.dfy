/** Sequence helpers shared by the reports: `Array.from(new Set(xs))` and the
    facts about it that the reports rely on. */
module Seqs {

  predicate NoDuplicates<T(==)>(s: seq<T>)
  {
    forall i, j :: 0 <= i < j < |s| ==> s[i] != s[j]
  }

  /** The index of the first occurrence of `x` in `s`. */
  function FirstIndex<T(==)>(s: seq<T>, x: T): (k: nat)
    requires x in s
    ensures k < |s| && s[k] == x
    ensures forall i :: 0 <= i < k ==> s[i] != x
  {
    if s[0] == x then 0 else 1 + FirstIndex(s[1..], x)
  }

  /** Appending an element does not move the first occurrence of an element
      already present. */
  lemma {:induction false} FirstIndexAppend<T>(s: seq<T>, y: T, x: T)
    requires x in s
    ensures FirstIndex(s + [y], x) == FirstIndex(s, x)
  {
    if s[0] != x {
      assert (s + [y])[1..] == s[1..] + [y];
      FirstIndexAppend(s[1..], y, x);
    }
  }

  /** `r` lists the distinct elements of `s`, each once, in the order of
      their first occurrences. */
  predicate ListsDistinct<T(==)>(s: seq<T>, r: seq<T>)
  {
    && NoDuplicates(r)
    && (forall i :: 0 <= i < |r| ==> r[i] in s)
    && (forall i :: 0 <= i < |s| ==> s[i] in r)
    && (forall a, b :: 0 <= a < b < |r| ==> FirstIndex(s, r[a]) < FirstIndex(s, r[b]))
  }

  /** Appending an element keeps the listing: it is added at the end when it
      is new. */
  lemma DistinctExtend<T>(init: seq<T>, x: T, r: seq<T>)
    requires ListsDistinct(init, r)
    ensures ListsDistinct(init + [x], if x in r then r else r + [x])
  {
    var s := init + [x];
    forall a | 0 <= a < |r| ensures FirstIndex(s, r[a]) == FirstIndex(init, r[a]) {
      FirstIndexAppend(init, x, r[a]);
    }
    forall i | 0 <= i < |s| ensures s[i] in r || s[i] == x {
      if i < |init| { assert s[i] == init[i]; }
    }
    if x !in r {
      assert FirstIndex(s, x) == |init| by {
        assert forall i :: 0 <= i < |init| ==> s[i] != x;
      }
    }
  }

  /** `Array.from(new Set(s))`: the distinct elements of `s`, each at its
      first occurrence, in the order of those occurrences. */
  function Distinct<T(==)>(s: seq<T>): (r: seq<T>)
    ensures ListsDistinct(s, r)
  {
    if s == [] then []
    else
      var init := s[..|s| - 1];
      var x := s[|s| - 1];
      assert s == init + [x];
      var r := Distinct(init);
      DistinctExtend(init, x, r);
      if x in r then r else r + [x]
  }

  /** A sequence without duplicates has as many elements as its set. */
  lemma {:induction false} NoDuplicatesCardinality<T>(s: seq<T>)
    requires NoDuplicates(s)
    ensures |set x | x in s| == |s|
  {
    if s != [] {
      var init := s[..|s| - 1];
      assert s == init + [s[|s| - 1]];
      NoDuplicatesCardinality(init);
      assert (set x | x in s) == (set x | x in init) + {s[|s| - 1]};
    }
  }

  /** `new Set(s).size`: the number of distinct elements of `s`. */
  lemma DistinctSize<T>(s: seq<T>)
    ensures |Distinct(s)| == |set x | x in s|
  {
    var r := Distinct(s);
    NoDuplicatesCardinality(r);
    assert (set x | x in r) == (set x | x in s) by {
      forall x | x in s ensures x in r {
        var i :| 0 <= i < |s| && s[i] == x;
      }
      forall x | x in r ensures x in s {
        var i :| 0 <= i < |r| && r[i] == x;
      }
    }
  }

  /** `s.filter(p)`: the elements that pass `p`, in their order. */
  function Filter<T>(s: seq<T>, p: T -> bool): seq<T>
  {
    if s == [] then []
    else Filter(s[..|s| - 1], p) + (if p(s[|s| - 1]) then [s[|s| - 1]] else [])
  }

  /** The filtered sequence is the subsequence of `s` at strictly increasing
      indices `idx`: every element there passes, and every index whose
      element passes is among them. */
  lemma {:induction false} FilterOrder<T>(s: seq<T>, p: T -> bool) returns (idx: seq<nat>)
    ensures |idx| == |Filter(s, p)|
    ensures forall t :: 0 <= t < |idx| ==> idx[t] < |s| && s[idx[t]] == Filter(s, p)[t] && p(s[idx[t]])
    ensures forall a, b :: 0 <= a < b < |idx| ==> idx[a] < idx[b]
    ensures forall k :: 0 <= k < |s| && p(s[k]) ==> k in idx
  {
    if s == [] {
      idx := [];
    } else {
      var n := |s| - 1;
      var init := s[..n];
      var prev := FilterOrder(init, p);
      var before := Filter(init, p);
      var tail: seq<T> := if p(s[n]) then [s[n]] else [];
      idx := prev + (if p(s[n]) then [n] else []);
      assert Filter(s, p) == before + tail;
      forall t | 0 <= t < |idx| ensures idx[t] < |s| && s[idx[t]] == Filter(s, p)[t] && p(s[idx[t]]) {
        if t < |prev| {
          assert idx[t] == prev[t] && (before + tail)[t] == before[t];
          assert init[prev[t]] == s[prev[t]];
        } else {
          assert idx[t] == n && (before + tail)[t] == s[n];
        }
      }
      forall a, b | 0 <= a < b < |idx| ensures idx[a] < idx[b] {
        if b < |prev| {
          assert idx[a] == prev[a] && idx[b] == prev[b];
        } else {
          assert idx[a] == prev[a] && idx[b] == n;
        }
      }
      forall k | 0 <= k < |s| && p(s[k]) ensures k in idx {
        if k < n {
          assert init[k] == s[k];
          assert k in prev;
        }
      }
    }
  }
}
