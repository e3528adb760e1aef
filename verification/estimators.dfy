/**
  The estimators of the library: the sketch-based Jaccard similarity
  (`minhash_jaccard`), the guard of the K-Minimum-Values cardinality
  estimate (`minhash_cardinality`), and the exact baselines
  (`exact_jaccard`, `exact_cardinality`). Float results are exact ratios.
 */
module Estimators {
  import opened SketchTypes
  import opened SketchBuilders

  /** The real (non-sentinel) digests of a sketch, duplicates collapsed. */
  ghost function ValidDigests(s: seq<u64>): set<u64>
  {
    set x | x in s && x != GlobalMaxInt
  }

  lemma ValidDigestsAppend(s: seq<u64>, x: u64)
    ensures ValidDigests(s + [x]) == ValidDigests(s) + (if x != GlobalMaxInt then {x} else {})
  {
    assert forall y :: y in s + [x] <==> y in s || y == x;
  }

  /**
    The number of real entries of `s1` found anywhere in `s2`; an entry
    repeated in `s1` is counted once per occurrence.
   */
  ghost function SharedCount(s1: seq<u64>, s2: seq<u64>): nat
  {
    if s1 == [] then 0
    else
      var last := s1[|s1| - 1];
      SharedCount(s1[..|s1| - 1], s2) + (if last != GlobalMaxInt && last in s2 then 1 else 0)
  }

  /**
    The value of `minhash_jaccard`: shared entries over the size of the union
    of real digests, and zero when that union is empty.
   */
  ghost function JaccardEstimate(mh1: seq<u64>, mh2: seq<u64>): Ratio
  {
    var unionCount := |ValidDigests(mh1) + ValidDigests(mh2)|;
    if unionCount == 0 then Ratio(0, 1) else Ratio(SharedCount(mh1, mh2), unionCount)
  }

  /** `minhash_jaccard`: count the entries of `mh1` that occur in `mh2`, divide by the union size. */
  method MinHashJaccard(mh1: seq<u64>, mh2: seq<u64>) returns (similarity: Ratio)
    ensures similarity == JaccardEstimate(mh1, mh2)
    ensures similarity.den > 0
    ensures similarity.num == 0 <==> ValidDigests(mh1) * ValidDigests(mh2) == {}
  {
    var intersectionCount := 0;
    var unionSet: set<u64> := {};
    for i := 0 to |mh1|
      invariant intersectionCount == SharedCount(mh1[..i], mh2)
      invariant unionSet == ValidDigests(mh1[..i])
    {
      assert mh1[..i + 1] == mh1[..i] + [mh1[i]];
      ValidDigestsAppend(mh1[..i], mh1[i]);
      if mh1[i] != GlobalMaxInt {
        unionSet := unionSet + {mh1[i]};
        if mh1[i] in mh2 {
          intersectionCount := intersectionCount + 1;
        }
      }
    }
    assert mh1[..|mh1|] == mh1;
    for i := 0 to |mh2|
      invariant unionSet == ValidDigests(mh1) + ValidDigests(mh2[..i])
    {
      assert mh2[..i + 1] == mh2[..i] + [mh2[i]];
      ValidDigestsAppend(mh2[..i], mh2[i]);
      if mh2[i] != GlobalMaxInt {
        unionSet := unionSet + {mh2[i]};
      }
    }
    assert mh2[..|mh2|] == mh2;
    var unionCount := |unionSet|;
    if unionCount == 0 {
      similarity := Ratio(0, 1);
    } else {
      similarity := Ratio(intersectionCount, unionCount);
    }
    JaccardZeroIffDisjoint(mh1, mh2);
  }

  /**
    The estimate has a positive denominator, and its numerator is zero exactly
    when the two sketches share no real digest.
   */
  lemma JaccardZeroIffDisjoint(mh1: seq<u64>, mh2: seq<u64>)
    ensures JaccardEstimate(mh1, mh2).den > 0
    ensures JaccardEstimate(mh1, mh2).num == 0 <==> ValidDigests(mh1) * ValidDigests(mh2) == {}
  {
    SharedCountZero(mh1, mh2);
  }

  /** One more entry of `s1` adds one to the shared count exactly when it is real and occurs in `s2`. */
  lemma SharedCountAppend(p: seq<u64>, last: u64, s2: seq<u64>)
    ensures SharedCount(p + [last], s2) ==
            SharedCount(p, s2) + (if last in ValidDigests(s2) then 1 else 0)
    ensures ValidDigests(p + [last]) * ValidDigests(s2) ==
            ValidDigests(p) * ValidDigests(s2) + (if last in ValidDigests(s2) then {last} else {})
  {
    assert (p + [last])[..|p|] == p;
    ValidDigestsAppend(p, last);
    assert last in ValidDigests(s2) <==> last != GlobalMaxInt && last in s2;
  }

  /** No entry is shared exactly when the two sketches have no real digest in common. */
  lemma {:induction false} SharedCountZero(s1: seq<u64>, s2: seq<u64>)
    ensures SharedCount(s1, s2) == 0 <==> ValidDigests(s1) * ValidDigests(s2) == {}
  {
    if s1 != [] {
      var p := s1[..|s1| - 1];
      var last := s1[|s1| - 1];
      assert s1 == p + [last];
      SharedCountZero(p, s2);
      SharedCountAppend(p, last, s2);
    }
  }

  /** Dropping the last entry keeps a sketch free of repeats, and that entry, if real, is not among the rest. */
  lemma NoRepeatsWithoutLast(s: seq<u64>)
    requires NoRepeatedDigests(s) && s != []
    ensures NoRepeatedDigests(s[..|s| - 1])
    ensures s[|s| - 1] !in ValidDigests(s[..|s| - 1])
  {
    var p := s[..|s| - 1];
    forall i | 0 <= i < |p|
      ensures p[i] != s[|s| - 1] || p[i] == GlobalMaxInt
    {
      assert s[i] == p[i];
    }
  }

  /** Without repeated digests in `s1`, the shared count is the size of the set intersection. */
  lemma {:induction false} SharedCountIsIntersection(s1: seq<u64>, s2: seq<u64>)
    requires NoRepeatedDigests(s1)
    ensures SharedCount(s1, s2) == |ValidDigests(s1) * ValidDigests(s2)|
  {
    if s1 != [] {
      var p := s1[..|s1| - 1];
      var last := s1[|s1| - 1];
      assert s1 == p + [last];
      NoRepeatsWithoutLast(s1);
      SharedCountIsIntersection(p, s2);
      SharedCountAppend(p, last, s2);
      assert last !in ValidDigests(p) * ValidDigests(s2);
    }
  }

  /** When neither sketch repeats a real digest, the estimate is a fraction in [0, 1]. */
  lemma JaccardAtMostOne(mh1: seq<u64>, mh2: seq<u64>)
    requires NoRepeatedDigests(mh1)
    ensures JaccardEstimate(mh1, mh2).den > 0
    ensures JaccardEstimate(mh1, mh2).num <= JaccardEstimate(mh1, mh2).den
  {
    SharedCountIsIntersection(mh1, mh2);
    var a, b := ValidDigests(mh1), ValidDigests(mh2);
    assert a * b <= a + b;
    assert |a + b| == |a - b| + |b - a| + |a * b|;
  }

  /** When neither sketch repeats a real digest, the estimate is symmetric. */
  lemma JaccardSymmetric(mh1: seq<u64>, mh2: seq<u64>)
    requires NoRepeatedDigests(mh1) && NoRepeatedDigests(mh2)
    ensures JaccardEstimate(mh1, mh2) == JaccardEstimate(mh2, mh1)
  {
    SharedCountIsIntersection(mh1, mh2);
    SharedCountIsIntersection(mh2, mh1);
    assert ValidDigests(mh1) * ValidDigests(mh2) == ValidDigests(mh2) * ValidDigests(mh1);
    assert ValidDigests(mh1) + ValidDigests(mh2) == ValidDigests(mh2) + ValidDigests(mh1);
  }

  /** A sketch without repeats and with at least one real digest has similarity 1 with itself. */
  lemma JaccardWithItself(s: seq<u64>)
    requires NoRepeatedDigests(s)
    requires exists i :: 0 <= i < |s| && s[i] != GlobalMaxInt
    ensures JaccardEstimate(s, s).num == JaccardEstimate(s, s).den > 0
  {
    var i :| 0 <= i < |s| && s[i] != GlobalMaxInt;
    var v := ValidDigests(s);
    assert s[i] in v;
    SharedCountIsIntersection(s, s);
    assert v * v == v && v + v == v;
  }

  /** Two sketches that hold only sentinels have similarity 0. */
  lemma JaccardOfEmptySketches(mh1: seq<u64>, mh2: seq<u64>)
    requires forall i :: 0 <= i < |mh1| ==> mh1[i] == GlobalMaxInt
    requires forall i :: 0 <= i < |mh2| ==> mh2[i] == GlobalMaxInt
    ensures JaccardEstimate(mh1, mh2) == Ratio(0, 1)
  {
    assert ValidDigests(mh1) == {};
    assert ValidDigests(mh2) == {};
  }

  /** A repeated real entry is counted once per occurrence, so the estimate can exceed 1. */
  lemma JaccardCountsRepeatedEntries()
    ensures JaccardEstimate([5, 5], [5]) == Ratio(2, 1)
  {
    ValidDigestsAppend([], 5);
    ValidDigestsAppend([5], 5);
    SharedCountAppend([], 5, [5]);
    SharedCountAppend([5], 5, [5]);
    assert [] + [5] == [5] && [5] + [5] == [5, 5];
  }

  /** The exact Jaccard similarity of two sets, zero when both are empty. */
  function SetJaccard<T>(a: set<T>, b: set<T>): (r: Ratio)
    ensures r.den > 0 && r.num <= r.den
    ensures r.num == 0 <==> a * b == {}
    ensures r.num == r.den <==> (a == b && a != {})
  {
    var u := a + b;
    var i := a * b;
    assert |u| == |a - b| + |b - a| + |i|;
    if |u| == 0 then Ratio(0, 1)
    else
      assert |i| == |u| ==> i == u by {
        if |i| == |u| {
          SubsetOfSameSize(i, u);
        }
      }
      assert a == b ==> i == u;
      Ratio(|i|, |u|)
  }

  /** A sketch that holds all of a digest set without the sentinel has exactly that set as its real digests. */
  lemma FullSketchDigests(S: set<u64>, k: nat, r: seq<u64>)
    requires IsBottomK(S, k, r)
    requires |S| <= k
    requires GlobalMaxInt !in S
    ensures ValidDigests(r) == S
  {
    var m := Kept(S, k);
    var kept := Elems(r[..m]);
    assert kept <= S;
    assert NoDuplicates(r[..m]);
    ElemsCardinality(r[..m]);
    SubsetOfSameSize(kept, S);
    forall x | x in ValidDigests(r)
      ensures x in S
    {
      var i :| 0 <= i < |r| && r[i] == x;
      assert i < m;
    }
    forall x | x in S
      ensures x in ValidDigests(r)
    {
      assert x in kept;
      var i :| 0 <= i < m && r[..m][i] == x;
      assert r[i] == x;
    }
  }

  /**
    When both sketches hold their whole digest sets (`k` at least the set
    sizes, no digest equal to the sentinel), the estimate is the exact
    Jaccard similarity of the digest sets.
   */
  lemma JaccardOfFullSketches(S1: set<u64>, S2: set<u64>, k: nat, r1: seq<u64>, r2: seq<u64>)
    requires IsBottomK(S1, k, r1) && IsBottomK(S2, k, r2)
    requires |S1| <= k && |S2| <= k
    requires GlobalMaxInt !in S1 && GlobalMaxInt !in S2
    ensures JaccardEstimate(r1, r2) == SetJaccard(S1, S2)
  {
    FullSketchDigests(S1, k, r1);
    FullSketchDigests(S2, k, r2);
    BottomKNoRepeats(S1, k, r1);
    SharedCountIsIntersection(r1, r2);
  }

  /** The outcome of `minhash_cardinality`: its guarded zero, or the k-th digest the estimate is computed from. */
  datatype CardinalityEstimate = Zero | FromKthDigest(k: nat, kth: u64)

  /**
    `minhash_cardinality`: returns 0 when `k` exceeds the sketch length or
    the sketch is empty; otherwise the estimate is computed from `mh[k-1]`.
   */
  function MinHashCardinality(mh: seq<u64>, k: nat): (r: CardinalityEstimate)
    requires mh != [] ==> k >= 1
    ensures r == Zero <==> (k > |mh| || mh == [])
    ensures r != Zero ==> r.k == k && 1 <= k <= |mh| && r.kth == mh[k - 1]
  {
    if k > |mh| || mh == [] then Zero else FromKthDigest(k, mh[k - 1])
  }

  /**
    On a bottom-k sketch of a set with at least `k` digests, the estimate
    reads the k-th smallest digest: exactly `k` digests of the set are at
    most that value.
   */
  lemma CardinalityReadsKthSmallest(S: set<u64>, k: nat, r: seq<u64>)
    requires IsBottomK(S, k, r)
    requires 1 <= k <= |S|
    ensures MinHashCardinality(r, k) == FromKthDigest(k, r[k - 1])
    ensures |set x | x in S && x <= r[k - 1]| == k
  {
    var kth := r[k - 1];
    var below := set x | x in S && x <= kth;
    assert Kept(S, k) == k;
    assert r[..k] == r;
    forall x | x in below
      ensures x in Elems(r)
    {
      assert x in r[..k] by {
        assert x !in r[..k] ==> kth < x;
      }
    }
    forall x | x in Elems(r)
      ensures x in below
    {
      var i :| 0 <= i < k && r[i] == x;
      assert i < k - 1 ==> r[..k][i] < r[..k][k - 1];
    }
    assert below == Elems(r);
    assert NoDuplicates(r) by {
      assert StrictlyIncreasing(r[..k]);
    }
    ElemsCardinality(r);
  }

  /** `exact_jaccard`: the Jaccard similarity of the two inputs' value sets. */
  function ExactJaccard(raw1: seq<i32>, raw2: seq<i32>): (r: Ratio)
    ensures r.den > 0 && r.num <= r.den
    ensures r.num == 0 <==> forall x :: x in raw1 ==> x !in raw2
    ensures (Elems(raw1) == Elems(raw2) && raw1 != []) ==> r.num == r.den
    ensures (raw1 == [] && raw2 == []) ==> r == Ratio(0, 1)
  {
    assert raw1 != [] ==> raw1[0] in Elems(raw1);
    DisjointElems(raw1, raw2);
    assert raw1 == [] ==> Elems(raw1) == {};
    assert raw2 == [] ==> Elems(raw2) == {};
    SetJaccard(Elems(raw1), Elems(raw2))
  }

  lemma DisjointElems<T>(a: seq<T>, b: seq<T>)
    ensures (forall x :: x in a ==> x !in b) <==> Elems(a) * Elems(b) == {}
  {
    if Elems(a) * Elems(b) == {} {
      forall x | x in a
        ensures x !in b
      {
        assert x in b ==> x in Elems(a) * Elems(b);
      }
    }
    if forall x :: x in a ==> x !in b {
      forall y
        ensures y !in Elems(a) * Elems(b)
      {
        assert y in Elems(a) ==> y in a;
      }
    }
  }

  /** The exact similarity is symmetric and ignores order and repetition of the inputs. */
  lemma ExactJaccardSymmetricAndSetBased(raw1: seq<i32>, raw2: seq<i32>, raw1': seq<i32>)
    requires Elems(raw1) == Elems(raw1')
    ensures ExactJaccard(raw1, raw2) == ExactJaccard(raw2, raw1)
    ensures ExactJaccard(raw1, raw2) == ExactJaccard(raw1', raw2)
  {
    assert Elems(raw1) * Elems(raw2) == Elems(raw2) * Elems(raw1);
    assert Elems(raw1) + Elems(raw2) == Elems(raw2) + Elems(raw1);
  }

  /** `exact_cardinality`: the number of distinct values. */
  function ExactCardinality(raw: seq<i32>): (n: nat)
    ensures n <= |raw|
    ensures n == 0 <==> raw == []
    ensures NoDuplicates(raw) ==> n == |raw|
  {
    ElemsCardinality(raw);
    assert raw != [] ==> raw[0] in Elems(raw);
    |Elems(raw)|
  }

  /** The number of positions holding a value that does not occur earlier in the list. */
  ghost function FirstOccurrences(raw: seq<i32>): nat
  {
    if raw == [] then 0
    else
      var p := raw[..|raw| - 1];
      FirstOccurrences(p) + (if raw[|raw| - 1] in p then 0 else 1)
  }

  /** Counting distinct values is counting first occurrences. */
  lemma {:induction false} ExactCardinalityCountsFirstOccurrences(raw: seq<i32>)
    ensures ExactCardinality(raw) == FirstOccurrences(raw)
  {
    if raw != [] {
      var p := raw[..|raw| - 1];
      var x := raw[|raw| - 1];
      assert raw == p + [x];
      assert Elems(raw) == Elems(p) + {x};
      assert x in p <==> x in Elems(p);
      ExactCardinalityCountsFirstOccurrences(p);
    }
  }

  /** `exact_cardinality([1,1,2,3,3,3])` is 3. */
  lemma ExactCardinalityExample()
    ensures ExactCardinality([1, 1, 2, 3, 3, 3]) == 3
  {
    var raw: seq<i32> := [1, 1, 2, 3, 3, 3];
    assert forall x :: x in raw <==> x == 1 || x == 2 || x == 3;
    assert Elems(raw) == {1, 2, 3};
  }
}
