/**
  The three sketch builders of the library: bottom-k MinHash (`kminhash`),
  one running minimum per hash function (`khash_minhash`), and one minimum
  per bucket of the digest's top bits (`kpartition_minhash`).
 */
module SketchBuilders {
  import opened SketchTypes

  /** The set of distinct digests `h` produces over an input list. */
  ghost function HashedSet(xs: seq<i32>, h: HashFunction): set<u64>
  {
    set x | x in xs :: h(x)
  }

  lemma HashedSetAppend(xs: seq<i32>, x: i32, h: HashFunction)
    ensures HashedSet(xs + [x], h) == HashedSet(xs, h) + {h(x)}
  {
    assert forall y :: y in xs + [x] <==> y in xs || y == x;
  }

  /** Extending a prefix of `xs` by one element adds that element's digest. */
  lemma HashedSetPrefixStep(xs: seq<i32>, n: nat, h: HashFunction)
    requires n < |xs|
    ensures HashedSet(xs[..n + 1], h) == HashedSet(xs[..n], h) + {h(xs[n])}
  {
    assert xs[..n + 1] == xs[..n] + [xs[n]];
    HashedSetAppend(xs[..n], xs[n], h);
  }

  /** Lists with the same elements hash to the same set, whatever their order and repetitions. */
  lemma HashedSetOfSameElements(a: seq<i32>, b: seq<i32>, h: HashFunction)
    requires Elems(a) == Elems(b)
    ensures HashedSet(a, h) == HashedSet(b, h)
  {
    assert forall x :: x in a <==> x in Elems(a);
    assert forall x :: x in b <==> x in Elems(b);
  }

  /** `n` sentinel digests: the padding of a bottom-k sketch. */
  function Padding(n: nat): (r: seq<u64>)
    ensures |r| == n && forall i :: 0 <= i < n ==> r[i] == GlobalMaxInt
  {
    seq(n, _ => GlobalMaxInt)
  }

  /** One more sentinel lengthens the padding by one. */
  lemma PaddingGrows(prefix: seq<u64>, n: nat)
    ensures prefix + Padding(n) + [GlobalMaxInt] == prefix + Padding(n + 1)
  {
    assert Padding(n) + [GlobalMaxInt] == Padding(n + 1);
  }

  /** The number of real digests in a bottom-k sketch of `S`: `min(k, |S|)`. */
  function Kept(S: set<u64>, k: nat): nat
  {
    if k < |S| then k else |S|
  }

  /**
    `r` is a bottom-k sketch of the digest set `S`: exactly `k` entries, the
    first `min(k, |S|)` of them strictly ascending digests of `S` such that
    every digest of `S` left out is larger than all of them, and every
    remaining slot the sentinel.
   */
  ghost predicate IsBottomK(S: set<u64>, k: nat, r: seq<u64>)
  {
    var m := Kept(S, k);
    && |r| == k
    && StrictlyIncreasing(r[..m])
    && (forall i :: 0 <= i < m ==> r[i] in S)
    && (forall i :: m <= i < k ==> r[i] == GlobalMaxInt)
    && (forall v :: v in S && v !in r[..m] ==> forall i :: 0 <= i < m ==> r[i] < v)
  }

  /** The bottom-k sketch of `S`, built the way the library builds it: sort, take `k`, pad. */
  ghost function BottomK(S: set<u64>, k: nat): seq<u64>
  {
    var m := Kept(S, k);
    SortedDigests(S)[..m] + Padding(k - m)
  }

  lemma BottomKIsBottomK(S: set<u64>, k: nat)
    ensures IsBottomK(S, k, BottomK(S, k))
  {
    var sorted := SortedDigests(S);
    var m := Kept(S, k);
    var r := BottomK(S, k);
    assert r[..m] == sorted[..m];
    forall i | 0 <= i < m
      ensures r[i] in S
    {
      assert sorted[i] in Elems(sorted);
    }
    forall v | v in S && v !in r[..m]
      ensures forall i :: 0 <= i < m ==> r[i] < v
    {
      assert v in Elems(sorted);
      var j :| 0 <= j < |sorted| && sorted[j] == v;
      assert forall t :: 0 <= t < m ==> sorted[t] == r[..m][t];
      assert j >= m;
      assert forall t :: 0 <= t < m ==> sorted[t] < sorted[j];
    }
  }

  /** Entry `i` of a bottom-k sketch is the least digest of `S` not already among the entries before it. */
  lemma KeptEntryIsLeastRemaining(S: set<u64>, k: nat, r: seq<u64>, i: nat)
    requires IsBottomK(S, k, r)
    requires i < Kept(S, k)
    ensures r[i] in S && r[i] !in r[..i]
    ensures forall v :: v in S && v !in r[..i] ==> r[i] <= v
  {
    var m := Kept(S, k);
    forall j | 0 <= j < i
      ensures r[..i][j] < r[i]
    {
      assert r[..m][j] < r[..m][i];
    }
    forall v | v in S && v !in r[..i]
      ensures r[i] <= v
    {
      if v in r[..m] {
        var j :| 0 <= j < m && r[..m][j] == v;
        assert forall t :: 0 <= t < i ==> r[t] == r[..i][t];
        assert j >= i;
        assert i < j ==> r[..m][i] < r[..m][j];
      }
    }
  }

  lemma {:induction false} BottomKPrefixUnique(S: set<u64>, k: nat, r1: seq<u64>, r2: seq<u64>, n: nat)
    requires IsBottomK(S, k, r1) && IsBottomK(S, k, r2)
    requires n <= Kept(S, k)
    ensures r1[..n] == r2[..n]
  {
    if n > 0 {
      var i := n - 1;
      BottomKPrefixUnique(S, k, r1, r2, i);
      KeptEntryIsLeastRemaining(S, k, r1, i);
      KeptEntryIsLeastRemaining(S, k, r2, i);
      assert r1[i] <= r2[i] && r2[i] <= r1[i];
      assert r1[..n] == r1[..i] + [r1[i]];
      assert r2[..n] == r2[..i] + [r2[i]];
    }
  }

  /** A digest set has exactly one bottom-k sketch. */
  lemma BottomKUnique(S: set<u64>, k: nat, r1: seq<u64>, r2: seq<u64>)
    requires IsBottomK(S, k, r1) && IsBottomK(S, k, r2)
    ensures r1 == r2
  {
    var m := Kept(S, k);
    BottomKPrefixUnique(S, k, r1, r2, m);
    forall i | 0 <= i < k
      ensures r1[i] == r2[i]
    {
      assert i < m ==> r1[..m][i] == r2[..m][i];
    }
  }

  /** Any bottom-k sketch of `S` is the one the library builds. */
  lemma BottomKCanonical(S: set<u64>, k: nat, r: seq<u64>)
    requires IsBottomK(S, k, r)
    ensures r == BottomK(S, k)
  {
    BottomKIsBottomK(S, k);
    BottomKUnique(S, k, r, BottomK(S, k));
  }

  /**
    `kminhash`: the `k` smallest distinct digests of the input, ascending,
    padded with the sentinel to exactly `k` entries.
   */
  method KMinHash(inList: seq<i32>, k: nat, h: HashFunction) returns (result: seq<u64>)
    ensures IsBottomK(HashedSet(inList, h), k, result)
    ensures result == BottomK(HashedSet(inList, h), k)
  {
    var uniqueHashValues: set<u64> := {};
    for n := 0 to |inList|
      invariant uniqueHashValues == HashedSet(inList[..n], h)
    {
      HashedSetPrefixStep(inList, n, h);
      uniqueHashValues := uniqueHashValues + {h(inList[n])};
    }
    assert inList[..|inList|] == inList;
    var sortedHashValues := SortedDigests(uniqueHashValues);
    result := TakeAndPad(sortedHashValues, k);
    BottomKIsBottomK(uniqueHashValues, k);
  }

  /** The output loops of `kminhash`: the first `min(k, |sorted|)` values, then sentinels up to `k` entries. */
  method TakeAndPad(sorted: seq<u64>, k: nat) returns (result: seq<u64>)
    ensures result == sorted[..if k < |sorted| then k else |sorted|] + Padding(k - (if k < |sorted| then k else |sorted|))
  {
    result := [];
    var i := 0;
    while i < k && i < |sorted|
      invariant i <= k && i <= |sorted|
      invariant result == sorted[..i]
    {
      result := result + [sorted[i]];
      i := i + 1;
    }
    ghost var m := i;
    while |result| < k
      invariant m <= |result| <= k
      invariant result == sorted[..m] + Padding(|result| - m)
    {
      PaddingGrows(sorted[..m], |result| - m);
      result := result + [GlobalMaxInt];
    }
  }

  /** The sketch depends only on which values occur: reordering or repeating inputs does not change it. */
  lemma KMinHashIgnoresOrderAndRepeats(a: seq<i32>, b: seq<i32>, k: nat, h: HashFunction, ra: seq<u64>, rb: seq<u64>)
    requires Elems(a) == Elems(b)
    requires IsBottomK(HashedSet(a, h), k, ra)
    requires IsBottomK(HashedSet(b, h), k, rb)
    ensures ra == rb
  {
    HashedSetOfSameElements(a, b, h);
    BottomKUnique(HashedSet(a, h), k, ra, rb);
  }

  /** A bottom-k sketch never repeats a real digest. */
  lemma BottomKNoRepeats(S: set<u64>, k: nat, r: seq<u64>)
    requires IsBottomK(S, k, r)
    ensures NoRepeatedDigests(r)
  {
    var m := Kept(S, k);
    forall i, j | 0 <= i < j < |r| && r[i] != GlobalMaxInt
      ensures r[i] != r[j]
    {
      if j < m {
        assert r[..m][i] < r[..m][j];
      }
    }
  }

  /** The identity hash: an `int` converted to `uint64_t`. */
  function IdentityHash(x: i32): u64
  {
    ToUint64(x)
  }

  /** The squaring hash `x * x` converted to `uint64_t`. */
  function SquareHash(x: i32): u64
  {
    ToUint64(x * x)
  }

  lemma ExampleDigests()
    ensures HashedSet([5, 3, 3, 8, 1], IdentityHash) == {1, 3, 5, 8}
  {
    var xs: seq<i32> := [5, 3, 3, 8, 1];
    assert forall x :: x in xs <==> x == 5 || x == 3 || x == 8 || x == 1;
    assert IdentityHash(5) == 5 && IdentityHash(3) == 3 && IdentityHash(8) == 8 && IdentityHash(1) == 1;
    forall d | d in HashedSet(xs, IdentityHash)
      ensures d in {1, 3, 5, 8}
    {
      var x :| x in xs && IdentityHash(x) == d;
    }
    assert 5 in xs && 3 in xs && 8 in xs && 1 in xs;
  }

  lemma ExampleSketch(S: set<u64>)
    requires S == {1, 3, 5, 8}
    ensures IsBottomK(S, 3, [1, 3, 5])
  {
    var sketch: seq<u64> := [1, 3, 5];
    assert |S| == 4;
    assert Kept(S, 3) == 3;
    assert sketch[..3] == sketch;
    assert forall v :: v in S && v !in sketch ==> v == 8;
  }

  /** `kminhash([5,3,3,8,1], 3, identity)` is `[1,3,5]`. */
  lemma KMinHashExample(r: seq<u64>)
    requires IsBottomK(HashedSet([5, 3, 3, 8, 1], IdentityHash), 3, r)
    ensures r == [1, 3, 5]
  {
    ExampleDigests();
    ExampleSketch(HashedSet([5, 3, 3, 8, 1], IdentityHash));
    BottomKUnique(HashedSet([5, 3, 3, 8, 1], IdentityHash), 3, r, [1, 3, 5]);
  }

  /**
    `x` is the least digest of `D`, or the sentinel when `D` is empty: the
    value a running minimum started at the sentinel ends with.
   */
  ghost predicate IsMinOrSentinel(x: u64, D: set<u64>)
  {
    && (D == {} ==> x == GlobalMaxInt)
    && (D != {} ==> x in D && forall d :: d in D ==> x <= d)
  }

  /** One step of a running minimum: `min(x, d)` is the minimum of `D` with `d` added. */
  lemma MinOrSentinelInsert(x: u64, D: set<u64>, d: u64)
    requires IsMinOrSentinel(x, D)
    ensures IsMinOrSentinel(Min(x, d), D + {d})
  {
    GlobalMaxIntIsLargest(d);
  }

  /** At most one value is the minimum-or-sentinel of a set. */
  lemma MinOrSentinelUnique(x: u64, y: u64, D: set<u64>)
    requires IsMinOrSentinel(x, D) && IsMinOrSentinel(y, D)
    ensures x == y
  {
  }

  /** `r` is the `khash_minhash` sketch of `xs`: slot `i` is the minimum digest of hash function `i`. */
  ghost predicate IsKHashSketch(xs: seq<i32>, hv: seq<HashFunction>, r: seq<u64>)
  {
    |r| == |hv| && forall i :: 0 <= i < |hv| ==> IsMinOrSentinel(r[i], HashedSet(xs, hv[i]))
  }

  /** `khash_minhash`: one running minimum per hash function, each starting at the sentinel. */
  method KHashMinHash(inList: seq<i32>, hv: seq<HashFunction>) returns (minHashes: seq<u64>)
    ensures IsKHashSketch(inList, hv, minHashes)
  {
    var a := new u64[|hv|](_ => GlobalMaxInt);
    for i := 0 to |hv|
      invariant forall j :: 0 <= j < i ==> IsMinOrSentinel(a[j], HashedSet(inList, hv[j]))
      invariant forall j :: i <= j < a.Length ==> a[j] == GlobalMaxInt
    {
      assert HashedSet(inList[..0], hv[i]) == {};
      for n := 0 to |inList|
        invariant IsMinOrSentinel(a[i], HashedSet(inList[..n], hv[i]))
        invariant forall j :: 0 <= j < i ==> IsMinOrSentinel(a[j], HashedSet(inList, hv[j]))
        invariant forall j :: i < j < a.Length ==> a[j] == GlobalMaxInt
      {
        var hashValue := hv[i](inList[n]);
        MinOrSentinelInsert(a[i], HashedSet(inList[..n], hv[i]), hashValue);
        HashedSetAppend(inList[..n], inList[n], hv[i]);
        assert inList[..n + 1] == inList[..n] + [inList[n]];
        a[i] := Min(a[i], hashValue);
      }
      assert inList[..|inList|] == inList;
    }
    minHashes := a[..];
  }

  /** With one slot, a bottom-k sketch holds exactly the running minimum `khash_minhash` computes. */
  lemma OneSlotBottomKIsRunningMinimum(xs: seq<i32>, h: HashFunction, x: u64, r: seq<u64>)
    requires IsMinOrSentinel(x, HashedSet(xs, h))
    requires IsBottomK(HashedSet(xs, h), 1, r)
    ensures r == [x]
  {
    var S := HashedSet(xs, h);
    if S != {} {
      assert r[..1] == [r[0]];
      forall d | d in S
        ensures r[0] <= d
      {
        assert d != r[0] ==> d !in r[..1];
      }
    }
  }

  /** `khash_minhash([4,2,7], [identity, square])` is `[2, 4]`. */
  lemma HashedSetOfThree(x: i32, y: i32, z: i32, h: HashFunction)
    ensures HashedSet([x, y, z], h) == {h(x), h(y), h(z)}
  {
    HashedSetAppend([], x, h);
    HashedSetAppend([x], y, h);
    HashedSetAppend([x, y], z, h);
  }

  lemma KHashMinHashExample(r: seq<u64>)
    requires IsKHashSketch([4, 2, 7], [IdentityHash, SquareHash], r)
    ensures r == [2, 4]
  {
    var xs: seq<i32> := [4, 2, 7];
    HashedSetOfThree(4, 2, 7, IdentityHash);
    HashedSetOfThree(4, 2, 7, SquareHash);
    assert HashedSet(xs, IdentityHash) == {4, 2, 7};
    assert HashedSet(xs, SquareHash) == {16, 4, 49};
    assert IsMinOrSentinel(2, HashedSet(xs, IdentityHash));
    assert IsMinOrSentinel(4, HashedSet(xs, SquareHash));
    MinOrSentinelUnique(r[0], 2, HashedSet(xs, IdentityHash));
    MinOrSentinelUnique(r[1], 4, HashedSet(xs, SquareHash));
  }

  /** `d >> s`: the digest shifted right by `s` bits, one halving per bit. */
  function ShiftRight(d: nat, s: nat): nat
  {
    if s == 0 then d else ShiftRight(d / 2, s - 1)
  }

  /** `d >> s` keeps the bits of `d` above position `s`: it is `d / 2^s`, rounded down. */
  lemma {:induction false} ShiftRightBounds(d: nat, s: nat)
    ensures ShiftRight(d, s) * Pow2(s) <= d < (ShiftRight(d, s) + 1) * Pow2(s)
  {
    if s > 0 {
      var e := d / 2;
      ShiftRightBounds(e, s - 1);
      var q := ShiftRight(e, s - 1);
      var p := Pow2(s - 1);
      assert ShiftRight(d, s) == q;
      assert Pow2(s) == 2 * p;
      var lo, hi := q * p, (q + 1) * p;
      assert lo <= e < hi;
      assert 2 * e <= d <= 2 * e + 1;
      DoubleFactor(q, p);
      DoubleFactor(q + 1, p);
    }
  }

  /** Doubling one factor doubles the product. */
  lemma DoubleFactor(x: nat, y: nat)
    ensures x * (2 * y) == 2 * (x * y)
  {
  }

  lemma MulMonotone(a: int, b: int, q: nat)
    ensures a >= b ==> a * q >= b * q
  {
    assert a * q - b * q == (a - b) * q;
  }

  /** The bucket of a digest: its top `partBits` bits, `d >> (64 - partBits)`. */
  function Bucket(d: u64, partBits: nat): nat
    requires 1 <= partBits <= 63
  {
    ShiftRight(d, 64 - partBits)
  }

  /** A bucket is an index below `2^partBits`, and it is the top bits of the digest. */
  lemma BucketInRange(d: u64, partBits: nat)
    requires 1 <= partBits <= 63
    ensures Bucket(d, partBits) < Pow2(partBits)
    ensures Bucket(d, partBits) * Pow2(64 - partBits) <= d < (Bucket(d, partBits) + 1) * Pow2(64 - partBits)
  {
    var q := Pow2(64 - partBits);
    Pow2Add(partBits, 64 - partBits);
    Pow2Is64Bits();
    ShiftRightBounds(d, 64 - partBits);
    var b := Bucket(d, partBits);
    MulMonotone(b, Pow2(partBits), q);
  }

  /** The digests of `xs` whose top `partBits` bits are `b`. */
  ghost function Routed(xs: seq<i32>, h: HashFunction, partBits: nat, b: nat): set<u64>
    requires 1 <= partBits <= 63
  {
    set x | x in xs && Bucket(h(x), partBits) == b :: h(x)
  }

  lemma RoutedAppend(xs: seq<i32>, x: i32, h: HashFunction, partBits: nat, b: nat)
    requires 1 <= partBits <= 63
    ensures Routed(xs + [x], h, partBits, b) ==
            Routed(xs, h, partBits, b) + (if Bucket(h(x), partBits) == b then {h(x)} else {})
  {
    assert forall y :: y in xs + [x] <==> y in xs || y == x;
  }

  /** `r` is the `kpartition_minhash` sketch: `2^partBits` buckets, each the minimum routed to it or the sentinel. */
  ghost predicate IsPartitionSketch(xs: seq<i32>, partBits: nat, h: HashFunction, r: seq<u64>)
    requires 1 <= partBits <= 63
  {
    |r| == Pow2(partBits) && forall b :: 0 <= b < |r| ==> IsMinOrSentinel(r[b], Routed(xs, h, partBits, b))
  }

  /** `kpartition_minhash`: one running minimum per bucket of the top `partBits` digest bits. */
  method KPartitionMinHash(inList: seq<i32>, partBits: int, h: HashFunction) returns (minHashes: seq<u64>)
    requires 1 <= partBits <= 63
    ensures IsPartitionSketch(inList, partBits, h, minHashes)
  {
    var numPartitions := Pow2(partBits);
    var a := new u64[numPartitions](_ => GlobalMaxInt);
    forall b | 0 <= b < a.Length
      ensures Routed(inList[..0], h, partBits, b) == {}
    {
    }
    for n := 0 to |inList|
      invariant forall b :: 0 <= b < a.Length ==> IsMinOrSentinel(a[b], Routed(inList[..n], h, partBits, b))
    {
      var hashValue := h(inList[n]);
      var partitionIndex := Bucket(hashValue, partBits);
      BucketInRange(hashValue, partBits);
      assert inList[..n + 1] == inList[..n] + [inList[n]];
      forall b | 0 <= b < a.Length
        ensures Routed(inList[..n + 1], h, partBits, b) ==
                Routed(inList[..n], h, partBits, b) + (if b == partitionIndex then {hashValue} else {})
      {
        RoutedAppend(inList[..n], inList[n], h, partBits, b);
      }
      MinOrSentinelInsert(a[partitionIndex], Routed(inList[..n], h, partBits, partitionIndex), hashValue);
      a[partitionIndex] := Min(a[partitionIndex], hashValue);
    }
    assert inList[..|inList|] == inList;
    minHashes := a[..];
  }

  /**
    In a partitioned sketch, a real entry of bucket `b` has top bits `b`,
    and a bucket that received no digest holds the sentinel.
   */
  lemma PartitionEntryInItsBucket(xs: seq<i32>, partBits: nat, h: HashFunction, r: seq<u64>, b: nat)
    requires 1 <= partBits <= 63
    requires IsPartitionSketch(xs, partBits, h, r)
    requires b < |r|
    ensures r[b] != GlobalMaxInt ==> Bucket(r[b], partBits) == b
    ensures r[b] != GlobalMaxInt ==> b * Pow2(64 - partBits) <= r[b] < (b + 1) * Pow2(64 - partBits)
    ensures (forall x :: x in xs ==> Bucket(h(x), partBits) != b) ==> r[b] == GlobalMaxInt
  {
    BucketInRange(r[b], partBits);
    if (forall x :: x in xs ==> Bucket(h(x), partBits) != b) {
      assert Routed(xs, h, partBits, b) == {};
    }
  }

  /** Every digest of the input is bounded below by the entry of its own bucket. */
  lemma PartitionBoundsEveryDigest(xs: seq<i32>, partBits: nat, h: HashFunction, r: seq<u64>, x: i32)
    requires 1 <= partBits <= 63
    requires IsPartitionSketch(xs, partBits, h, r)
    requires x in xs
    ensures Bucket(h(x), partBits) < |r|
    ensures r[Bucket(h(x), partBits)] <= h(x)
  {
    BucketInRange(h(x), partBits);
    assert h(x) in Routed(xs, h, partBits, Bucket(h(x), partBits));
  }
}
