/**
  Shared types of the sketching library: 64-bit digests, 32-bit inputs,
  the pluggable hash function, the sentinel digest that marks an empty
  sketch slot, and exact ratios that stand in for the library's floats.
 */
module SketchTypes {

  const TWO_TO_THE_64: int := 0x1_0000_0000_0000_0000

  /** An unsigned 64-bit digest (`uint64_t`). */
  type u64 = x: int | 0 <= x < TWO_TO_THE_64

  /** A signed 32-bit input value (`int`). */
  type i32 = x: int | -0x8000_0000 <= x < 0x8000_0000

  /** The hash-function capability: a deterministic map from `int` to `uint64_t`. */
  type HashFunction = i32 -> u64

  /** Conversion of an integer to `uint64_t`, which is reduction modulo 2^64. */
  function ToUint64(x: int): (r: u64)
    ensures 0 <= x < TWO_TO_THE_64 ==> r == x
    ensures -TWO_TO_THE_64 <= x < 0 ==> r == x + TWO_TO_THE_64
  {
    x % TWO_TO_THE_64
  }

  /** The sentinel `~(0)` converted to `uint64_t`: the all-ones digest that marks "no value". */
  const GlobalMaxInt: u64 := ToUint64(-1)

  lemma GlobalMaxIntIsLargest(d: u64)
    ensures GlobalMaxInt == TWO_TO_THE_64 - 1
    ensures d <= GlobalMaxInt
  {
  }

  datatype Option<T> = None | Some(value: T)

  /**
    An exact non-negative fraction `num / den`. The library's float results
    (`float` Jaccard values and thresholds) are represented by these.
   */
  datatype Ratio = Ratio(num: nat, den: nat)

  /** `r >= t` for two fractions with positive denominators, by cross-multiplication. */
  predicate AtLeast(r: Ratio, t: Ratio)
  {
    r.num * t.den >= t.num * r.den
  }

  function Min(a: u64, b: u64): (m: u64)
    ensures m <= a && m <= b && (m == a || m == b)
  {
    if a < b then a else b
  }

  function Elems<T>(s: seq<T>): set<T>
  {
    set x | x in s
  }

  predicate NoDuplicates<T(==)>(s: seq<T>)
  {
    forall i, j :: 0 <= i < j < |s| ==> s[i] != s[j]
  }

  /** No real digest occurs twice in a sketch (the sentinel may repeat). */
  ghost predicate NoRepeatedDigests(s: seq<u64>)
  {
    forall i, j :: 0 <= i < j < |s| && s[i] != GlobalMaxInt ==> s[i] != s[j]
  }

  /** A subset as large as its superset is the whole superset. */
  lemma SubsetOfSameSize<T>(a: set<T>, b: set<T>)
    requires a <= b && |a| == |b|
    ensures a == b
  {
    assert b == a + (b - a);
    assert |b - a| == 0;
  }

  ghost predicate StrictlyIncreasing(s: seq<int>)
  {
    forall i, j :: 0 <= i < j < |s| ==> s[i] < s[j]
  }

  /** A sequence holds at least as many elements as the set of its elements, exactly as many when they are distinct. */
  lemma {:induction false} ElemsCardinality<T>(s: seq<T>)
    ensures |Elems(s)| <= |s|
    ensures NoDuplicates(s) ==> |Elems(s)| == |s|
  {
    if s != [] {
      var p := s[..|s| - 1];
      var x := s[|s| - 1];
      assert s == p + [x];
      assert Elems(s) == Elems(p) + {x};
      ElemsCardinality(p);
      if NoDuplicates(s) {
        assert NoDuplicates(p);
        forall i | 0 <= i < |p|
          ensures p[i] != x
        {
          assert s[i] == p[i];
        }
      }
    }
  }

  lemma {:induction false} LeastDigest(s: set<u64>) returns (m: u64)
    requires s != {}
    ensures m in s && forall x :: x in s ==> m <= x
  {
    var y :| y in s;
    var rest := s - {y};
    if rest == {} {
      assert s == {y};
      m := y;
    } else {
      var least := LeastDigest(rest);
      m := if y < least then y else least;
      assert forall x :: x in s ==> x == y || x in rest;
    }
  }

  lemma MinExists(s: set<u64>)
    requires s != {}
    ensures exists m :: m in s && forall x :: x in s ==> m <= x
  {
    var m := LeastDigest(s);
  }

  /** The least digest of a non-empty set. */
  function SetMin(s: set<u64>): (m: u64)
    requires s != {}
    ensures m in s && forall x :: x in s ==> m <= x
  {
    MinExists(s);
    var m :| m in s && forall x :: x in s ==> m <= x;
    m
  }

  /**
    The digests of a set in ascending order: the iteration order of the
    `std::set` that holds them, which `std::sort` then leaves unchanged.
   */
  function SortedDigests(s: set<u64>): (r: seq<u64>)
    ensures |r| == |s|
    ensures Elems(r) == s
    ensures StrictlyIncreasing(r)
    decreases |s|
  {
    if s == {} then []
    else
      var m := SetMin(s);
      assert |s - {m}| == |s| - 1;
      var rest := SortedDigests(s - {m});
      PrependLeast(m, rest);
      [m] + rest
  }

  lemma PrependLeast(m: u64, rest: seq<u64>)
    requires StrictlyIncreasing(rest)
    requires forall x :: x in Elems(rest) ==> m < x
    ensures StrictlyIncreasing([m] + rest)
    ensures Elems([m] + rest) == {m} + Elems(rest)
  {
    var r := [m] + rest;
    forall i, j | 0 <= i < j < |r|
      ensures r[i] < r[j]
    {
      assert r[j] == rest[j - 1];
      assert rest[j - 1] in Elems(rest);
      if i > 0 {
        assert r[i] == rest[i - 1];
      }
    }
  }

  /** Two ascending sequences with the same elements are equal. */
  lemma {:induction false} StrictlyIncreasingUnique(a: seq<u64>, b: seq<u64>)
    requires StrictlyIncreasing(a) && StrictlyIncreasing(b)
    requires Elems(a) == Elems(b)
    ensures a == b
  {
    assert a != [] ==> a[0] in Elems(a);
    assert b != [] ==> b[0] in Elems(b);
    if a != [] {
      assert a[0] in Elems(b);
      assert b != [];
      assert b[0] in Elems(a);
      assert a[0] == b[0] by {
        var i :| 0 <= i < |b| && b[i] == a[0];
        var j :| 0 <= j < |a| && a[j] == b[0];
        assert b[0] <= a[0];
        assert a[0] <= b[0];
      }
      assert Elems(a[1..]) == Elems(a) - {a[0]} by {
        assert a == [a[0]] + a[1..];
        assert a[0] !in a[1..];
      }
      assert Elems(b[1..]) == Elems(b) - {b[0]} by {
        assert b == [b[0]] + b[1..];
        assert b[0] !in b[1..];
      }
      StrictlyIncreasingUnique(a[1..], b[1..]);
      assert a == [a[0]] + a[1..];
      assert b == [b[0]] + b[1..];
    }
  }

  /** `2^n`, the number of values `n` bits can hold. */
  function Pow2(n: nat): (r: nat)
    ensures r >= 1
  {
    if n == 0 then 1 else 2 * Pow2(n - 1)
  }

  lemma {:induction false} Pow2Add(a: nat, b: nat)
    ensures Pow2(a + b) == Pow2(a) * Pow2(b)
  {
    if a != 0 {
      Pow2Add(a - 1, b);
      assert Pow2(a + b) == 2 * Pow2((a - 1) + b);
      assert 2 * (Pow2(a - 1) * Pow2(b)) == (2 * Pow2(a - 1)) * Pow2(b);
    }
  }

  lemma Pow2Is16Bits()
    ensures Pow2(16) == 0x1_0000
  {
    assert Pow2(8) == 256;
    Pow2Add(8, 8);
  }

  lemma Pow2Is32Bits()
    ensures Pow2(32) == 0x1_0000_0000
  {
    Pow2Is16Bits();
    Pow2Add(16, 16);
  }

  lemma Pow2Is64Bits()
    ensures Pow2(64) == TWO_TO_THE_64
  {
    Pow2Is32Bits();
    Pow2Add(32, 32);
  }
}
