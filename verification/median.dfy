/** The reducer: `measurements.sort()` followed by `measurements[2]`, the
    median of the five decoded samples. */
module Median {
  import opened Bytes

  const MaxSample: int := 0xFFFF

  predicate Sorted(s: seq<u16>) {
    forall i, j :: 0 <= i < j < |s| ==> s[i] <= s[j]
  }

  /** Inserts `x` into a sorted sequence, keeping it sorted and keeping every
      element. */
  function Insert(x: u16, s: seq<u16>): (r: seq<u16>)
    requires Sorted(s)
    ensures Sorted(r)
    ensures multiset(r) == multiset(s) + multiset{x}
  {
    if s == [] || x <= s[0] then
      ConsSorted(x, s);
      [x] + s
    else
      var t := Insert(x, s[1..]);
      HeadBelowInsert(s, x, t);
      [s[0]] + t
  }

  /** A value at or below every element of a sorted sequence can go in
      front of it. */
  lemma ConsSorted(x: u16, s: seq<u16>)
    requires Sorted(s) && (s == [] || x <= s[0])
    ensures Sorted([x] + s)
  {
  }

  /** What is inserted into the tail of a sorted sequence stays at or above
      its head when the inserted value does, so the head can go in front
      and the result holds the sequence's elements and the inserted one. */
  lemma HeadBelowInsert(s: seq<u16>, x: u16, t: seq<u16>)
    requires Sorted(s) && |s| > 0 && s[0] < x && Sorted(t)
    requires multiset(t) == multiset(s[1..]) + multiset{x}
    ensures Sorted([s[0]] + t)
    ensures multiset([s[0]] + t) == multiset(s) + multiset{x}
  {
    TailOf(s);
    forall j | 0 <= j < |t|
      ensures s[0] <= t[j]
    {
      assert t[j] in multiset(t);
      if t[j] != x {
        assert t[j] in multiset(s[1..]);
        assert t[j] in multiset(s);
        SortedHeadIsLeast(s, t[j]);
      }
    }
  }

  /** The samples in ascending order: a sorted permutation of the input. */
  function Sort(s: seq<u16>): (r: seq<u16>)
    ensures Sorted(r)
    ensures multiset(r) == multiset(s)
    ensures |r| == |s|
  {
    if s == [] then []
    else
      assert s == [s[0]] + s[1..];
      var r := Insert(s[0], Sort(s[1..]));
      assert |r| == |multiset(r)|;
      r
  }

  /** Number of elements of `s` within `[lo, hi]`. */
  function CountIn(s: seq<u16>, lo: int, hi: int): (n: nat)
    ensures n <= |s|
  {
    if s == [] then 0
    else (if lo <= s[0] as int <= hi then 1 else 0) + CountIn(s[1..], lo, hi)
  }

  /** `m` is a median of `s`: at least three elements are at most `m` and at
      least three are at least `m`. */
  predicate IsMedianOf(s: seq<u16>, m: u16) {
    CountIn(s, 0, m as int) >= 3 && CountIn(s, m as int, MaxSample) >= 3
  }

  /** Element 2 of the sorted five samples: one of the samples, with at least
      three samples at or below it and at least three at or above it. */
  function Median5(s: seq<u16>): (m: u16)
    requires |s| == 5
    ensures m in s
    ensures IsMedianOf(s, m)
  {
    var t := Sort(s);
    assert t[2] in multiset(t);
    SortedRank(t);
    CountInPermutation(t, s, 0, t[2] as int);
    CountInPermutation(t, s, t[2] as int, MaxSample);
    t[2]
  }

  lemma {:induction false} CountInAppend(a: seq<u16>, b: seq<u16>, lo: int, hi: int)
    ensures CountIn(a + b, lo, hi) == CountIn(a, lo, hi) + CountIn(b, lo, hi)
    decreases |a|
  {
    if a == [] {
      assert a + b == b;
    } else {
      assert (a + b)[1..] == a[1..] + b;
      CountInAppend(a[1..], b, lo, hi);
    }
  }

  lemma {:induction false} CountInAll(s: seq<u16>, lo: int, hi: int)
    requires forall i | 0 <= i < |s| :: lo <= s[i] as int <= hi
    ensures CountIn(s, lo, hi) == |s|
    decreases |s|
  {
    if s != [] {
      CountInAll(s[1..], lo, hi);
    }
  }

  /** The count depends only on the multiset of elements, so it is the same
      for any permutation. */
  lemma {:induction false} CountInPermutation(a: seq<u16>, b: seq<u16>, lo: int, hi: int)
    requires multiset(a) == multiset(b)
    ensures CountIn(a, lo, hi) == CountIn(b, lo, hi)
    decreases |a|
  {
    if a == [] {
      assert |multiset(b)| == 0;
    } else {
      var x := a[0];
      assert x in multiset(b);
      var j :| 0 <= j < |b| && b[j] == x;
      var rest := b[..j] + b[j + 1..];
      assert b == b[..j] + [x] + b[j + 1..];
      assert a == [x] + a[1..];
      assert multiset(b) == multiset(b[..j]) + multiset{x} + multiset(b[j + 1..]);
      assert multiset(rest) == multiset(b[..j]) + multiset(b[j + 1..]);
      assert multiset(a) == multiset{x} + multiset(a[1..]);
      assert multiset(rest) == multiset(b) - multiset{x};
      assert multiset(a[1..]) == multiset(a) - multiset{x};
      CountInPermutation(a[1..], rest, lo, hi);
      CountInAppend(b[..j] + [x], b[j + 1..], lo, hi);
      CountInAppend(b[..j], [x], lo, hi);
      CountInAppend(b[..j], b[j + 1..], lo, hi);
    }
  }

  /** Two disjoint value ranges share the elements of `s` between them. */
  lemma {:induction false} CountInDisjoint(s: seq<u16>, m1: int, m2: int)
    requires m1 < m2
    ensures CountIn(s, 0, m1) + CountIn(s, m2, MaxSample) <= |s|
    decreases |s|
  {
    if s != [] {
      CountInDisjoint(s[1..], m1, m2);
    }
  }

  /** In a sorted five, the first three are at most `t[2]` and the last three
      are at least `t[2]`. */
  lemma SortedRank(t: seq<u16>)
    requires |t| == 5 && Sorted(t)
    ensures CountIn(t, 0, t[2] as int) >= 3
    ensures CountIn(t, t[2] as int, MaxSample) >= 3
  {
    assert t == t[..3] + t[3..];
    CountInAppend(t[..3], t[3..], 0, t[2] as int);
    CountInAll(t[..3], 0, t[2] as int);
    assert t == t[..2] + t[2..];
    CountInAppend(t[..2], t[2..], t[2] as int, MaxSample);
    CountInAll(t[2..], t[2] as int, MaxSample);
  }

  /** The median is the one value that is a median in the counting sense: the
      order statistic does not depend on how the samples were sorted. */
  lemma MedianCharacterized(s: seq<u16>, m: u16)
    requires |s| == 5
    ensures IsMedianOf(s, m) <==> m == Median5(s)
  {
    var k := Median5(s);
    if IsMedianOf(s, m) && m != k {
      if m < k {
        CountInDisjoint(s, m as int, k as int);
      } else {
        CountInDisjoint(s, k as int, m as int);
      }
    }
  }

  /** Reordering the five samples does not change the median. */
  lemma MedianPermutationInvariant(s: seq<u16>, t: seq<u16>)
    requires |s| == 5 && multiset(s) == multiset(t)
    ensures |t| == 5
    ensures Median5(s) == Median5(t)
  {
    assert |t| == |multiset(t)| == |multiset(s)| == |s|;
    var m := Median5(s);
    CountInPermutation(s, t, 0, m as int);
    CountInPermutation(s, t, m as int, MaxSample);
    MedianCharacterized(t, m);
  }

  /** The head of a sorted sequence is at most every element. */
  lemma SortedHeadIsLeast(s: seq<u16>, y: u16)
    requires Sorted(s) && |s| > 0 && y in multiset(s)
    ensures s[0] <= y
  {
  }

  /** A sorted sequence is determined by its multiset: whatever algorithm
      sorts the samples (Rust's stable merge sort included), the result is
      `Sort(s)`. */
  lemma {:induction false} SortedPermutationUnique(a: seq<u16>, b: seq<u16>)
    requires Sorted(a) && Sorted(b) && multiset(a) == multiset(b)
    ensures a == b
    decreases |a|
  {
    if a == [] {
      assert |multiset(b)| == 0;
    } else {
      SameHead(a, b);
      SortedPermutationUnique(a[1..], b[1..]);
      assert a == [a[0]] + a[1..];
      assert b == [b[0]] + b[1..];
    }
  }

  /** Two sorted sequences with the same elements start with the same
      element, and their tails are again sorted with the same elements. */
  lemma SameHead(a: seq<u16>, b: seq<u16>)
    requires Sorted(a) && Sorted(b) && multiset(a) == multiset(b) && a != []
    ensures b != [] && a[0] == b[0]
    ensures Sorted(a[1..]) && Sorted(b[1..])
    ensures multiset(a[1..]) == multiset(b[1..])
  {
    assert a[0] in multiset(b);
    assert b[0] in multiset(a);
    SortedHeadIsLeast(b, a[0]);
    SortedHeadIsLeast(a, b[0]);
    TailOf(a);
    TailOf(b);
  }

  /** Dropping the head keeps a sequence sorted and removes one copy of the
      head from its multiset. */
  lemma TailOf(s: seq<u16>)
    requires Sorted(s) && |s| > 0
    ensures Sorted(s[1..])
    ensures multiset(s[1..]) == multiset(s) - multiset{s[0]}
  {
    assert s == [s[0]] + s[1..];
  }
}
