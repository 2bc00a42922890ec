/** The library algorithms the BVH builder applies to its reference arrays
    (`std::iota`, `std::sort`, `std::stable_partition`), as functions on sequences,
    with the properties the builder relies on. */
module BvhOrder {

  /** `std::iota(first, first + n, 0)` */
  function Iota(n: nat): (r: seq<int>)
    ensures |r| == n && forall i :: 0 <= i < n ==> r[i] == i
  {
    seq(n, i => i)
  }

  /** `s` is an ordering of the triangle indices `0 .. n-1`. */
  ghost predicate IsPerm(s: seq<int>, n: nat)
  {
    multiset(s) == multiset(Iota(n))
  }

  predicate Distinct(s: seq<int>)
  {
    forall i, j :: 0 <= i < j < |s| ==> s[i] != s[j]
  }

  predicate IndicesBelow(s: seq<int>, n: int)
  {
    forall i :: 0 <= i < |s| ==> 0 <= s[i] < n
  }

  /** Every index below `n` occurs once in `Iota(n)`, and nothing else occurs. */
  lemma {:induction false} IotaCount(n: nat, x: int)
    ensures multiset(Iota(n))[x] == if 0 <= x < n then 1 else 0
  {
    if n > 0 {
      IotaCount(n - 1, x);
      assert Iota(n) == Iota(n - 1) + [n - 1];
    }
  }

  /** An ordering of `0 .. n-1` has length `n`, only in-range entries, and no repeats. */
  lemma PermFacts(s: seq<int>, n: nat)
    requires IsPerm(s, n)
    ensures |s| == n && IndicesBelow(s, n) && Distinct(s)
  {
    assert |s| == |multiset(s)| == |multiset(Iota(n))| == n;
    forall i | 0 <= i < |s|
      ensures 0 <= s[i] < n
    {
      assert s[i] in multiset(Iota(n));
      IotaCount(n, s[i]);
    }
    forall i, j | 0 <= i < j < |s|
      ensures s[i] != s[j]
    {
      IotaCount(n, s[i]);
      RepeatCounts(s, i, j);
    }
  }

  /** A value at two positions occurs at least twice. */
  lemma RepeatCounts(s: seq<int>, i: int, j: int)
    requires 0 <= i < j < |s|
    ensures s[i] == s[j] ==> multiset(s)[s[i]] >= 2
  {
    assert s == s[..j] + s[j..];
    assert s[i] == s[..j][i];
    assert s[j] == s[j..][0];
  }

  /** Sorted by `key` (not decreasing), as `std::sort` with `key(i) < key(j)` leaves a range. */
  predicate SortedBy(s: seq<int>, key: int -> real)
  {
    forall i, j {:trigger key(s[i]), key(s[j])} :: 0 <= i < j < |s| ==> key(s[i]) <= key(s[j])
  }

  function Insert(x: int, s: seq<int>, key: int -> real): seq<int>
  {
    if |s| == 0 then [x]
    else if key(x) <= key(s[0]) then [x] + s
    else [s[0]] + Insert(x, s[1..], key)
  }

  /** `std::sort` by `key`. The library leaves the order of equal keys unspecified; this
      is one admissible order (insertion order), and everything proved below holds for any
      sorted permutation. */
  function Sort(s: seq<int>, key: int -> real): seq<int>
  {
    if |s| == 0 then [] else Insert(s[0], Sort(s[1..], key), key)
  }

  lemma {:induction false} InsertCorrect(x: int, s: seq<int>, key: int -> real)
    requires SortedBy(s, key)
    ensures SortedBy(Insert(x, s, key), key)
    ensures multiset(Insert(x, s, key)) == multiset(s) + multiset{x}
  {
    if |s| == 0 {
    } else if key(x) <= key(s[0]) {
      SortedCons(x, s, key);
    } else {
      InsertCorrect(x, s[1..], key);
      assert s == [s[0]] + s[1..];
      var r := Insert(x, s[1..], key);
      forall k | 0 <= k < |r|
        ensures key(s[0]) <= key(r[k])
      {
        assert r[k] in multiset(r);
        if r[k] != x {
          assert r[k] in multiset(s[1..]);
          var i :| 0 <= i < |s[1..]| && s[1..][i] == r[k];
          assert s[i + 1] == r[k];
        }
      }
      SortedCons(s[0], r, key);
    }
  }

  /** Putting an entry no greater than all the others in front of a sorted sequence keeps it sorted. */
  lemma SortedCons(y: int, r: seq<int>, key: int -> real)
    requires SortedBy(r, key)
    requires forall k :: 0 <= k < |r| ==> key(y) <= key(r[k])
    ensures SortedBy([y] + r, key)
  {
    var t := [y] + r;
    forall i, j | 0 <= i < j < |t|
      ensures key(t[i]) <= key(t[j])
    {
      assert t[j] == r[j - 1];
      if i > 0 {
        assert t[i] == r[i - 1];
      }
    }
  }

  /** The result of `Sort` is sorted by the key and a permutation of its input. */
  lemma {:induction false} SortCorrect(s: seq<int>, key: int -> real)
    ensures SortedBy(Sort(s, key), key)
    ensures multiset(Sort(s, key)) == multiset(s)
  {
    if |s| > 0 {
      SortCorrect(s[1..], key);
      InsertCorrect(s[0], Sort(s[1..], key), key);
      assert s == [s[0]] + s[1..];
    }
  }

  /** The entries of `s` whose mark equals `want`, in their original order. */
  function Filter(s: seq<int>, marks: seq<bool>, want: bool): (r: seq<int>)
    requires IndicesBelow(s, |marks|)
  {
    if |s| == 0 then []
    else (if marks[s[0]] == want then [s[0]] else []) + Filter(s[1..], marks, want)
  }

  /** `std::stable_partition(first, last, [&](int i) { return marks[i]; })`: the marked
      entries first, then the unmarked ones, each group in its original relative order. */
  function StablePartition(s: seq<int>, marks: seq<bool>): (r: seq<int>)
    requires IndicesBelow(s, |marks|)
  {
    Filter(s, marks, true) + Filter(s, marks, false)
  }

  /** `Filter` keeps every occurrence of the entries with the wanted mark and drops the rest. */
  lemma {:induction false} FilterCount(s: seq<int>, marks: seq<bool>, want: bool, x: int)
    requires IndicesBelow(s, |marks|)
    ensures multiset(Filter(s, marks, want))[x]
            == if 0 <= x < |marks| && marks[x] == want then multiset(s)[x] else 0
  {
    if |s| > 0 {
      FilterCount(s[1..], marks, want, x);
      assert s == [s[0]] + s[1..];
    }
  }

  /** A stable partition is a permutation of the range it rearranges. */
  lemma PartitionPerm(s: seq<int>, marks: seq<bool>)
    requires IndicesBelow(s, |marks|)
    ensures multiset(StablePartition(s, marks)) == multiset(s)
  {
    forall x
      ensures multiset(StablePartition(s, marks))[x] == multiset(s)[x]
    {
      FilterCount(s, marks, true, x);
      FilterCount(s, marks, false, x);
      if x in multiset(s) {
        var i :| 0 <= i < |s| && s[i] == x;
      }
    }
  }

  /** Keeping a subsequence keeps an order: a filtered sorted range stays sorted. */
  lemma {:induction false} FilterSorted(s: seq<int>, marks: seq<bool>, want: bool, key: int -> real)
    requires IndicesBelow(s, |marks|) && SortedBy(s, key)
    ensures SortedBy(Filter(s, marks, want), key)
  {
    if |s| > 0 {
      FilterSorted(s[1..], marks, want, key);
      var r := Filter(s[1..], marks, want);
      if marks[s[0]] == want {
        forall k | 0 <= k < |r|
          ensures key(s[0]) <= key(r[k])
        {
          FilterMember(s[1..], marks, want, r[k]);
          var i :| 0 <= i < |s[1..]| && s[1..][i] == r[k];
          assert s[1 + i] == r[k];
        }
        SortedCons(s[0], r, key);
      } else {
        assert Filter(s, marks, want) == r;
      }
    }
  }

  /** `Filter` only keeps entries of its input. */
  lemma FilterMember(s: seq<int>, marks: seq<bool>, want: bool, y: int)
    requires IndicesBelow(s, |marks|) && y in Filter(s, marks, want)
    ensures y in s
  {
    FilterCount(s, marks, want, y);
    assert y in multiset(Filter(s, marks, want));
  }

  /** When the marks select exactly the entries of `left` (and none of `right`), stable
      partitioning any ordering of `left + right` puts an ordering of `left` first and an
      ordering of `right` after it. */
  lemma PartitionSplits(s: seq<int>, left: seq<int>, right: seq<int>, marks: seq<bool>)
    requires IndicesBelow(s, |marks|)
    requires multiset(s) == multiset(left + right)
    requires forall k :: 0 <= k < |left| ==> 0 <= left[k] < |marks| && marks[left[k]]
    requires forall k :: 0 <= k < |right| ==> 0 <= right[k] < |marks| && !marks[right[k]]
    ensures multiset(Filter(s, marks, true)) == multiset(left)
    ensures multiset(Filter(s, marks, false)) == multiset(right)
    ensures |Filter(s, marks, true)| == |left| && |Filter(s, marks, false)| == |right|
  {
    forall x
      ensures multiset(Filter(s, marks, true))[x] == multiset(left)[x]
      ensures multiset(Filter(s, marks, false))[x] == multiset(right)[x]
    {
      SplitCount(s, left, right, marks, x);
    }
    assert multiset(Filter(s, marks, true)) == multiset(left);
    assert |Filter(s, marks, true)| == |multiset(Filter(s, marks, true))| == |multiset(left)| == |left|;
    assert multiset(Filter(s, marks, false)) == multiset(right);
    assert |Filter(s, marks, false)| == |multiset(Filter(s, marks, false))| == |multiset(right)| == |right|;
  }

  /** `PartitionSplits` for the occurrences of one value `x`. */
  lemma SplitCount(s: seq<int>, left: seq<int>, right: seq<int>, marks: seq<bool>, x: int)
    requires IndicesBelow(s, |marks|)
    requires multiset(s) == multiset(left + right)
    requires forall k :: 0 <= k < |left| ==> 0 <= left[k] < |marks| && marks[left[k]]
    requires forall k :: 0 <= k < |right| ==> 0 <= right[k] < |marks| && !marks[right[k]]
    ensures multiset(Filter(s, marks, true))[x] == multiset(left)[x]
    ensures multiset(Filter(s, marks, false))[x] == multiset(right)[x]
  {
    FilterCount(s, marks, true, x);
    FilterCount(s, marks, false, x);
    assert multiset(s)[x] == multiset(left)[x] + multiset(right)[x];
    if x in multiset(left) {
      var k :| 0 <= k < |left| && left[k] == x;
    }
    if x in multiset(right) {
      var k :| 0 <= k < |right| && right[k] == x;
    }
  }
}
