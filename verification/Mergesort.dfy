/** Bottom-up mergesort on sequences: the specification of the in-place list sort. */
module Mergesort {
  function Min(a: nat, b: nat): nat {
    if a < b then a else b
  }

  ghost predicate Sorted<N>(s: seq<N>, k: N -> int) {
    forall i, j :: 0 <= i < j < |s| ==> k(s[i]) <= k(s[j])
  }

  /** The elements of s with key v, in order */
  ghost function WithKey<N>(s: seq<N>, k: N -> int, v: int): seq<N> {
    if s == [] then [] else (if k(s[0]) == v then [s[0]] else []) + WithKey(s[1..], k, v)
  }

  /** t is s rearranged without changing the order of elements with the same key. */
  ghost predicate Stable<N>(s: seq<N>, t: seq<N>, k: N -> int) {
    forall v :: WithKey(t, k, v) == WithKey(s, k, v)
  }

  ghost function Merge<N>(a: seq<N>, b: seq<N>, k: N -> int): (m: seq<N>)
    ensures |m| == |a| + |b|
    decreases |a| + |b|
  {
    if a == [] then b
    else if b == [] then a
    else if k(a[0]) <= k(b[0]) then [a[0]] + Merge(a[1..], b, k)
    else [b[0]] + Merge(a, b[1..], k)
  }

  /** One pass: neighbouring runs of n elements are merged. */
  ghost function Pass<N>(s: seq<N>, n: nat, k: N -> int): (t: seq<N>)
    requires n > 0
    ensures |t| == |s|
    decreases |s|
  {
    if s == [] then
      []
    else
      var p, q := Min(n, |s|), Min(2 * n, |s|);
      Merge(s[..p], s[p..q], k) + Pass(s[q..], n, k)
  }

  ghost function Sort<N>(s: seq<N>, n: nat, k: N -> int): seq<N>
    requires n > 0
    decreases |s| - n
  {
    var t := Pass(s, n, k);
    if |s| <= 2 * n then t else Sort(t, 2 * n, k)
  }

  /** Every block of n elements is sorted. */
  ghost predicate Runs<N>(s: seq<N>, n: nat, k: N -> int)
    requires n > 0
    decreases |s|
  {
    s == [] || (Sorted(s[..Min(n, |s|)], k) && Runs(s[Min(n, |s|)..], n, k))
  }

  // ----- merging -----

  lemma {:induction false} WithKeyConcat<N>(s: seq<N>, t: seq<N>, k: N -> int, v: int)
    ensures WithKey(s + t, k, v) == WithKey(s, k, v) + WithKey(t, k, v)
  {
    if s == [] {
      assert s + t == t;
    } else {
      WithKeyConcat(s[1..], t, k, v);
      assert (s + t)[1..] == s[1..] + t;
    }
  }

  lemma {:induction false} NoneWithKey<N>(s: seq<N>, k: N -> int, v: int)
    requires forall i :: 0 <= i < |s| ==> k(s[i]) != v
    ensures WithKey(s, k, v) == []
  {
    if s != [] {
      NoneWithKey(s[1..], k, v);
    }
  }

  /** On equal keys the first run goes first; that needs the first run to be sorted. */
  lemma {:induction false} MergeStable<N>(a: seq<N>, b: seq<N>, k: N -> int, v: int)
    requires Sorted(a, k)
    ensures WithKey(Merge(a, b, k), k, v) == WithKey(a, k, v) + WithKey(b, k, v)
    decreases |a| + |b|
  {
    if a != [] && b != [] {
      if k(a[0]) <= k(b[0]) {
        MergeStable(a[1..], b, k, v);
        assert Merge(a, b, k)[1..] == Merge(a[1..], b, k);
      } else {
        MergeStable(a, b[1..], k, v);
        assert Merge(a, b, k)[1..] == Merge(a, b[1..], k);
        if v == k(b[0]) {
          NoneWithKey(a, k, v);
        }
      }
    }
  }

  ghost predicate AtLeast<N>(s: seq<N>, k: N -> int, v: int) {
    forall i :: 0 <= i < |s| ==> v <= k(s[i])
  }

  lemma SortedCons<N>(x: N, s: seq<N>, k: N -> int)
    requires Sorted(s, k) && AtLeast(s, k, k(x))
    ensures Sorted([x] + s, k) && AtLeast([x] + s, k, k(x))
  {
  }

  lemma {:induction false} MergeAtLeast<N>(a: seq<N>, b: seq<N>, k: N -> int, v: int)
    requires AtLeast(a, k, v) && AtLeast(b, k, v)
    ensures AtLeast(Merge(a, b, k), k, v)
    decreases |a| + |b|
  {
    if a != [] && b != [] {
      if k(a[0]) <= k(b[0]) {
        MergeAtLeast(a[1..], b, k, v);
      } else {
        MergeAtLeast(a, b[1..], k, v);
      }
    }
  }

  lemma {:induction false} MergeSorted<N>(a: seq<N>, b: seq<N>, k: N -> int)
    requires Sorted(a, k) && Sorted(b, k)
    ensures Sorted(Merge(a, b, k), k)
    decreases |a| + |b|
  {
    if a != [] && b != [] {
      if k(a[0]) <= k(b[0]) {
        MergeSorted(a[1..], b, k);
        MergeAtLeast(a[1..], b, k, k(a[0]));
        SortedCons(a[0], Merge(a[1..], b, k), k);
      } else {
        MergeSorted(a, b[1..], k);
        MergeAtLeast(a, b[1..], k, k(b[0]));
        SortedCons(b[0], Merge(a, b[1..], k), k);
      }
    }
  }

  // ----- passes -----

  lemma {:induction false} PassStable<N>(s: seq<N>, n: nat, k: N -> int, v: int)
    requires n > 0 && Runs(s, n, k)
    ensures WithKey(Pass(s, n, k), k, v) == WithKey(s, k, v)
    decreases |s|
  {
    if s != [] {
      var p, q := Min(n, |s|), Min(2 * n, |s|);
      RunsDrop(s, n, k);
      PassStable(s[q..], n, k, v);
      MergeStable(s[..p], s[p..q], k, v);
      WithKeyConcat(Merge(s[..p], s[p..q], k), Pass(s[q..], n, k), k, v);
      WithKeyParts(s, p, q, k, v);
    }
  }

  lemma WithKeyParts<N>(s: seq<N>, p: nat, q: nat, k: N -> int, v: int)
    requires p <= q <= |s|
    ensures WithKey(s, k, v) == WithKey(s[..p], k, v) + WithKey(s[p..q], k, v) + WithKey(s[q..], k, v)
  {
    hide WithKey;
    assert s[..q] == s[..p] + s[p..q] && s == s[..q] + s[q..];
    WithKeyConcat(s[..q], s[q..], k, v);
    WithKeyConcat(s[..p], s[p..q], k, v);
  }

  /** The first two runs are sorted and the rest is made of runs. */
  lemma RunsDrop<N>(s: seq<N>, n: nat, k: N -> int)
    requires n > 0 && Runs(s, n, k)
    ensures Sorted(s[..Min(n, |s|)], k) && Sorted(s[Min(n, |s|)..Min(2 * n, |s|)], k)
    ensures Runs(s[Min(2 * n, |s|)..], n, k)
  {
    hide Sorted, Runs;
    var p, q := Min(n, |s|), Min(2 * n, |s|);
    RunsStep(s, n, k);
    RunsStep(s[p..], n, k);
    assert s[p..][..q - p] == s[p..q];
    assert s[p..][q - p..] == s[q..];
  }

  lemma RunsStep<N>(s: seq<N>, n: nat, k: N -> int)
    requires n > 0 && Runs(s, n, k)
    ensures Sorted(s[..Min(n, |s|)], k) && Runs(s[Min(n, |s|)..], n, k)
  {
  }

  lemma {:induction false} PassRuns<N>(s: seq<N>, n: nat, k: N -> int)
    requires n > 0 && Runs(s, n, k)
    ensures Runs(Pass(s, n, k), 2 * n, k)
    decreases |s|
  {
    if s != [] {
      var p, q := Min(n, |s|), Min(2 * n, |s|);
      RunsDrop(s, n, k);
      PassRuns(s[q..], n, k);
      MergeSorted(s[..p], s[p..q], k);
      var t := Pass(s, n, k);
      assert t[..q] == Merge(s[..p], s[p..q], k) && t[q..] == Pass(s[q..], n, k);
    }
  }

  lemma {:induction false} SingleRuns<N>(s: seq<N>, k: N -> int)
    ensures Runs(s, 1, k)
  {
    if s != [] {
      SingleRuns(s[1..], k);
    }
  }

  lemma {:induction false} SortWorks<N>(s: seq<N>, n: nat, k: N -> int)
    requires n > 0 && Runs(s, n, k)
    ensures Sorted(Sort(s, n, k), k) && Stable(s, Sort(s, n, k), k)
    decreases |s| - n
  {
    var t := Pass(s, n, k);
    PassRuns(s, n, k);
    forall v
      ensures WithKey(t, k, v) == WithKey(s, k, v)
    {
      PassStable(s, n, k, v);
    }
    if |s| <= 2 * n {
      assert t[..|t|] == t;
    } else {
      SortWorks(t, 2 * n, k);
    }
  }

  /** Bottom-up mergesort sorts, and keeps equal elements in order. */
  lemma MergesortCorrect<N>(s: seq<N>, k: N -> int)
    ensures Sorted(Sort(s, 1, k), k) && Stable(s, Sort(s, 1, k), k)
  {
    SingleRuns(s, k);
    SortWorks(s, 1, k);
  }

  // ----- a sorted stable rearrangement is unique, and keeps every element -----

  lemma {:induction false} WithKeyMember<N>(s: seq<N>, k: N -> int, v: int)
    ensures forall x :: x in WithKey(s, k, v) <==> x in s && k(x) == v
  {
    if s != [] {
      WithKeyMember(s[1..], k, v);
    }
  }

  lemma StableSameMembers<N>(s: seq<N>, t: seq<N>, k: N -> int)
    requires Stable(s, t, k)
    ensures forall x :: x in s <==> x in t
  {
    forall x
      ensures x in s <==> x in t
    {
      WithKeyMember(s, k, k(x));
      WithKeyMember(t, k, k(x));
    }
  }

  lemma SameHead<N>(s: seq<N>, t: seq<N>, k: N -> int)
    requires s != [] && t != [] && k(s[0]) == k(t[0]) && Stable(s, t, k)
    ensures s[0] == t[0] && Stable(s[1..], t[1..], k)
  {
    var v := k(s[0]);
    assert WithKey(s, k, v) == WithKey(t, k, v);
    assert WithKey(s, k, v) == [s[0]] + WithKey(s[1..], k, v);
    assert WithKey(t, k, v) == [t[0]] + WithKey(t[1..], k, v);
    assert ([s[0]] + WithKey(s[1..], k, v))[1..] == WithKey(s[1..], k, v);
    assert ([t[0]] + WithKey(t[1..], k, v))[1..] == WithKey(t[1..], k, v);
    forall w
      ensures WithKey(t[1..], k, w) == WithKey(s[1..], k, w)
    {
      assert WithKey(t, k, w) == WithKey(s, k, w);
      if w != v {
        assert [] + WithKey(t[1..], k, w) == WithKey(t[1..], k, w);
        assert [] + WithKey(s[1..], k, w) == WithKey(s[1..], k, w);
      }
    }
  }

  lemma {:induction false} SortedStableUnique<N>(s: seq<N>, t: seq<N>, k: N -> int)
    requires Sorted(s, k) && Sorted(t, k) && Stable(s, t, k)
    ensures s == t
    decreases |s|
  {
    StableSameMembers(s, t, k);
    assert t == [] || t[0] in t;
    if s != [] {
      assert s[0] in t && t != [] && t[0] in s;
      SortedFirst(s, t[0], k);
      SortedFirst(t, s[0], k);
      SameHead(s, t, k);
      SortedStableUnique(s[1..], t[1..], k);
    }
  }

  lemma SortedFirst<N>(s: seq<N>, x: N, k: N -> int)
    requires Sorted(s, k) && x in s
    ensures k(s[0]) <= k(x)
  {
    var i :| 0 <= i < |s| && s[i] == x;
  }
}
