/** Release of cluster chains: fatfs_free_cluster_chain on the plain FAT array. */
module FatRelease {
  import opened FatWords
  import opened FatChains

  /** Every link leads to a cluster of the FAT or ends the chain. */
  ghost predicate LinksInRange(t: FatType, f: Fat)
  {
    forall c :: 0 <= c < |f| ==> Link(t, f[c]) == LAST_CLUSTER || Link(t, f[c]) < |f|
  }

  /** How many entries are in use. This is what makes release terminate, on cyclic links too. */
  ghost function InUse(t: FatType, f: Fat): nat
  {
    |f| - Blanks(t, f, 0, |f|)
  }

  /** Follow the links from `c`, clearing each entry once its link has been read. */
  ghost function Release(t: FatType, f: Fat, c: uint32): (r: Fat)
    requires |f| <= LAST_CLUSTER && LinksInRange(t, f) && (c == LAST_CLUSTER || c < |f|)
    ensures |r| == |f|
    decreases InUse(t, f), if c == LAST_CLUSTER || c == 0 then 0 else 1
  {
    if c == LAST_CLUSTER || c == 0 then f
    else
      LinkMeaning(t, f[c], f[c]);
      BlanksUpdate(t, f, 0, |f|, c, 0);
      Release(t, f[c := 0], Link(t, f[c]))
  }

  lemma ReleaseEnds(t: FatType, f: Fat, c: uint32)
    requires |f| <= LAST_CLUSTER && LinksInRange(t, f) && (c == LAST_CLUSTER || c < |f|)
    ensures c == LAST_CLUSTER || c == 0 ==> Release(t, f, c) == f
  {
  }

  /** One step of release. */
  lemma ReleaseStep(t: FatType, f: Fat, c: uint32)
    requires |f| <= LAST_CLUSTER && LinksInRange(t, f) && 0 < c < |f|
    ensures LinksInRange(t, f[c := 0])
    ensures Link(t, f[c]) == LAST_CLUSTER || Link(t, f[c]) < |f|
    ensures Release(t, f, c) == Release(t, f[c := 0], Link(t, f[c]))
    ensures InUse(t, f[c := 0]) <= InUse(t, f)
    ensures Link(t, f[c]) != 0 ==> InUse(t, f[c := 0]) < InUse(t, f)
    ensures f[c := Stored(t, 0)] == f[c := 0]
  {
    LinkMeaning(t, f[c], f[c]);
    BlanksUpdate(t, f, 0, |f|, c, 0);
  }

  // ---------------------------------------------------------------------------------------
  // Which entries are cleared
  // ---------------------------------------------------------------------------------------

  /** `p` follows links from `s`, through used cluster numbers only. */
  ghost predicate IsWalk(t: FatType, f: Fat, s: nat, p: seq<nat>)
  {
    && |p| > 0 && p[0] == s
    && (forall i :: 0 <= i < |p| ==> 0 < p[i] < |f|)
    && (forall i, j :: 0 <= i && j == i + 1 && j < |p| ==> Link(t, f[p[i]]) == p[j])
  }

  /** The walk from `s` comes to an end: at the last cluster of a chain, or at a free entry. */
  ghost predicate IsTrail(t: FatType, f: Fat, s: nat, p: seq<nat>)
  {
    IsWalk(t, f, s, p) && (EndsWell(t, f, p) || Link(t, f[p[|p| - 1]]) == 0)
  }

  ghost predicate EndsWell(t: FatType, f: Fat, p: seq<nat>)
  {
    |p| > 0 && p[|p| - 1] < |f| && Link(t, f[p[|p| - 1]]) == LAST_CLUSTER
  }

  lemma ChainIsTrail(t: FatType, f: Fat, cs: seq<nat>)
    requires IsChain(t, f, cs)
    ensures IsTrail(t, f, cs[0], cs) && EndsWell(t, f, cs)
  {
  }

  ghost predicate Reaches(t: FatType, f: Fat, s: nat, x: nat)
  {
    exists p :: IsWalk(t, f, s, p) && p[|p| - 1] == x
  }

  /** A walk that returns to its start can be cut so that it leaves the start for good. */
  lemma {:induction false} LeaveForGood(t: FatType, f: Fat, c: nat, p: seq<nat>) returns (q: seq<nat>)
    requires IsWalk(t, f, c, p) && p[|p| - 1] != c
    ensures |q| >= 2 && IsWalk(t, f, c, q) && q[|q| - 1] == p[|p| - 1]
    ensures forall i :: 1 <= i < |q| ==> q[i] != c
    decreases |p|
  {
    if i :| 1 <= i < |p| && p[i] == c {
      q := LeaveForGood(t, f, c, p[i..]);
    } else {
      q := p;
    }
  }

  lemma NoBlankInside(t: FatType, f: Fat, s: nat, p: seq<nat>, i: nat)
    requires IsWalk(t, f, s, p) && i < |p|
    ensures i < |p| - 1 ==> !IsBlank(t, f[p[i]])
  {
    if i < |p| - 1 {
      var j := i + 1;
      assert Link(t, f[p[i]]) == p[j];
      LinkMeaning(t, f[p[i]], f[p[i]]);
    }
  }

  lemma ReachAfterClearing(t: FatType, f: Fat, c: nat, x: nat)
    requires |f| <= LAST_CLUSTER && LinksInRange(t, f) && 0 < c < |f|
    ensures Reaches(t, f, c, x) <==>
      x == c || (Link(t, f[c]) != LAST_CLUSTER && Reaches(t, f[c := 0], Link(t, f[c]), x))
  {
    var f1, n := f[c := 0], Link(t, f[c]);
    hide IsWalk, Link;
    if x == c {
      WalkOfOne(t, f, c);
    } else {
      if Reaches(t, f, c, x) {
        var p :| IsWalk(t, f, c, p) && p[|p| - 1] == x;
        WalkOn(t, f, c, p);
      }
      if n != LAST_CLUSTER && Reaches(t, f1, n, x) {
        var p :| IsWalk(t, f1, n, p) && p[|p| - 1] == x;
        WalkFrom(t, f, c, p);
      }
    }
  }

  lemma WalkOfOne(t: FatType, f: Fat, c: nat)
    requires 0 < c < |f|
    ensures IsWalk(t, f, c, [c])
  {
  }

  /** A walk from c to another cluster goes on behind c, and needs the entry of c no more. */
  lemma WalkOn(t: FatType, f: Fat, c: nat, p: seq<nat>)
    requires |f| <= LAST_CLUSTER && 0 < c < |f| && IsWalk(t, f, c, p) && p[|p| - 1] != c
    ensures Link(t, f[c]) != LAST_CLUSTER && Reaches(t, f[c := 0], Link(t, f[c]), p[|p| - 1])
  {
    var q := LeaveForGood(t, f, c, p);
    assert q[1] == Link(t, f[c]);
    hide Link;
    var r := q[1..];
    assert IsWalk(t, f[c := 0], q[1], r);
  }

  /** A walk from behind c, the entry of c being cleared, is a walk from c. */
  lemma WalkFrom(t: FatType, f: Fat, c: nat, p: seq<nat>)
    requires |f| <= LAST_CLUSTER && 0 < c < |f| && Link(t, f[c]) != LAST_CLUSTER
    requires IsWalk(t, f[c := 0], Link(t, f[c]), p) && p[|p| - 1] != c
    ensures Reaches(t, f, c, p[|p| - 1])
  {
    var f1 := f[c := 0];
    LinkMeaning(t, f1[c], 0);
    hide Link;
    forall i | 0 <= i < |p|
      ensures p[i] != c
    {
      NoBlankInside(t, f1, p[0], p, i);
    }
    assert IsWalk(t, f, c, [c] + p);
  }

  /** Release clears exactly the clusters reachable from its start, whatever the shape of the links. */
  lemma {:induction false} ReleaseClearsReachable(t: FatType, f: Fat, c: uint32, d: nat)
    requires |f| <= LAST_CLUSTER && LinksInRange(t, f) && (c == LAST_CLUSTER || c < |f|) && d < |f|
    ensures Release(t, f, c)[d] == if c != LAST_CLUSTER && Reaches(t, f, c, d) then 0 else f[d]
    decreases InUse(t, f), if c == LAST_CLUSTER || c == 0 then 0 else 1
  {
    if c != LAST_CLUSTER && c != 0 {
      LinkMeaning(t, f[c], f[c]);
      BlanksUpdate(t, f, 0, |f|, c, 0);
      ReachAfterClearing(t, f, c, d);
      ReleaseClearsReachable(t, f[c := 0], Link(t, f[c]), d);
    }
  }

  // ---------------------------------------------------------------------------------------
  // Releasing a well-formed chain
  // ---------------------------------------------------------------------------------------

  lemma {:induction false} TailOfChain(t: FatType, f: Fat, cs: seq<nat>)
    requires IsChain(t, f, cs) && |cs| > 1
    ensures IsChain(t, f[cs[0] := 0], cs[1..])
  {
    var f', ds := f[cs[0] := 0], cs[1..];
    forall i, j | 0 <= i && j == i + 1 && j < |ds|
      ensures Link(t, f'[ds[i]]) == ds[j]
    {
      assert ds[i] == cs[i + 1] && ds[j] == cs[j + 1];
    }
  }

  /** Releasing a chain clears exactly its clusters and gives back exactly its length. */
  lemma {:induction false} ReleaseChain(t: FatType, f: Fat, cs: seq<nat>)
    requires |f| <= LAST_CLUSTER && LinksInRange(t, f) && IsChain(t, f, cs)
    ensures forall d :: 0 <= d < |f| ==> Release(t, f, cs[0])[d] == if d in cs then 0 else f[d]
    ensures Blanks(t, Release(t, f, cs[0]), 0, |f|) == Blanks(t, f, 0, |f|) + |cs|
    decreases |cs|
  {
    var c := cs[0];
    ChainHasNoBlank(t, f, cs, 0);
    BlanksUpdate(t, f, 0, |f|, c, 0);
    if |cs| > 1 {
      assert Link(t, f[cs[0]]) == cs[1];
      TailOfChain(t, f, cs);
      ReleaseChain(t, f[c := 0], cs[1..]);
      assert cs == [c] + cs[1..];
    }
  }

  /** The count the library reports rises by exactly the length of the released chain. */
  lemma ReleaseRestoresCount(t: FatType, f: Fat, cs: seq<nat>)
    requires |f| <= LAST_CLUSTER && LinksInRange(t, f) && IsChain(t, f, cs) && CleanBlanks(t, f)
    ensures Zeros(Release(t, f, cs[0])) == Zeros(f) + |cs|
  {
    ReleaseChain(t, f, cs);
    ZerosAreBlanks(t, f);
    ZerosAreBlanks(t, Release(t, f, cs[0]));
  }
}
