/**
 * Decision trees, and their form in the accelerator's memory: a complete binary heap of packed words
 * in which every walk takes the same number of steps.
 */
module HeapTrees {
  import opened Arith

  const FEATURE_COUNT: nat := 18
  const CLASS_COUNT: nat := 4

  // ----- trees as scikit-learn stores them -----

  /** children_left, children_right, feature, threshold and value of a tree, and the classes of the model */
  datatype Tree = Tree(left: seq<int>, right: seq<int>, feature: seq<int>, threshold: seq<real>,
                       value: seq<seq<real>>, classes: seq<int>)

  /** Arrays of one length, children numbered above their parent, a class for every value */
  ghost predicate WellFormed(t: Tree) {
    var n := |t.left|;
    && n > 0 && |t.right| == n && |t.feature| == n && |t.threshold| == n && |t.value| == n
    && (forall i {:trigger t.left[i]} {:trigger t.right[i]} :: 0 <= i < n && !IsLeaf(t.left[i], t.right[i]) ==>
          i < t.left[i] < n && i < t.right[i] < n)
    && (forall i :: 0 <= i < n ==> 0 < |t.value[i]| == |t.classes|)
  }

  predicate IsLeaf(left: int, right: int) {
    left == right || left < 0 || right < 0
  }

  /** np.argmax: the first place of the largest element */
  function ArgMax(s: seq<real>): (k: nat)
    requires |s| > 0
    ensures k < |s|
  {
    if |s| == 1 then
      0
    else
      var k := ArgMax(s[..|s| - 1]);
      if s[|s| - 1] <= s[k] then k else |s| - 1
  }

  lemma {:induction false} ArgMaxFirst(s: seq<real>)
    requires |s| > 0
    ensures var k := ArgMax(s); (forall i :: 0 <= i < |s| ==> s[i] <= s[k]) && (forall i :: 0 <= i < k ==> s[i] < s[k])
  {
    if |s| > 1 {
      ArgMaxFirst(s[..|s| - 1]);
    }
  }

  function LeafClass(t: Tree, node: nat): int
    requires WellFormed(t) && node < |t.left|
  {
    t.classes[ArgMax(t.value[node])]
  }

  /** The class of a feature vector: what the tree means. */
  function Eval(t: Tree, node: nat, x: seq<int>): int
    requires WellFormed(t) && node < |t.left|
    decreases |t.left| - node
  {
    if IsLeaf(t.left[node], t.right[node]) then
      LeafClass(t, node)
    else if 0 <= t.feature[node] < |x| && x[t.feature[node]] as real <= t.threshold[node] then
      Eval(t, t.left[node], x)
    else
      Eval(t, t.right[node], x)
  }

  /** A split of two leaves, each of which has one most frequent class: at most the threshold goes left. */
  lemma SplitMeaning(t: Tree, node: nat, x: seq<int>, a: nat, b: nat)
    requires WellFormed(t) && node < |t.left| && !IsLeaf(t.left[node], t.right[node])
    requires 0 <= t.feature[node] < |x|
    requires var l, r := t.left[node], t.right[node];
      && t.left[l] == -1 && t.right[l] == -1 && MostFrequent(t.value[l], a)
      && t.left[r] == -1 && t.right[r] == -1 && MostFrequent(t.value[r], b)
    ensures Eval(t, node, x) == t.classes[if x[t.feature[node]] as real <= t.threshold[node] then a else b]
  {
    ArgMaxFirst(t.value[t.left[node]]);
    ArgMaxFirst(t.value[t.right[node]]);
  }

  predicate MostFrequent(value: seq<real>, a: nat) {
    a < |value| && forall i :: 0 <= i < |value| && i != a ==> value[i] < value[a]
  }

  // ----- packed words -----

  function Pack(feature: nat, threshold2: nat, class_: nat): nat {
    feature * 0x800_0000 + threshold2 * 0x1_0000 + class_ * 0x100
  }

  function FeatureOf(word: nat): nat {
    word / 0x800_0000 % 0x20
  }

  function ThresholdOf(word: nat): nat {
    word / 0x1_0000 % 0x800
  }

  function ClassOf(word: nat): nat {
    word / 0x100 % 0x100
  }

  lemma PackRoundTrip(f: nat, t: nat, c: nat)
    requires f <= 31 && t <= 2047 && c < 256
    ensures Pack(f, t, c) < 0x1_0000_0000
    ensures FeatureOf(Pack(f, t, c)) == f && ThresholdOf(Pack(f, t, c)) == t && ClassOf(Pack(f, t, c)) == c
  {
    var w := Pack(f, t, c);
    DivIs(0x800_0000, w, f, t * 0x1_0000 + c * 0x100);
    DivIs(0x20, f, 0, f);
    DivIs(0x1_0000, w, f * 0x800 + t, c * 0x100);
    DivIs(0x800, f * 0x800 + t, f, t);
    DivIs(0x100, w, f * 0x8_0000 + t * 0x100 + c, 0);
    DivIs(0x100, f * 0x8_0000 + t * 0x100 + c, f * 0x800 + t, c);
  }

  /** The layout in numbers: bits 31 to 27, 26 to 16, 15 to 8, and nothing below. */
  predicate HasFields(word: nat, f: int, t: int, c: int) {
    word / 0x800_0000 == f && word / 0x1_0000 % 0x800 == t && word / 0x100 % 0x100 == c && word % 0x100 == 0
  }

  lemma PackedFields(f: nat, t: nat, c: nat)
    requires f <= 31 && t <= 2047 && c < 256
    ensures HasFields(Pack(f, t, c), f, t, c)
  {
    var w := Pack(f, t, c);
    DivIs(0x800_0000, w, f, t * 0x1_0000 + c * 0x100);
    DivIs(0x1_0000, w, f * 0x800 + t, c * 0x100);
    DivIs(0x800, f * 0x800 + t, f, t);
    DivIs(0x100, w, f * 0x8_0000 + t * 0x100 + c, 0);
    DivIs(0x100, f * 0x8_0000 + t * 0x100 + c, f * 0x800 + t, c);
  }

  // ----- positions -----

  /** Position h has r levels of the heap of n positions below it; r = -1 stands for outside. */
  ghost predicate Level(h: nat, r: int, n: nat) {
    if r < 0 then
      h >= n
    else
      (h + 2) * Pow(2, r) <= n + 1 && (h + 1) * Pow(2, r + 1) > n
  }

  lemma LevelInside(h: nat, r: nat, n: nat)
    requires Level(h, r, n)
    ensures h < n
  {
    TimesMonotone(h + 2, 1, Pow(2, r));
  }

  lemma LevelDown(h: nat, r: nat, n: nat)
    requires Level(h, r, n)
    ensures Level(2 * h + 1, r - 1, n) && Level(2 * h + 2, r - 1, n)
  {
    if r > 0 {
      assert Pow(2, r) == 2 * Pow(2, r - 1) && Pow(2, r + 1) == 2 * Pow(2, r);
      HalfLevel(h, Pow(2, r - 1), Pow(2, r), n);
    } else {
      assert Pow(2, 1) == 2 * Pow(2, 0) == 2;
    }
  }

  lemma HalfLevel(h: nat, p: nat, q: nat, n: nat)
    requires q == 2 * p && (h + 2) * q <= n + 1 && (h + 1) * (2 * q) > n
    ensures (2 * h + 1 + 2) * p <= n + 1 && (2 * h + 2 + 2) * p <= n + 1
    ensures (2 * h + 1 + 1) * q > n && (2 * h + 2 + 1) * q > n
  {
    assert (2 * h + 4) * p == (h + 2) * q;
    assert (2 * h + 3) * p == (2 * h + 4) * p - p;
    assert (2 * h + 2) * q == (h + 1) * (2 * q);
    assert (2 * h + 3) * q == (2 * h + 2) * q + q;
  }

  /** A heap of depth d has 2^(d+1) - 1 positions, and position 0 all its levels below it. */
  function HeapSize(d: nat): (n: nat)
    ensures n > 0
  {
    PowMonotone(2, 1, d + 1);
    assert Pow(2, 1) == 2 * Pow(2, 0) == 2;
    Pow(2, d + 1) - 1
  }

  lemma RootLevel(d: nat)
    ensures Level(0, d, HeapSize(d))
  {
    assert Pow(2, d + 1) == 2 * Pow(2, d);
  }

  /** p is h or a descendant of it. */
  ghost predicate InSubtree(h: nat, p: nat) {
    p == h || (p > h && InSubtree(h, (p - 1) / 2))
  }

  lemma {:induction false} ChildSubtrees(h: nat, p: nat)
    ensures InSubtree(2 * h + 1, p) ==> InSubtree(h, p) && p != h && !InSubtree(2 * h + 2, p)
    ensures InSubtree(2 * h + 2, p) ==> InSubtree(h, p) && p != h && !InSubtree(2 * h + 1, p)
    ensures InSubtree(h, p) ==> p == h || InSubtree(2 * h + 1, p) || InSubtree(2 * h + 2, p)
    decreases p
  {
    if p > h {
      ChildSubtrees(h, (p - 1) / 2);
    }
  }

  // ----- walking the heap -----

  predicate GoesLeft(word: nat, x2: seq<int>) {
    FeatureOf(word) < |x2| && x2[FeatureOf(word)] <= ThresholdOf(word)
  }

  /** The walk of simulate_tree from position h for r steps */
  function Simulate(mem: seq<nat>, h: nat, r: nat, x2: seq<int>): int
    requires Level(h, r, |mem|)
    decreases r
  {
    LevelInside(h, r, |mem|);
    LevelDown(h, r, |mem|);
    if r == 0 then
      ClassOf(mem[h])
    else if GoesLeft(mem[h], x2) then
      Simulate(mem, 2 * h + 1, r - 1, x2)
    else
      Simulate(mem, 2 * h + 2, r - 1, x2)
  }

  lemma SimulateStep(mem: seq<nat>, h: nat, r: nat, x2: seq<int>)
    requires Level(h, r, |mem|) && h < |mem| && Level(2 * h + 1, r - 1, |mem|) && Level(2 * h + 2, r - 1, |mem|)
    ensures r == 0 ==> Simulate(mem, h, r, x2) == ClassOf(mem[h])
    ensures r > 0 ==>
      Simulate(mem, h, r, x2) == Simulate(mem, if GoesLeft(mem[h], x2) then 2 * h + 1 else 2 * h + 2, r - 1, x2)
  {
    hide Level, GoesLeft, ClassOf;
  }

  ghost predicate SameSubtree(mem: seq<nat>, mem': seq<nat>, h: nat) {
    |mem'| == |mem| && forall p :: 0 <= p < |mem| && InSubtree(h, p) ==> mem'[p] == mem[p]
  }

  /** A walk reads nothing outside the subtree it starts in. */
  lemma {:induction false} SimulateLocal(mem: seq<nat>, mem': seq<nat>, h: nat, r: nat, x2: seq<int>)
    requires Level(h, r, |mem|) && SameSubtree(mem, mem', h)
    ensures Simulate(mem', h, r, x2) == Simulate(mem, h, r, x2)
    decreases r
  {
    hide Level;
    LevelInside(h, r, |mem|);
    LevelDown(h, r, |mem|);
    assert mem'[h] == mem[h];
    if r > 0 {
      forall p | 0 <= p < |mem|
        ensures InSubtree(2 * h + 1, p) || InSubtree(2 * h + 2, p) ==> mem'[p] == mem[p]
      {
        ChildSubtrees(h, p);
      }
      SimulateLocal(mem, mem', 2 * h + 1, r - 1, x2);
      SimulateLocal(mem, mem', 2 * h + 2, r - 1, x2);
    }
  }

  lemma LeafWord(c: nat)
    requires c < 256
    ensures ClassOf(Pack(0, 0, c)) == c
  {
    PackRoundTrip(0, 0, c);
  }

  /** Every word of the subtree at h is a leaf of class c. */
  ghost predicate Filled(mem: seq<nat>, h: nat, c: nat) {
    forall p :: 0 <= p < |mem| && InSubtree(h, p) ==> mem[p] == Pack(0, 0, c)
  }

  lemma FilledDown(mem: seq<nat>, h: nat, c: nat)
    requires Filled(mem, h, c)
    ensures h < |mem| ==> mem[h] == Pack(0, 0, c)
    ensures Filled(mem, 2 * h + 1, c) && Filled(mem, 2 * h + 2, c)
  {
    hide Pack;
    forall p | 0 <= p < |mem|
      ensures InSubtree(2 * h + 1, p) || InSubtree(2 * h + 2, p) ==> mem[p] == Pack(0, 0, c)
    {
      ChildSubtrees(h, p);
    }
  }

  /** A subtree filled with one class gives that class, whatever the features. */
  lemma {:induction false} SimulateFilled(mem: seq<nat>, h: nat, r: nat, x2: seq<int>, c: nat)
    requires Level(h, r, |mem|) && c < 256 && Filled(mem, h, c)
    ensures Simulate(mem, h, r, x2) == c
    decreases r
  {
    hide *;
    LevelInside(h, r, |mem|);
    LevelDown(h, r, |mem|);
    SimulateStep(mem, h, r, x2);
    LeafWord(c);
    FilledDown(mem, h, c);
    if r > 0 {
      SimulateFilled(mem, 2 * h + 1, r - 1, x2, c);
      SimulateFilled(mem, 2 * h + 2, r - 1, x2, c);
    }
  }

  // ----- doubled thresholds -----

  /** Python's round: to the nearest integer, ties to the even one */
  function Round(x: real): int {
    var f := x.Floor;
    if x - f as real < 0.5 then f
    else if x - f as real > 0.5 then f + 1
    else if f % 2 == 0 then f
    else f + 1
  }

  function Abs(x: real): real {
    if x >= 0.0 then x else -x
  }

  /** np.isclose(x, n, atol=1e-5), with its default rtol of 1e-5 */
  predicate IsClose(x: real, n: int) {
    Abs(x - n as real) <= 0.00001 + 0.00001 * Abs(n as real)
  }

  /** A threshold the exporter accepts, and the integer it stores for its double */
  predicate Accepts(threshold: real) {
    var n := Round(threshold * 2.0);
    IsClose(threshold * 2.0, n) && 0 <= n <= 2047
  }

  /**
   * The stored comparison agrees with the original one on every integer feature, except when the
   * double of the threshold is a little below an even number and has been rounded up to it.
   */
  lemma ThresholdExact(threshold: real)
    requires Accepts(threshold)
    ensures var n := Round(threshold * 2.0);
      (forall x: int {:trigger x as real} :: 0 <= x ==> (x as real <= threshold <==> 2 * x <= n))
        <==> !(n % 2 == 0 && threshold * 2.0 < n as real)
  {
    var n := Round(threshold * 2.0);
    CloseIsNear(threshold * 2.0, n);
    if n % 2 == 0 && threshold * 2.0 < n as real {
      var x := n / 2;
      assert !(x as real <= threshold) && 2 * x <= n;
    } else {
      forall x: int | 0 <= x
        ensures x as real <= threshold <==> 2 * x <= n
      {
        ComparesAlike(threshold * 2.0, n, x);
      }
    }
  }

  /** All multiples of 1/2 that fit the field are accepted, and nothing that is far from them. */
  lemma AcceptedThresholds(n: nat, threshold: real)
    requires n <= 2047
    ensures Accepts(n as real / 2.0) && Round(n as real / 2.0 * 2.0) == n
    ensures Accepts(threshold) ==> exists k: nat :: k <= 2047 && NearHalf(threshold, k)
    ensures -0.00001 <= threshold * 2.0 - n as real <= 0.00001 ==> Accepts(threshold)
  {
    if Accepts(threshold) {
      var k: nat := Round(threshold * 2.0);
      assert NearHalf(threshold, k);
    }
    if -0.00001 <= threshold * 2.0 - n as real <= 0.00001 {
      RoundsTo(threshold * 2.0, n);
    }
    RoundsTo(n as real / 2.0 * 2.0, n);
  }

  predicate NearHalf(threshold: real, k: nat) {
    -0.02048 <= threshold * 2.0 - k as real <= 0.02048
  }

  lemma RoundsTo(x: real, n: int)
    requires n as real - 0.5 < x < n as real + 0.5
    ensures Round(x) == n
  {
    assert x.Floor == n || x.Floor == n - 1;
  }

  lemma CloseIsNear(x: real, n: int)
    requires IsClose(x, n) && 0 <= n <= 2047
    ensures n as real - 1.0 < x < n as real + 1.0
  {
  }

  lemma ComparesAlike(d: real, n: int, x: int)
    requires n as real - 1.0 < d < n as real + 1.0 && (n % 2 == 0 ==> d >= n as real)
    ensures (2 * x) as real <= d <==> 2 * x <= n
  {
    if 2 * x <= n {
      if n % 2 != 0 {
        assert 2 * x <= n - 1;
      }
    } else {
      assert 2 * x >= n + 1;
    }
  }
}
