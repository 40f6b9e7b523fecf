/** The exporter of the random forest, and its evaluators: on packed memory and on node arrays. */
module ForestExport {
  import opened HeapTrees

  // ----- what the exporter writes -----

  /** A tree evaluated with the thresholds as they are stored, on doubled features */
  function EvalStored(t: Tree, node: nat, x2: seq<int>): int
    requires WellFormed(t) && node < |t.left|
    decreases |t.left| - node
  {
    if IsLeaf(t.left[node], t.right[node]) then
      LeafClass(t, node)
    else if 0 <= t.feature[node] < |x2| && x2[t.feature[node]] <= Round(t.threshold[node] * 2.0) then
      EvalStored(t, t.left[node], x2)
    else
      EvalStored(t, t.right[node], x2)
  }

  /** The subtree at node fits into r further levels, with features, thresholds and classes in range. */
  ghost predicate Exportable(t: Tree, node: nat, r: int)
    requires WellFormed(t) && node < |t.left|
    decreases |t.left| - node
  {
    && r >= 0
    && if IsLeaf(t.left[node], t.right[node]) then
         0 <= LeafClass(t, node) < CLASS_COUNT
       else
         && 0 <= t.feature[node] < FEATURE_COUNT && Accepts(t.threshold[node])
         && Exportable(t, t.left[node], r - 1) && Exportable(t, t.right[node], r - 1)
  }

  /** Walks from position h of the memory give what the subtree at node gives. */
  ghost predicate Represents(mem: seq<nat>, h: nat, r: nat, t: Tree, node: nat)
    requires WellFormed(t) && node < |t.left| && Level(h, r, |mem|)
  {
    forall x2: seq<int> {:trigger EvalStored(t, node, x2)} {:trigger Simulate(mem, h, r, x2)} ::
      |x2| == FEATURE_COUNT ==> Simulate(mem, h, r, x2) == EvalStored(t, node, x2)
  }

  lemma RepresentsLocal(mem: seq<nat>, mem': seq<nat>, h: nat, r: nat, t: Tree, node: nat)
    requires WellFormed(t) && node < |t.left| && Level(h, r, |mem|)
    requires Represents(mem, h, r, t, node) && SameSubtree(mem, mem', h)
    ensures Represents(mem', h, r, t, node)
  {
    forall x2: seq<int> | |x2| == FEATURE_COUNT
      ensures Simulate(mem', h, r, x2) == EvalStored(t, node, x2)
    {
      SimulateLocal(mem, mem', h, r, x2);
    }
  }

  lemma RepresentsLeaf(mem: seq<nat>, h: nat, r: nat, t: Tree, node: nat)
    requires WellFormed(t) && node < |t.left| && Level(h, r, |mem|) && IsLeaf(t.left[node], t.right[node])
    requires 0 <= LeafClass(t, node) < 256 && Filled(mem, h, LeafClass(t, node))
    ensures Represents(mem, h, r, t, node)
  {
    forall x2: seq<int> | |x2| == FEATURE_COUNT
      ensures Simulate(mem, h, r, x2) == EvalStored(t, node, x2)
    {
      SimulateFilled(mem, h, r, x2, LeafClass(t, node));
    }
  }

  lemma RepresentsNode(mem: seq<nat>, h: nat, r: nat, t: Tree, node: nat)
    requires WellFormed(t) && node < |t.left| && Level(h, r, |mem|) && !IsLeaf(t.left[node], t.right[node])
    requires r > 0 && h < |mem| && Level(2 * h + 1, r - 1, |mem|) && Level(2 * h + 2, r - 1, |mem|)
    requires 0 <= t.feature[node] < FEATURE_COUNT && Accepts(t.threshold[node])
    requires mem[h] == Pack(t.feature[node], Round(t.threshold[node] * 2.0), 0)
    requires Represents(mem, 2 * h + 1, r - 1, t, t.left[node])
    requires Represents(mem, 2 * h + 2, r - 1, t, t.right[node])
    ensures Represents(mem, h, r, t, node)
  {
    PackRoundTrip(t.feature[node], Round(t.threshold[node] * 2.0), 0);
    forall x2: seq<int> | |x2| == FEATURE_COUNT
      ensures Simulate(mem, h, r, x2) == EvalStored(t, node, x2)
    {
      hide Level, Pack, FeatureOf, ThresholdOf, Simulate, Accepts, Round, LeafClass;
      SimulateStep(mem, h, r, x2);
    }
  }

  /** A word of 32 bits that names a feature that exists. */
  predicate WordOk(word: nat) {
    word < 0x1_0000_0000 && FeatureOf(word) < FEATURE_COUNT
  }

  ghost predicate WordsOk(mem: seq<nat>) {
    forall p :: 0 <= p < |mem| ==> WordOk(mem[p])
  }

  // ----- the exporter -----

  method PackNode(feature: int, threshold2: int, class_: int) returns (ok: bool, word: nat)
    ensures ok <==> 0 <= feature <= 31 && 0 <= threshold2 <= 2047 && 0 <= class_ < CLASS_COUNT
    ensures ok ==> word == Pack(feature, threshold2, class_) && HasFields(word, feature, threshold2, class_)
    ensures ok && feature < FEATURE_COUNT ==> WordOk(word)
  {
    ok, word := false, 0;
    if 0 <= feature <= 31 && 0 <= threshold2 <= 2047 && 0 <= class_ < CLASS_COUNT {
      PackRoundTrip(feature, threshold2, class_);
      PackedFields(feature, threshold2, class_);
      ok, word := true, Pack(feature, threshold2, class_);
    }
  }

  /** Nothing outside the subtree at h has been written. */
  ghost predicate OnlySubtree(was: seq<nat>, mem: seq<nat>, h: nat) {
    |mem| == |was| && forall p :: 0 <= p < |mem| && !InSubtree(h, p) ==> mem[p] == was[p]
  }

  /** A word at h, then the left and the right subtree: together they touch the subtree at h, and
      neither of the three disturbs another. */
  lemma WrittenInOrder(m0: seq<nat>, m1: seq<nat>, m2: seq<nat>, m3: seq<nat>, h: nat)
    requires h < |m0| == |m1| && m1 == m0[h := m1[h]]
    requires OnlySubtree(m1, m2, 2 * h + 1) && OnlySubtree(m2, m3, 2 * h + 2)
    ensures OnlySubtree(m0, m3, h) && m3[h] == m1[h] && SameSubtree(m2, m3, 2 * h + 1)
  {
    forall p | 0 <= p < |m0|
      ensures !InSubtree(h, p) ==> m3[p] == m0[p]
      ensures InSubtree(2 * h + 1, p) ==> m3[p] == m2[p]
    {
      ChildSubtrees(h, p);
    }
    ChildSubtrees(h, h);
  }

  lemma FilledTogether(m2: seq<nat>, m3: seq<nat>, h: nat, c: nat)
    requires h < |m3| && m3[h] == Pack(0, 0, c)
    requires Filled(m2, 2 * h + 1, c) && SameSubtree(m2, m3, 2 * h + 1) && Filled(m3, 2 * h + 2, c)
    ensures Filled(m3, h, c)
  {
    hide Pack;
    forall p | 0 <= p < |m3|
      ensures InSubtree(h, p) ==> m3[p] == Pack(0, 0, c)
    {
      ChildSubtrees(h, p);
    }
  }

  method FillLeafSubtree(memory: array<nat>, h: nat, class_: int)
    requires 0 <= class_ < CLASS_COUNT && WordsOk(memory[..])
    modifies memory
    ensures Filled(memory[..], h, class_) && OnlySubtree(old(memory[..]), memory[..], h)
    ensures WordsOk(memory[..])
    decreases if h < memory.Length then memory.Length - h else 0
  {
    hide WordOk, HasFields, Pack, Filled, OnlySubtree, SameSubtree, WordsOk, InSubtree;
    if h >= memory.Length {
      OutsideFilled(memory[..], h, class_);
      return;
    }
    ghost var m0 := memory[..];
    var ok, word := PackNode(0, 0, class_);
    WordKeeps(m0, h, word);
    memory[h] := word;
    ghost var m1 := memory[..];
    FillLeafSubtree(memory, 2 * h + 1, class_);
    ghost var m2 := memory[..];
    FillLeafSubtree(memory, 2 * h + 2, class_);
    WrittenInOrder(m0, m1, m2, memory[..], h);
    FilledTogether(m2, memory[..], h, class_);
  }

  lemma WordKeeps(mem: seq<nat>, h: nat, word: nat)
    requires h < |mem| && WordsOk(mem) && WordOk(word)
    ensures WordsOk(mem[h := word])
  {
  }

  lemma OutsideFilled(mem: seq<nat>, h: nat, c: nat)
    requires h >= |mem|
    ensures Filled(mem, h, c) && OnlySubtree(mem, mem, h)
  {
    forall p | 0 <= p < |mem|
      ensures !InSubtree(h, p)
    {
    }
  }

  /**
   * export_sklearn_node: the subtree at node is written to the subtree at h, and walks from h give
   * what it means.  It raises an error exactly when the subtree is not exportable.
   */
  method ExportNode(t: Tree, node: nat, h: nat, memory: array<nat>, ghost r: int) returns (ok: bool)
    requires WellFormed(t) && node < |t.left| && r >= -1 && Level(h, r, memory.Length)
    requires WordsOk(memory[..])
    modifies memory
    ensures ok <==> Exportable(t, node, r)
    ensures ok ==> r >= 0 && Represents(memory[..], h, r, t, node)
    ensures OnlySubtree(old(memory[..]), memory[..], h) && WordsOk(memory[..])
    decreases |t.left| - node, 1
  {
    hide WordOk, HasFields, Pack, Filled, OnlySubtree, SameSubtree, WordsOk, Represents, Level, Accepts, Round;
    hide LeafClass, InSubtree, IsClose;
    if h >= memory.Length {
      OutsideLevel(memory[..], h, r);
      return false;
    }
    InsideLevel(h, r, memory.Length);
    LevelDown(h, r, memory.Length);
    if IsLeaf(t.left[node], t.right[node]) {
      var class_ := LeafClass(t, node);
      if !(0 <= class_ < CLASS_COUNT) {
        NothingWritten(memory[..], h);
        return false;
      }
      FillLeafSubtree(memory, h, class_);
      RepresentsLeaf(memory[..], h, r, t, node);
      return true;
    }
    ok := ExportInner(t, node, h, memory, r);
  }

  /** The part of it for an inner node */
  method ExportInner(t: Tree, node: nat, h: nat, memory: array<nat>, ghost r: int) returns (ok: bool)
    requires WellFormed(t) && node < |t.left| && r >= 0 && h < memory.Length && Level(h, r, memory.Length)
    requires Level(2 * h + 1, r - 1, memory.Length) && Level(2 * h + 2, r - 1, memory.Length)
    requires !IsLeaf(t.left[node], t.right[node]) && WordsOk(memory[..])
    modifies memory
    ensures ok <==> Exportable(t, node, r)
    ensures ok ==> Represents(memory[..], h, r, t, node)
    ensures OnlySubtree(old(memory[..]), memory[..], h) && WordsOk(memory[..])
    decreases |t.left| - node, 0
  {
    hide WordOk, HasFields, Pack, Filled, OnlySubtree, SameSubtree, WordsOk, Represents, Level, Round, LeafClass;
    hide InSubtree, IsClose;
    ok := false;
    var featureId := t.feature[node];
    var threshold2 := Round(t.threshold[node] * 2.0);
    ghost var m0 := memory[..];
    NothingWritten(m0, h);
    if 0 <= featureId < FEATURE_COUNT && IsClose(t.threshold[node] * 2.0, threshold2) && 0 <= threshold2 <= 2047 {
      var packed, word := PackNode(featureId, threshold2, 0);
      WordKeeps(m0, h, word);
      memory[h] := word;
      ghost var m1 := memory[..];
      ok := ExportNode(t, t.left[node], 2 * h + 1, memory, r - 1);
      ghost var m2 := memory[..];
      if ok {
        ok := ExportNode(t, t.right[node], 2 * h + 2, memory, r - 1);
      } else {
        NothingWritten(m2, 2 * h + 2);
      }
      WrittenInOrder(m0, m1, m2, memory[..], h);
      if ok {
        RepresentsLocal(m2, memory[..], 2 * h + 1, r - 1, t, t.left[node]);
        RepresentsNode(memory[..], h, r, t, node);
      }
    }
  }

  lemma NothingWritten(mem: seq<nat>, h: nat)
    ensures OnlySubtree(mem, mem, h)
  {
  }

  lemma OutsideLevel(mem: seq<nat>, h: nat, r: int)
    requires r >= -1 && Level(h, r, |mem|) && h >= |mem|
    ensures r == -1 && OnlySubtree(mem, mem, h)
  {
    if r >= 0 {
      LevelInside(h, r, |mem|);
    }
  }

  lemma InsideLevel(h: nat, r: int, n: nat)
    requires r >= -1 && Level(h, r, n) && h < n
    ensures r >= 0
  {
  }

  /** simulate_tree: the fixed number of steps on the words from base on */
  method SimulateTree(forest: seq<nat>, treeIndex: nat, depth: nat, x2: seq<int>) returns (class_: int)
    requires (treeIndex + 1) * HeapSize(depth) <= |forest|
    requires |x2| == FEATURE_COUNT && WordsOk(forest)
    ensures 0 <= treeIndex * HeapSize(depth) <= |forest|
    ensures class_ == SimulateAt(forest, treeIndex, depth, x2)
  {
    hide FeatureOf, ThresholdOf, ClassOf, HeapSize;
    var base := treeIndex * HeapSize(depth);
    SliceOf(forest, treeIndex, depth);
    RootLevel(depth);
    ghost var mem := forest[base..base + HeapSize(depth)];
    var position: nat := 0;
    for i := 0 to depth
      invariant Level(position, depth - i, |mem|)
      invariant Simulate(mem, position, depth - i, x2) == Simulate(mem, 0, depth, x2)
    {
      hide Level, Simulate;
      LevelInside(position, depth - i, |mem|);
      LevelDown(position, depth - i, |mem|);
      SimulateStep(mem, position, depth - i, x2);
      var word := forest[base + position];
      assert word == mem[position];
      var featureId, threshold2 := FeatureOf(word), ThresholdOf(word);
      if x2[featureId] <= threshold2 {
        position := position * 2 + 1;
      } else {
        position := position * 2 + 2;
      }
    }
    LevelInside(position, 0, |mem|);
    LevelDown(position, 0, |mem|);
    SimulateStep(mem, position, 0, x2);
    class_ := ClassOf(forest[base + position]);
  }

  lemma SliceOf(forest: seq<nat>, treeIndex: nat, depth: nat)
    requires (treeIndex + 1) * HeapSize(depth) <= |forest|
    ensures 0 <= treeIndex * HeapSize(depth) && treeIndex * HeapSize(depth) + HeapSize(depth) <= |forest|
  {
    hide HeapSize;
    assert (treeIndex + 1) * HeapSize(depth) == treeIndex * HeapSize(depth) + HeapSize(depth);
  }

  function SimulateAt(forest: seq<nat>, treeIndex: nat, depth: nat, x2: seq<int>): int
    requires (treeIndex + 1) * HeapSize(depth) <= |forest|
  {
    SliceOf(forest, treeIndex, depth);
    RootLevel(depth);
    var base := treeIndex * HeapSize(depth);
    Simulate(forest[base..base + HeapSize(depth)], 0, depth, x2)
  }

  // ----- whole forests -----

  /** Tree number i of the packed forest gives what t gives with its stored thresholds. */
  ghost predicate TreeAt(forest: seq<nat>, i: nat, depth: nat, t: Tree)
    requires WellFormed(t)
  {
    && (i + 1) * HeapSize(depth) <= |forest|
    && forall x2: seq<int> {:trigger SimulateAt(forest, i, depth, x2)} ::
         |x2| == FEATURE_COUNT ==> SimulateAt(forest, i, depth, x2) == EvalStored(t, 0, x2)
  }

  lemma TreeAdded(forest: seq<nat>, mem: seq<nat>, depth: nat, t: Tree, i: nat)
    requires WellFormed(t) && |forest| == i * HeapSize(depth) && |mem| == HeapSize(depth)
    requires Level(0, depth, |mem|) && Represents(mem, 0, depth, t, 0)
    ensures TreeAt(forest + mem, i, depth, t) && |forest + mem| == (i + 1) * HeapSize(depth)
  {
    hide HeapSize, Level;
    assert (i + 1) * HeapSize(depth) == i * HeapSize(depth) + HeapSize(depth);
    var base := i * HeapSize(depth);
    assert (forest + mem)[base..base + HeapSize(depth)] == mem;
  }

  lemma TreeKept(forest: seq<nat>, mem: seq<nat>, depth: nat, t: Tree, i: nat)
    requires WellFormed(t) && TreeAt(forest, i, depth, t)
    ensures TreeAt(forest + mem, i, depth, t)
  {
    hide HeapSize, Level;
    SliceOf(forest, i, depth);
    var base := i * HeapSize(depth);
    SliceOf(forest + mem, i, depth);
    assert (forest + mem)[base..base + HeapSize(depth)] == forest[base..base + HeapSize(depth)];
    forall x2: seq<int> | |x2| == FEATURE_COUNT
      ensures SimulateAt(forest + mem, i, depth, x2) == EvalStored(t, 0, x2)
    {
      assert SimulateAt(forest, i, depth, x2) == EvalStored(t, 0, x2);
    }
  }

  /** export_forest; it raises an error exactly when some tree is not exportable. */
  method ExportForest(trees: seq<Tree>, depth: nat) returns (ok: bool, forest: seq<nat>)
    requires forall i :: 0 <= i < |trees| ==> WellFormed(trees[i])
    ensures ok <==> forall i :: 0 <= i < |trees| ==> Exportable(trees[i], 0, depth)
    ensures ok ==> |forest| == |trees| * HeapSize(depth) && WordsOk(forest)
    ensures ok ==> forall i :: 0 <= i < |trees| ==> TreeAt(forest, i, depth, trees[i])
  {
    hide HeapSize, Level, Represents, Exportable, TreeAt, WordsOk;
    ok, forest := true, [];
    NoFeatures(depth);
    var i: nat := 0;
    while i < |trees| && ok
      invariant i <= |trees|
      invariant ok ==> forall j :: 0 <= j < i ==> Exportable(trees[j], 0, depth)
      invariant !ok ==> i < |trees| && !Exportable(trees[i], 0, depth)
      invariant ok ==> |forest| == i * HeapSize(depth) && WordsOk(forest)
      invariant ok ==> forall j :: 0 <= j < i ==> TreeAt(forest, j, depth, trees[j])
      decreases |trees| - i, ok
    {
      var memory := new nat[HeapSize(depth)](_ => 0);
      RootLevel(depth);
      ZeroMemory(memory[..]);
      ok := ExportNode(trees[i], 0, 0, memory, depth);
      if ok {
        TreeAdded(forest, memory[..], depth, trees[i], i);
        forall j | 0 <= j < i
          ensures TreeAt(forest + memory[..], j, depth, trees[j])
        {
          TreeKept(forest, memory[..], depth, trees[j], j);
        }
        FeaturesJoin(forest, memory[..]);
        forest := forest + memory[..];
        i := i + 1;
      }
    }
  }

  lemma NoFeatures(depth: nat)
    ensures WordsOk([]) && 0 == 0 * HeapSize(depth)
  {
    hide HeapSize;
  }

  lemma ZeroMemory(mem: seq<nat>)
    requires forall p :: 0 <= p < |mem| ==> mem[p] == 0
    ensures WordsOk(mem)
  {
  }

  lemma FeaturesJoin(a: seq<nat>, b: seq<nat>)
    requires WordsOk(a) && WordsOk(b)
    ensures WordsOk(a + b)
  {
  }

  // ----- voting -----

  function Votes(predictions: seq<int>, c: int): nat {
    multiset(predictions)[c]
  }

  /** The lowest class with the most votes */
  ghost predicate Wins(predictions: seq<int>, w: int) {
    && 0 <= w < CLASS_COUNT
    && (forall c :: 0 <= c < CLASS_COUNT ==> Votes(predictions, c) <= Votes(predictions, w))
    && (forall c :: 0 <= c < w ==> Votes(predictions, c) < Votes(predictions, w))
  }

  lemma OneWinner(predictions: seq<int>, w: int, w': int)
    requires Wins(predictions, w) && Wins(predictions, w')
    ensures w == w'
  {
    assert Votes(predictions, w) <= Votes(predictions, w') <= Votes(predictions, w);
  }

  /** What the trees of the packed forest say */
  ghost function Walks(forest: seq<nat>, count: nat, depth: nat, x2: seq<int>): (w: seq<int>)
    requires count * HeapSize(depth) <= |forest|
    ensures |w| == count
  {
    seq(count, i requires 0 <= i < count => SlotBelow(forest, i, count, depth); SimulateAt(forest, i, depth, x2))
  }

  /** simulate_forest: np.bincount and np.argmax over the walks */
  method SimulateForest(forest: seq<nat>, count: nat, depth: nat, x2: seq<int>) returns (winner: int)
    requires count * HeapSize(depth) <= |forest| && |x2| == FEATURE_COUNT && WordsOk(forest)
    ensures Wins(Walks(forest, count, depth, x2), winner)
  {
    hide HeapSize, SimulateAt, WordsOk;
    var found: seq<int> := [];
    for i := 0 to count
      invariant |found| == i && forall j :: 0 <= j < i ==> found[j] == Walks(forest, count, depth, x2)[j]
    {
      SlotBelow(forest, i, count, depth);
      var p := SimulateTree(forest, i, depth, x2);
      found := found + [p];
    }
    assert found == Walks(forest, count, depth, x2);
    var votes := seq(CLASS_COUNT, c requires 0 <= c < CLASS_COUNT => Votes(found, c) as real);
    ArgMaxFirst(votes);
    winner := ArgMax(votes);
    forall c | 0 <= c < CLASS_COUNT
      ensures votes[c] == Votes(found, c) as real
    {
    }
  }

  ghost predicate TreeSlot(forest: seq<nat>, i: nat, depth: nat) {
    (i + 1) * HeapSize(depth) <= |forest|
  }

  lemma SlotBelow(forest: seq<nat>, i: nat, count: nat, depth: nat)
    requires i < count && count * HeapSize(depth) <= |forest|
    ensures TreeSlot(forest, i, depth)
  {
    hide HeapSize;
    assert (i + 1) * HeapSize(depth) + (count - i - 1) * HeapSize(depth) == count * HeapSize(depth);
  }

  // ----- node arrays -----

  /** One element of the generated C arrays */
  datatype RFNode = RFNode(isLeaf: bool, featureId: int, threshold: real, leftChild: int, rightChild: int, classId: nat)

  /** The node array of a tree with the same numbering */
  ghost predicate SameTree(nodes: seq<RFNode>, t: Tree)
    requires WellFormed(t)
  {
    && |nodes| == |t.left|
    && forall i :: 0 <= i < |nodes| ==>
         if IsLeaf(t.left[i], t.right[i]) then
           nodes[i].isLeaf && nodes[i].classId == LeafClass(t, i)
         else
           && !nodes[i].isLeaf && nodes[i].leftChild == t.left[i] && nodes[i].rightChild == t.right[i]
           && nodes[i].featureId == t.feature[i] && 0 <= t.feature[i] < FEATURE_COUNT
           && nodes[i].threshold == t.threshold[i]
  }

  /** vehicle_evaluate_tree: the loop ends since children are numbered above their parent. */
  method EvaluateTree(nodes: seq<RFNode>, ghost t: Tree, x: seq<int>) returns (class_: nat)
    requires WellFormed(t) && SameTree(nodes, t) && |x| == FEATURE_COUNT
    ensures class_ == Eval(t, 0, x)
  {
    hide LeafClass;
    var nodeId: nat := 0;
    while !nodes[nodeId].isLeaf
      invariant nodeId < |nodes| && Eval(t, nodeId, x) == Eval(t, 0, x)
      decreases |nodes| - nodeId
    {
      var node := nodes[nodeId];
      if x[node.featureId] as real <= node.threshold {
        nodeId := node.leftChild;
      } else {
        nodeId := node.rightChild;
      }
    }
    class_ := nodes[nodeId].classId;
  }

  /** What the trees say */
  ghost function Classes(trees: seq<Tree>, x: seq<int>): (c: seq<int>)
    requires forall i :: 0 <= i < |trees| ==> WellFormed(trees[i])
    ensures |c| == |trees|
  {
    seq(|trees|, i requires 0 <= i < |trees| => Eval(trees[i], 0, x))
  }

  /** vehicle_rf_predict: the votes of all trees, and the first class with more than any before it */
  method RfPredict(forest: seq<seq<RFNode>>, ghost trees: seq<Tree>, x: seq<int>) returns (winner: int)
    requires |forest| == |trees| < 256 && |x| == FEATURE_COUNT
    requires forall i :: 0 <= i < |trees| ==>
      WellFormed(trees[i]) && SameTree(forest[i], trees[i]) && 0 <= Eval(trees[i], 0, x) < CLASS_COUNT
    ensures Wins(Classes(trees, x), winner)
  {
    hide Eval, SameTree, Votes;
    NoVotes();
    var votes := new nat[CLASS_COUNT](_ => 0);
    ghost var said: seq<int> := [];
    for i := 0 to |forest|
      invariant |said| == i && forall j :: 0 <= j < i ==> said[j] == Classes(trees, x)[j]
      invariant forall c :: 0 <= c < CLASS_COUNT ==> votes[c] == Votes(said, c) <= i
    {
      var p := EvaluateTree(forest[i], trees[i], x);
      VoteAdded(said, p);
      votes[p] := (votes[p] + 1) % 0x100;
      said := said + [p as int];
    }
    assert said == Classes(trees, x);
    winner := 0;
    for c := 1 to CLASS_COUNT
      invariant 0 <= winner < c
      invariant forall d :: 0 <= d < c ==> votes[d] <= votes[winner]
      invariant forall d :: 0 <= d < winner ==> votes[d] < votes[winner]
    {
      if votes[c] > votes[winner] {
        winner := c;
      }
    }
  }

  lemma NoVotes()
    ensures forall c :: Votes([], c) == 0
  {
  }

  lemma VoteAdded(predictions: seq<int>, p: int)
    ensures forall c :: Votes(predictions + [p], c) == Votes(predictions, c) + (if c == p then 1 else 0)
  {
    assert multiset(predictions + [p]) == multiset(predictions) + multiset{p};
  }

  // ----- the evaluators agree -----

  function Doubled(x: seq<int>): (x2: seq<int>)
    ensures |x2| == |x|
  {
    seq(|x|, i requires 0 <= i < |x| => 2 * x[i])
  }

  /** No threshold of the subtree at node is a little below an even number of halves. */
  ghost predicate ExactThresholds(t: Tree, node: nat)
    requires WellFormed(t) && node < |t.left|
    decreases |t.left| - node
  {
    IsLeaf(t.left[node], t.right[node]) ||
    (var d := t.threshold[node] * 2.0;
     !(Round(d) % 2 == 0 && d < Round(d) as real)
     && ExactThresholds(t, t.left[node]) && ExactThresholds(t, t.right[node]))
  }

  predicate Naturals(x: seq<int>) {
    forall i :: 0 <= i < |x| ==> x[i] >= 0
  }

  lemma {:induction false} StoredMeansSame(t: Tree, node: nat, r: int, x: seq<int>)
    requires WellFormed(t) && node < |t.left| && Exportable(t, node, r) && ExactThresholds(t, node)
    requires Naturals(x)
    ensures EvalStored(t, node, Doubled(x)) == Eval(t, node, x)
    decreases |t.left| - node
  {
    if !IsLeaf(t.left[node], t.right[node]) {
      StoredMeansSame(t, t.left[node], r - 1, x);
      StoredMeansSame(t, t.right[node], r - 1, x);
      hide IsClose, Round, LeafClass, WellFormed;
      ThresholdExact(t.threshold[node]);
      if 0 <= t.feature[node] < |x| {
        assert Doubled(x)[t.feature[node]] == 2 * x[t.feature[node]];
        assert x[t.feature[node]] as real <= t.threshold[node]
          <==> 2 * x[t.feature[node]] <= Round(t.threshold[node] * 2.0);
      }
    }
  }

  /** An exported tree means the same in the accelerator as in the model, for every feature vector. */
  lemma ExportPreservesMeaning(forest: seq<nat>, i: nat, depth: nat, t: Tree, x: seq<int>)
    requires WellFormed(t) && TreeAt(forest, i, depth, t) && Exportable(t, 0, depth) && ExactThresholds(t, 0)
    requires |x| == FEATURE_COUNT && Naturals(x)
    ensures SimulateAt(forest, i, depth, Doubled(x)) == Eval(t, 0, x)
  {
    StoredMeansSame(t, 0, depth, x);
  }

  /**
   * The tolerance of the exporter lets thresholds through that it changes: with 0.999999 feature
   * value 1 goes right in the model and left in the accelerator.
   */
  lemma ToleranceChangesMeaning()
    ensures Accepts(0.999999) && Round(0.999999 * 2.0) == 2
    ensures !(1 as real <= 0.999999) && 2 * 1 <= Round(0.999999 * 2.0)
  {
  }

  /** Both forests, exported memory and node arrays, predict the same class. */
  method PredictBoth(trees: seq<Tree>, arrays: seq<seq<RFNode>>, depth: nat, x: seq<int>)
    returns (ok: bool, onMemory: int, onNodes: int)
    requires |arrays| == |trees| < 256 && |x| == FEATURE_COUNT && Naturals(x)
    requires forall i :: 0 <= i < |trees| ==>
      WellFormed(trees[i]) && SameTree(arrays[i], trees[i]) && ExactThresholds(trees[i], 0)
    ensures ok <==> forall i :: 0 <= i < |trees| ==> Exportable(trees[i], 0, depth)
    ensures ok ==> onMemory == onNodes
  {
    hide SameTree, ExactThresholds, Eval, Exportable, WordsOk, SimulateAt, HeapSize, Naturals, Wins;
    var forest;
    onMemory, onNodes := 0, 0;
    ok, forest := ExportForest(trees, depth);
    if ok {
      forall i | 0 <= i < |trees|
        ensures 0 <= Eval(trees[i], 0, x) < CLASS_COUNT
      {
        ClassInRange(trees[i], 0, depth, x);
      }
      onMemory := SimulateForest(forest, |trees|, depth, Doubled(x));
      onNodes := RfPredict(arrays, trees, x);
      forall i | 0 <= i < |trees|
        ensures Walks(forest, |trees|, depth, Doubled(x))[i] == Classes(trees, x)[i]
      {
        ExportPreservesMeaning(forest, i, depth, trees[i], x);
      }
      assert Walks(forest, |trees|, depth, Doubled(x)) == Classes(trees, x);
      OneWinner(Classes(trees, x), onMemory, onNodes);
    }
  }

  lemma {:induction false} ClassInRange(t: Tree, node: nat, r: int, x: seq<int>)
    requires WellFormed(t) && node < |t.left| && Exportable(t, node, r)
    ensures 0 <= Eval(t, node, x) < CLASS_COUNT
    decreases |t.left| - node
  {
    if !IsLeaf(t.left[node], t.right[node]) {
      ClassInRange(t, t.left[node], r - 1, x);
      ClassInRange(t, t.right[node], r - 1, x);
    }
  }
}
