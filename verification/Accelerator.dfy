/** The prediction unit in hardware (random_forest_vehicle.sv), on the words the exporter writes. */
module Accelerator {
  import opened Arith
  import opened HeapTrees
  import opened ForestExport

  const TREE_COUNT: nat := 4
  const DEPTH: nat := 3
  const NODES_PER_TREE: nat := 15

  /** The part-select w[hi:lo] */
  function Slice(w: nat, hi: nat, lo: nat): nat
    requires lo <= hi
  {
    w / Pow(2, lo) % Pow(2, hi - lo + 1)
  }

  /** The slices the unit takes are the fields the exporter packs. */
  lemma SlicesAreFields(w: nat)
    ensures Slice(w, 31, 27) == FeatureOf(w) && Slice(w, 26, 16) == ThresholdOf(w) && Slice(w, 15, 8) == ClassOf(w)
  {
    SlicePowers();
    hide Pow;
  }

  lemma SlicePowers()
    ensures Pow(2, 5) == 0x20 && Pow(2, 8) == 0x100 && Pow(2, 11) == 0x800
    ensures Pow(2, 16) == 0x1_0000 && Pow(2, 27) == 0x800_0000
  {
    PowOfFive();
    hide Pow;
    PowSum(2, 8, 8);
    PowSum(2, 8, 3);
    PowSum(2, 11, 16);
  }

  lemma PowOfFive()
    ensures Pow(2, 3) == 8 && Pow(2, 5) == 0x20 && Pow(2, 8) == 0x100
  {
    assert Pow(2, 1) == 2 && Pow(2, 2) == 4 && Pow(2, 3) == 8 && Pow(2, 4) == 16 && Pow(2, 5) == 32;
    assert Pow(2, 6) == 64 && Pow(2, 7) == 128;
  }

  lemma HeapOfDepth3()
    ensures HeapSize(DEPTH) == NODES_PER_TREE
  {
    assert Pow(2, 1) == 2 && Pow(2, 2) == 4 && Pow(2, 3) == 8 && Pow(2, 4) == 16;
  }

  /** What the four-way counter makes of a prediction: its two low bits */
  function LowBits(predictions: seq<int>): (r: seq<int>)
    ensures |r| == |predictions|
  {
    seq(|predictions|, i requires 0 <= i < |predictions| => predictions[i] % 4)
  }

  class Unit {
    const features: array<nat>
    const treeMemory: array<nat>

    constructor ()
      ensures Shaped() && fresh(features) && fresh(treeMemory)
    {
      features, treeMemory := new nat[18](_ => 0), new nat[60](_ => 0);
    }

    predicate Shaped() {
      features.Length == FEATURE_COUNT && treeMemory.Length == TREE_COUNT * NODES_PER_TREE
    }

    /** One clock with feature_we: a write outside the registers is lost. */
    method WriteFeature(address: nat, data: nat)
      requires Shaped() && address < 0x20 && data < 0x1_0000_0000
      modifies features
      ensures features[..] == if address < FEATURE_COUNT then old(features[..])[address := data] else old(features[..])
    {
      if address < FEATURE_COUNT {
        features[address] := data;
      }
    }

    /** One clock with tree_we */
    method WriteTree(address: nat, data: nat)
      requires Shaped() && address < 0x100 && data < 0x1_0000_0000
      modifies treeMemory
      ensures treeMemory[..]
           == if address < treeMemory.Length then old(treeMemory[..])[address := data] else old(treeMemory[..])
    {
      if address < treeMemory.Length {
        treeMemory[address] := data;
      }
    }

    /** The walk that the unit's memory and registers ask for */
    ghost function WalkOf(treeId: nat): int
      requires Shaped() && treeId < TREE_COUNT
      reads features, treeMemory
    {
      HeapOfDepth3();
      SimulateAt(treeMemory[..], treeId, DEPTH, features[..])
    }

    /** traverse_tree: three steps down the words of one tree, by the unit's own slices. */
    method TraverseTree(treeId: nat) returns (prediction: nat)
      requires Shaped() && treeId < TREE_COUNT && WordsOk(treeMemory[..])
      ensures prediction == WalkOf(treeId)
    {
      hide FeatureOf, ThresholdOf, ClassOf, Slice, HeapSize;
      HeapOfDepth3();
      RootLevel(DEPTH);
      ghost var mem, x2 := treeMemory[..][15 * treeId..15 * treeId + 15], features[..];
      var nodeId: nat := 0;
      for i := 0 to DEPTH
        invariant Level(nodeId, DEPTH - i, |mem|)
        invariant Simulate(mem, nodeId, DEPTH - i, x2) == Simulate(mem, 0, DEPTH, x2)
      {
        hide Level, Simulate;
        LevelInside(nodeId, DEPTH - i, |mem|);
        LevelDown(nodeId, DEPTH - i, |mem|);
        SimulateStep(mem, nodeId, DEPTH - i, x2);
        var nodeData := treeMemory[treeId * NODES_PER_TREE + nodeId];
        assert nodeData == mem[nodeId] && WordOk(nodeData);
        SlicesAreFields(nodeData);
        var featureIdx, thresholdX2 := Slice(nodeData, 31, 27), Slice(nodeData, 26, 16);
        if features[featureIdx] <= thresholdX2 {
          nodeId := nodeId * 2 + 1;
        } else {
          nodeId := nodeId * 2 + 2;
        }
      }
      LevelInside(nodeId, 0, |mem|);
      LevelDown(nodeId, 0, |mem|);
      SimulateStep(mem, nodeId, 0, x2);
      var leaf := treeMemory[treeId * NODES_PER_TREE + nodeId];
      SlicesAreFields(leaf);
      prediction := Slice(leaf, 15, 8);
    }

    /** RF_PREDICT: all trees, then the first of the four classes with the most votes. */
    method Predict() returns (result: nat)
      requires Shaped() && WordsOk(treeMemory[..])
      ensures Wins(LowBits([WalkOf(0), WalkOf(1), WalkOf(2), WalkOf(3)]), result)
    {
      hide Votes, FeatureOf, WordsOk, WalkOf;
      var p0 := TraverseTree(0);
      var p1 := TraverseTree(1);
      var p2 := TraverseTree(2);
      var p3 := TraverseTree(3);
      result := Aggregate([p0, p1, p2, p3]);
      assert LowBits([WalkOf(0), WalkOf(1), WalkOf(2), WalkOf(3)]) == LowBits([p0, p1, p2, p3]);
    }
  }

  /** aggregate_predictions */
  method Aggregate(predictions: seq<nat>) returns (winner: nat)
    ensures Wins(LowBits(predictions), winner)
  {
    hide Votes;
    NoVotes();
    var voteCount := new nat[4](_ => 0);
    ghost var said: seq<int> := [];
    for i := 0 to |predictions|
      invariant |said| == i && forall j :: 0 <= j < i ==> said[j] == LowBits(predictions)[j]
      invariant forall c :: 0 <= c < 4 ==> voteCount[c] == Votes(said, c)
    {
      var p := predictions[i] % 4;
      VoteAdded(said, p);
      voteCount[p] := voteCount[p] + 1;
      said := said + [p as int];
    }
    assert said == LowBits(predictions);
    var maxVotes := 0;
    winner := 0;
    for c := 0 to 4
      invariant 0 <= winner < 4 && maxVotes <= voteCount[winner]
      invariant forall d :: 0 <= d < c ==> voteCount[d] <= maxVotes
      invariant forall d :: 0 <= d < winner ==> voteCount[d] < maxVotes
    {
      if voteCount[c] > maxVotes {
        maxVotes, winner := voteCount[c], c;
      }
    }
  }

  /** Exported, loaded and started, the unit predicts what the original forest does. */
  method PredictOnChip(trees: seq<Tree>, x: seq<int>) returns (ok: bool, result: int)
    requires |trees| == TREE_COUNT && |x| == FEATURE_COUNT
    requires forall i :: 0 <= i < |x| ==> 0 <= 2 * x[i] < 0x1_0000_0000
    requires forall i :: 0 <= i < |trees| ==> WellFormed(trees[i]) && ExactThresholds(trees[i], 0)
    ensures ok <==> forall i :: 0 <= i < |trees| ==> Exportable(trees[i], 0, DEPTH)
    ensures ok ==> Wins(Classes(trees, x), result)
  {
    hide ExactThresholds, Eval, Exportable, WordsOk, SimulateAt, HeapSize, Wins, TreeAt;
    result := 0;
    var forest;
    ok, forest := ExportForest(trees, DEPTH);
    if ok {
      var unit := new Unit();
      HeapOfDepth3();
      LoadForest(unit, forest);
      LoadFeatures(unit, x);
      result := unit.Predict();
      UnitMeans(unit, forest, trees, x);
    }
  }

  method LoadForest(unit: Unit, forest: seq<nat>)
    requires unit.Shaped() && |forest| == unit.treeMemory.Length && WordsOk(forest)
    modifies unit.treeMemory
    ensures unit.treeMemory[..] == forest
  {
    hide FeatureOf;
    for i := 0 to |forest|
      invariant forall j :: 0 <= j < i ==> unit.treeMemory[j] == forest[j]
    {
      assert WordOk(forest[i]);
      unit.WriteTree(i, forest[i]);
      assert unit.treeMemory[..][i] == forest[i];
      assert forall j :: 0 <= j < i ==> unit.treeMemory[..][j] == forest[j];
    }
  }

  method LoadFeatures(unit: Unit, x: seq<int>)
    requires unit.Shaped() && |x| == FEATURE_COUNT && unit.features != unit.treeMemory
    requires forall i :: 0 <= i < |x| ==> 0 <= 2 * x[i] < 0x1_0000_0000
    modifies unit.features
    ensures unit.features[..] == Doubled(x)
  {
    for i := 0 to |x|
      invariant forall j :: 0 <= j < i ==> unit.features[j] == 2 * x[j]
    {
      unit.WriteFeature(i, 2 * x[i]);
      assert unit.features[..][i] == 2 * x[i];
      assert forall j :: 0 <= j < i ==> unit.features[..][j] == 2 * x[j];
    }
  }

  lemma UnitMeans(unit: Unit, forest: seq<nat>, trees: seq<Tree>, x: seq<int>)
    requires unit.Shaped() && unit.treeMemory[..] == forest && unit.features[..] == Doubled(x)
    requires |trees| == TREE_COUNT && |x| == FEATURE_COUNT && Naturals(x)
    requires forall i :: 0 <= i < |trees| ==>
      && WellFormed(trees[i]) && ExactThresholds(trees[i], 0) && Exportable(trees[i], 0, DEPTH)
      && TreeAt(forest, i, DEPTH, trees[i])
    ensures LowBits([unit.WalkOf(0), unit.WalkOf(1), unit.WalkOf(2), unit.WalkOf(3)]) == Classes(trees, x)
  {
    hide ExactThresholds, Eval, Exportable, SimulateAt, HeapSize, TreeAt;
    forall i | 0 <= i < 4
      ensures unit.WalkOf(i) == Eval(trees[i], 0, x) && 0 <= unit.WalkOf(i) < 4
    {
      HeapOfDepth3();
      ExportPreservesMeaning(forest, i, DEPTH, trees[i], x);
      ClassInRange(trees[i], 0, DEPTH, x);
    }
  }
}
