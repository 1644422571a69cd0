/**
 * The three-stage anomaly cascade over the rows of one batch. The trained
 * models are oracles: each maps a list of rows to one prediction per row
 * (1 for an inlier). A row stands for its log line, because the feature
 * extraction that turns lines into rows works line by line.
 */
module Cascade {
  import opened Sequences

  /** One batch prediction per row: `iso_forest.predict`, `lof.fit_predict`, `oc_svm.predict`. */
  type Classifier = seq<string> -> seq<int>

  datatype Models = Models(isoForest: Classifier, lof: Classifier, ocSvm: Classifier)

  /** Every model answers with exactly one prediction per row it is given. */
  ghost predicate WellFormed(m: Models) {
    && (forall rows :: |m.isoForest(rows)| == |rows|)
    && (forall rows :: |m.lof(rows)| == |rows|)
    && (forall rows :: |m.ocSvm(rows)| == |rows|)
  }

  predicate IsInlier(prediction: int) { prediction == 1 }

  /** `np.where(pred == 1)[0]`. */
  function Where(pred: seq<int>): seq<nat> {
    FilterIndices(pred, IsInlier)
  }

  /** `idx[mask == 1]`: the entries of `idx` whose mask entry is 1, in order. */
  function Keep(idx: seq<nat>, mask: seq<int>): (kept: seq<nat>)
    requires |idx| == |mask|
    ensures |kept| <= |idx|
    ensures StrictlyIncreasing(idx) ==> StrictlyIncreasing(kept)
  {
    var w := Where(mask);
    SelectIncreasingIf(idx, w);
    Select(idx, w)
  }

  lemma SelectIncreasingIf(a: seq<nat>, idx: seq<nat>)
    requires forall k :: 0 <= k < |idx| ==> idx[k] < |a|
    requires StrictlyIncreasing(idx)
    ensures StrictlyIncreasing(a) ==> StrictlyIncreasing(Select(a, idx))
  {
    if StrictlyIncreasing(a) {
      SelectIncreasing(a, idx);
    }
  }

  /** An entry survives the mask exactly when it stands at a position whose mask entry is 1. */
  lemma KeepMembers(idx: seq<nat>, mask: seq<int>)
    requires |idx| == |mask|
    ensures forall x :: x in Keep(idx, mask) <==> exists k :: 0 <= k < |idx| && idx[k] == x && mask[k] == 1
  {
    var w := Where(mask);
    var kept := Keep(idx, mask);
    FilterIndicesMembers(mask, IsInlier);
    forall x | x in kept ensures exists k :: 0 <= k < |idx| && idx[k] == x && mask[k] == 1 {
      var i :| 0 <= i < |kept| && kept[i] == x;
      assert idx[w[i]] == x && IsInlier(mask[w[i]]);
    }
    forall x | exists k :: 0 <= k < |idx| && idx[k] == x && mask[k] == 1 ensures x in kept {
      var k :| 0 <= k < |idx| && idx[k] == x && mask[k] == 1;
      assert IsInlier(mask[k]);
      var i :| 0 <= i < |w| && w[i] == k;
      assert kept[i] == x;
    }
  }

  /** Masking never introduces an index: a bound on the entries carries over. */
  lemma KeepBelow(idx: seq<nat>, mask: seq<int>, n: nat)
    requires |idx| == |mask|
    requires forall k :: 0 <= k < |idx| ==> idx[k] < n
    ensures forall k :: 0 <= k < |Keep(idx, mask)| ==> Keep(idx, mask)[k] < n
  {
  }

  /** The surviving row indices after each stage. */
  datatype Stages = Stages(inliers: seq<nat>, dense: seq<nat>, normal: seq<nat>)

  /** Every index is a row, the lists are increasing, and each is contained in the one before. */
  ghost predicate Narrowing(st: Stages, rows: nat) {
    && StrictlyIncreasing(st.inliers) && StrictlyIncreasing(st.dense) && StrictlyIncreasing(st.normal)
    && (forall k :: 0 <= k < |st.inliers| ==> st.inliers[k] < rows)
    && (forall x :: x in st.dense ==> x in st.inliers)
    && (forall x :: x in st.normal ==> x in st.dense)
  }

  /**
   * Lines 116-130: Stage A keeps the rows the outlier forest calls inliers;
   * Stage B re-fits the density model on those rows and keeps its inliers,
   * but only when at least two rows reached it; Stage C keeps the rows the
   * boundary model calls inliers, and those are the rows labelled Normal.
   */
  function RunCascade(rows: seq<string>, m: Models): (st: Stages)
    requires WellFormed(m)
    ensures forall k :: 0 <= k < |st.inliers| ==> st.inliers[k] < |rows|
    ensures forall k :: 0 <= k < |st.dense| ==> st.dense[k] < |rows|
    ensures |st.inliers| < 2 ==> st.dense == st.inliers
  {
    var a := Where(m.isoForest(rows));
    if |a| == 0 then Stages(a, a, [])
    else
      var b := if |a| >= 2 then KeepBelow(a, m.lof(Select(rows, a)), |rows|); Keep(a, m.lof(Select(rows, a))) else a;
      if |b| == 0 then Stages(a, b, [])
      else Stages(a, b, Keep(b, m.ocSvm(Select(rows, b))))
  }

  /** Each stage keeps an increasing list of rows drawn from the stage before it. */
  lemma CascadeNarrows(rows: seq<string>, m: Models)
    requires WellFormed(m)
    ensures Narrowing(RunCascade(rows, m), |rows|)
  {
    var st := RunCascade(rows, m);
    var a := st.inliers;
    var b := st.dense;
    if |a| >= 2 {
      KeepSubset(a, m.lof(Select(rows, a)));
    }
    assert forall x :: x in b ==> x in a;
    if |a| > 0 && |b| > 0 {
      KeepSubset(b, m.ocSvm(Select(rows, b)));
    }
    assert forall x :: x in st.normal ==> x in b;
  }

  lemma KeepSubset(idx: seq<nat>, mask: seq<int>)
    requires |idx| == |mask|
    ensures forall x :: x in Keep(idx, mask) ==> x in idx
  {
    KeepMembers(idx, mask);
  }

  datatype Label = Normal | Anomaly

  /** `n` labels, Normal at the positions listed in `normal` and Anomaly elsewhere. */
  function Mark(n: nat, normal: seq<nat>): (labels: seq<Label>)
    ensures |labels| == n
  {
    if n == 0 then [] else Mark(n - 1, normal) + [if n - 1 in normal then Normal else Anomaly]
  }

  lemma {:induction false} MarkAt(n: nat, normal: seq<nat>, j: nat)
    requires j < n
    ensures Mark(n, normal)[j] == if j in normal then Normal else Anomaly
  {
    if j < n - 1 {
      MarkAt(n - 1, normal, j);
    }
  }

  /** `final_labels`: Normal for the rows that survive every stage, Anomaly for the rest. */
  function Labels(rows: seq<string>, m: Models): (labels: seq<Label>)
    requires WellFormed(m)
    ensures |labels| == |rows|
  {
    Mark(|rows|, RunCascade(rows, m).normal)
  }

  /**
   * Lines 117-124: the candidate indices after Stage A and, when at least two
   * rows passed it, Stage B.
   */
  method DenseCandidates(validLogs: seq<string>, models: Models) returns (normalIdx: seq<nat>)
    requires WellFormed(models)
    ensures normalIdx == RunCascade(validLogs, models).dense
  {
    var predIso := models.isoForest(validLogs);
    normalIdx := Where(predIso);
    if |normalIdx| > 0 {
      var refined := Select(validLogs, normalIdx);
      if |refined| >= 2 {
        var predLof := models.lof(refined);
        normalIdx := Keep(normalIdx, predLof);
      }
    }
  }

  /**
   * Lines 114-130: every valid line starts as Anomaly; the cascade narrows
   * the candidate indices and the survivors of the last stage are
   * overwritten with Normal in `final_labels`.
   */
  method LabelBatch(validLogs: seq<string>, models: Models) returns (labels: seq<Label>)
    requires WellFormed(models)
    ensures labels == Labels(validLogs, models)
  {
    var finalLabels := new Label[|validLogs|](_ => Anomaly);
    var normalIdx := DenseCandidates(validLogs, models);
    var survivors: seq<nat> := [];
    if |normalIdx| > 0 {
      var predSvm := models.ocSvm(Select(validLogs, normalIdx));
      MarkNormal(finalLabels, normalIdx, predSvm);
      survivors := Keep(normalIdx, predSvm);
    }
    labels := finalLabels[..];
    LabelsOfNormal(validLogs, models, survivors, labels);
  }

  /** A labelling that marks exactly the last stage's survivors Normal is `Labels`. */
  lemma LabelsOfNormal(rows: seq<string>, m: Models, survivors: seq<nat>, labels: seq<Label>)
    requires WellFormed(m)
    requires var dense := RunCascade(rows, m).dense;
      survivors == if |dense| > 0 then Keep(dense, m.ocSvm(Select(rows, dense))) else []
    requires |labels| == |rows|
    requires forall j :: 0 <= j < |rows| ==> labels[j] == if j in survivors then Normal else Anomaly
    ensures labels == Labels(rows, m)
  {
    assert survivors == RunCascade(rows, m).normal;
    forall j | 0 <= j < |rows| ensures labels[j] == Labels(rows, m)[j] {
      MarkAt(|rows|, survivors, j);
    }
  }

  /** Lines 128-130: `final_labels[idx] = "Normal"` for each candidate the last model accepts. */
  method MarkNormal(finalLabels: array<Label>, normalIdx: seq<nat>, predSvm: seq<int>)
    requires |predSvm| == |normalIdx|
    requires forall k :: 0 <= k < |normalIdx| ==> normalIdx[k] < finalLabels.Length
    modifies finalLabels
    ensures forall j :: 0 <= j < finalLabels.Length ==>
      finalLabels[j] == if j in Keep(normalIdx, predSvm) then Normal else old(finalLabels[j])
  {
    for i := 0 to |normalIdx|
      invariant forall j :: 0 <= j < finalLabels.Length ==>
        finalLabels[j] == if exists k :: 0 <= k < i && normalIdx[k] == j && predSvm[k] == 1 then Normal else old(finalLabels[j])
    {
      if predSvm[i] == 1 {
        finalLabels[normalIdx[i]] := Normal;
      }
    }
    KeepMembers(normalIdx, predSvm);
  }

  /**
   * A row is labelled Normal exactly when all three stages vote for it: the
   * outlier forest predicts 1 for it; the density model predicts 1 for its
   * position among Stage A's survivors, unless fewer than two survived; and
   * the boundary model predicts 1 for its position among the remaining rows.
   */
  lemma NormalIffAllStagesAgree(rows: seq<string>, m: Models, j: nat)
    requires WellFormed(m) && j < |rows|
    ensures var st := RunCascade(rows, m);
      Labels(rows, m)[j] == Normal <==>
        && m.isoForest(rows)[j] == 1
        && (exists pa :: 0 <= pa < |st.inliers| && st.inliers[pa] == j
              && (|st.inliers| >= 2 ==> m.lof(Select(rows, st.inliers))[pa] == 1))
        && (exists pb :: 0 <= pb < |st.dense| && st.dense[pb] == j
              && m.ocSvm(Select(rows, st.dense))[pb] == 1)
  {
    var st := RunCascade(rows, m);
    MarkAt(|rows|, st.normal, j);
    var a := st.inliers;
    var pred := m.isoForest(rows);
    FilterIndicesMembers(pred, IsInlier);
    assert j in a <==> pred[j] == 1;
    if |a| >= 2 {
      var lofPred := m.lof(Select(rows, a));
      KeepMembers(a, lofPred);
      assert j in st.dense <==> exists pa :: 0 <= pa < |a| && a[pa] == j && lofPred[pa] == 1;
    }
    if |st.dense| > 0 {
      KeepMembers(st.dense, m.ocSvm(Select(rows, st.dense)));
    }
  }

  /** When fewer than two rows pass Stage A the density model is never consulted. */
  lemma StageBSkipped(rows: seq<string>, m: Models, lof': Classifier)
    requires WellFormed(m) && WellFormed(m.(lof := lof'))
    requires |RunCascade(rows, m).inliers| < 2
    ensures Labels(rows, m) == Labels(rows, m.(lof := lof'))
  {
  }

  /** A batch of one line is labelled by Stage A and Stage C alone. */
  lemma SingleRowIgnoresStageB(rows: seq<string>, m: Models, lof': Classifier)
    requires WellFormed(m) && WellFormed(m.(lof := lof'))
    requires |rows| == 1
    ensures Labels(rows, m) == Labels(rows, m.(lof := lof'))
  {
    IncreasingBounded(RunCascade(rows, m).inliers, |rows|);
    StageBSkipped(rows, m, lof');
  }

  /** An empty batch labels nothing Normal, whatever the models say. */
  lemma EmptyBatchHasNoNormal(m: Models)
    requires WellFormed(m)
    ensures RunCascade([], m).normal == []
  {
  }
}
