/** Matching predictions to truth regions and lining up the class vectors
    (examples/run_pipeline_evaluation.py, lines 32-45). Row p of the IoU matrix
    holds the overlap of prediction p with every truth region. A prediction whose
    row sums to more than zero is matched to the first truth region of maximal
    IoU; any other prediction is matched to the `background` class. For each
    prediction, in order, the matched label is one-hot encoded over the fitted
    categories and the prediction's probability map is read out in the same
    category order. */
module Matching {
  import opened Wrappers
  import opened Collections
  import opened Encoder

  /** The class a prediction without any overlap is counted as. */
  const Background: string := "background"

  predicate NonNegative(row: seq<real>)
  {
    forall j :: 0 <= j < |row| ==> row[j] >= 0.0
  }

  /** The sum of one IoU row (`np.sum`, the overlap test of line 35); a row of
      overlaps, which are never negative, never sums below zero. */
  function RowSum(row: seq<real>): (s: real)
    ensures NonNegative(row) ==> s >= 0.0
    decreases |row|
  {
    if row == [] then 0.0
    else
      assert NonNegative(row) ==> NonNegative(row[..|row| - 1]);
      RowSum(row[..|row| - 1]) + row[|row| - 1]
  }

  /** A row can only sum to more than zero if one of its entries is positive. */
  lemma {:induction false} PositiveSumHasPositiveEntry(row: seq<real>)
    requires RowSum(row) > 0.0
    ensures exists j :: 0 <= j < |row| && row[j] > 0.0
    decreases |row|
  {
    var init := row[..|row| - 1];
    if RowSum(init) > 0.0 {
      PositiveSumHasPositiveEntry(init);
      var j :| 0 <= j < |init| && init[j] > 0.0;
      assert row[j] == init[j];
    } else {
      assert row[|row| - 1] > 0.0;
    }
  }

  /** In a row of non-negative overlaps every entry is at most the row sum. */
  lemma {:induction false} EntryAtMostSum(row: seq<real>, j: nat)
    requires NonNegative(row) && j < |row|
    ensures 0.0 <= row[j] <= RowSum(row)
    decreases |row|
  {
    var init := row[..|row| - 1];
    assert NonNegative(init);
    if j < |init| {
      EntryAtMostSum(init, j);
    }
  }

  /** For overlaps, which are never negative, the test of line 35 holds exactly
      when some truth region overlaps the prediction. */
  lemma OverlapTest(row: seq<real>)
    requires NonNegative(row)
    ensures RowSum(row) > 0.0 <==> exists j :: 0 <= j < |row| && row[j] > 0.0
  {
    if RowSum(row) > 0.0 {
      PositiveSumHasPositiveEntry(row);
    } else {
      forall j | 0 <= j < |row|
        ensures row[j] <= 0.0
      {
        EntryAtMostSum(row, j);
      }
    }
  }

  /** `k` is the first index at which the row attains its maximum. */
  predicate IsFirstMax(row: seq<real>, k: nat)
  {
    k < |row|
    && (forall j :: 0 <= j < |row| ==> row[j] <= row[k])
    && (forall j :: 0 <= j < k ==> row[j] < row[k])
  }

  /** The index chosen by the argmax of line 36: ties go to the lowest index. */
  function ArgMax(row: seq<real>): (k: nat)
    requires |row| > 0
    ensures IsFirstMax(row, k)
    decreases |row|
  {
    if |row| == 1 then 0
    else
      var init := row[..|row| - 1];
      var k := ArgMax(init);
      assert forall j :: 0 <= j < |init| ==> row[j] == init[j];
      if row[|row| - 1] > row[k] then |row| - 1 else k
  }

  /** The first-maximal index is unique, so the argmax is determined by it. */
  lemma FirstMaxUnique(row: seq<real>, a: nat, b: nat)
    requires IsFirstMax(row, a) && IsFirstMax(row, b)
    ensures a == b
  {
    assert row[a] <= row[b] && row[b] <= row[a];
  }

  /** What a prediction is matched to. */
  datatype Match = Region(index: nat) | Unmatched

  /** The matching rule of lines 35-36 and 41: the first truth region of
      maximal IoU when the row sums to more than zero, otherwise nothing. */
  function MatchOf(row: seq<real>): (m: Match)
    ensures m.Region? <==> RowSum(row) > 0.0
    ensures m.Region? ==> IsFirstMax(row, m.index) && row[m.index] > 0.0
  {
    if RowSum(row) > 0.0 then
      PositiveSumHasPositiveEntry(row);
      Region(ArgMax(row))
    else Unmatched
  }

  /** The background fallback fires exactly when no truth region overlaps. */
  lemma BackgroundIffNoOverlap(row: seq<real>)
    requires NonNegative(row)
    ensures MatchOf(row) == Unmatched <==> forall j :: 0 <= j < |row| ==> row[j] == 0.0
  {
    OverlapTest(row);
  }

  /** The label the truth vector of a prediction encodes (lines 40 and 45). */
  function MatchedLabel(row: seq<real>, truthLabels: seq<string>): (l: string)
    requires |row| == |truthLabels|
    ensures RowSum(row) > 0.0 ==> exists k: nat :: IsFirstMax(row, k) && l == truthLabels[k]
    ensures RowSum(row) <= 0.0 ==> l == Background
  {
    match MatchOf(row)
    case Region(k) => truthLabels[k]
    case Unmatched => Background
  }

  /** Why the loop of lines 34-45 stops: a probability map lacks a category
      (the column selection of lines 38/43 raises), or the matched label is not
      a fitted category (the encoding of lines 40/45 raises). */
  datatype AlignError =
    | MissingClass(prediction: nat)
    | UnknownLabel(prediction: nat, name: string)

  /** The truth row and the predicted row appended for prediction `p`: the
      probability lookup comes first, then the encoding, as in the source. */
  function Step(p: nat, row: seq<real>, truthLabels: seq<string>, prob: map<string, real>,
                cats: seq<string>): (r: Result<(seq<real>, seq<real>), AlignError>)
    requires |row| == |truthLabels|
    ensures r.Ok? <==> (forall c :: c in cats ==> c in prob) && MatchedLabel(row, truthLabels) in cats
    ensures (exists c :: c in cats && c !in prob) ==> r == Err(MissingClass(p))
    ensures (forall c :: c in cats ==> c in prob) && MatchedLabel(row, truthLabels) !in cats ==>
      r == Err(UnknownLabel(p, MatchedLabel(row, truthLabels)))
    ensures r.Ok? ==> |r.value.0| == |cats| && |r.value.1| == |cats|
  {
    match ColumnsInOrder(prob, cats)
    case None => Err(MissingClass(p))
    case Some(pred) =>
      match OneHot(cats, MatchedLabel(row, truthLabels))
      case None => Err(UnknownLabel(p, MatchedLabel(row, truthLabels)))
      case Some(truth) => Ok((truth, pred))
  }

  /** The two parallel lists built by the loop. */
  datatype Aligned = Aligned(yTruth: seq<seq<real>>, yPred: seq<seq<real>>)

  /** The matrix has one row per prediction and one column per truth region. */
  predicate Shaped(iou: seq<seq<real>>, truthLabels: seq<string>, probs: seq<map<string, real>>)
  {
    |iou| == |probs| && forall p :: 0 <= p < |iou| ==> |iou[p]| == |truthLabels|
  }

  /** The loop of lines 32-45. It stops at the first prediction whose step
      fails; otherwise entry p of both lists is the step of prediction p. */
  method AlignPredictions(iou: seq<seq<real>>, truthLabels: seq<string>,
                          probs: seq<map<string, real>>, cats: seq<string>)
    returns (res: Result<Aligned, AlignError>)
    requires Shaped(iou, truthLabels, probs)
    ensures res.Ok? <==> forall p :: 0 <= p < |probs| ==> Step(p, iou[p], truthLabels, probs[p], cats).Ok?
    ensures res.Ok? ==>
      |res.value.yTruth| == |probs| && |res.value.yPred| == |probs|
      && forall p :: 0 <= p < |probs| ==>
           Step(p, iou[p], truthLabels, probs[p], cats) == Ok((res.value.yTruth[p], res.value.yPred[p]))
    ensures res.Err? ==>
      exists p :: 0 <= p < |probs|
        && Step(p, iou[p], truthLabels, probs[p], cats) == Err(res.error)
        && forall q :: 0 <= q < p ==> Step(q, iou[q], truthLabels, probs[q], cats).Ok?
  {
    var yTruth: seq<seq<real>> := [];
    var yPred: seq<seq<real>> := [];
    for p := 0 to |probs|
      invariant |yTruth| == p && |yPred| == p
      invariant forall q :: 0 <= q < p ==>
        Step(q, iou[q], truthLabels, probs[q], cats) == Ok((yTruth[q], yPred[q]))
    {
      var predRow := ColumnsInOrder(probs[p], cats);
      if predRow.None? {
        return Err(MissingClass(p));
      }
      var name := MatchedLabel(iou[p], truthLabels);
      var truthRow := OneHot(cats, name);
      if truthRow.None? {
        return Err(UnknownLabel(p, name));
      }
      yPred := yPred + [predRow.value];
      yTruth := yTruth + [truthRow.value];
    }
    res := Ok(Aligned(yTruth, yPred));
  }

  /** Column j of both rows of a prediction speaks of category j: the predicted
      row holds the probability of category j and the truth row holds 1 exactly
      in the column of the matched label, which decoding recovers. */
  lemma StepColumnsAligned(p: nat, row: seq<real>, truthLabels: seq<string>,
                           prob: map<string, real>, cats: seq<string>)
    requires |row| == |truthLabels| && Distinct(cats)
    requires Step(p, row, truthLabels, prob, cats).Ok?
    ensures var (truth, pred) := Step(p, row, truthLabels, prob, cats).value;
      |truth| == |cats| && |pred| == |cats|
      && (forall j :: 0 <= j < |cats| ==> pred[j] == prob[cats[j]])
      && (forall j :: 0 <= j < |cats| ==> (truth[j] == 1.0 <==> cats[j] == MatchedLabel(row, truthLabels)))
      && DecodeOneHot(cats, truth) == Some(MatchedLabel(row, truthLabels))
  {
    OneHotRoundTrip(cats, MatchedLabel(row, truthLabels));
  }

  /** With the categories fitted on the truth labels, a step fails only for a
      missing probability, or for a prediction without overlap when no truth
      region is labelled `background`. */
  lemma StepSucceedsIff(p: nat, row: seq<real>, truthLabels: seq<string>,
                        prob: map<string, real>, cats: seq<string>)
    requires |row| == |truthLabels| && FitCategories(truthLabels) == Some(cats)
    ensures Step(p, row, truthLabels, prob, cats).Ok? <==>
      (forall c :: c in truthLabels ==> c in prob)
      && (RowSum(row) <= 0.0 ==> Background in truthLabels)
  {
    if RowSum(row) > 0.0 {
      var k := MatchOf(row).index;
      assert MatchedLabel(row, truthLabels) == truthLabels[k];
      assert truthLabels[k] in truthLabels;
    }
  }

  /** Matching does not consume truth regions: predictions whose rows have the
      same first-maximal positive column are matched to the same region. */
  lemma ManyToOne(rowA: seq<real>, rowB: seq<real>, k: nat)
    requires NonNegative(rowA) && NonNegative(rowB)
    requires IsFirstMax(rowA, k) && IsFirstMax(rowB, k)
    requires rowA[k] > 0.0 && rowB[k] > 0.0
    ensures MatchOf(rowA) == Region(k) && MatchOf(rowB) == Region(k)
  {
    FirstMaxAboveZeroMatches(rowA, k);
    FirstMaxAboveZeroMatches(rowB, k);
  }

  lemma FirstMaxAboveZeroMatches(row: seq<real>, k: nat)
    requires NonNegative(row) && IsFirstMax(row, k) && row[k] > 0.0
    ensures MatchOf(row) == Region(k)
  {
    EntryAtMostSum(row, k);
    FirstMaxUnique(row, MatchOf(row).index, k);
  }

  /** Two predictions and one truth region: the prediction covering the region
      (IoU 1) is matched to its label, the one with no overlap to background. */
  lemma FullAndNoOverlap(truthName: string)
    ensures MatchedLabel([1.0], [truthName]) == truthName
    ensures MatchedLabel([0.0], [truthName]) == Background
  {
    assert RowSum([1.0]) == 1.0 by {
      assert [1.0][..0] == [];
    }
    assert RowSum([0.0]) == 0.0 by {
      assert [0.0][..0] == [];
    }
  }
}
