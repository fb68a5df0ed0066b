/** Per-class evaluation inputs (examples/run_pipeline_evaluation.py, lines
    47-66, repeated for precision and recall at lines 92-100). The aligned rows
    are stacked into two matrices; for each of the six class positions
    0..5 the truth column and the score column are handed to the curve
    functions, and the results, first keyed by position, are then re-keyed by
    the category name at that position. The curve functions themselves are not
    modelled: each class keeps the pair of columns its curves are computed from. */
module PerClass {
  import opened Wrappers
  import opened Collections
  import opened Encoder
  import opened Matching

  /** The number of class columns the script's loops visit (`range(6)`). */
  const ClassCount: nat := 6

  /** A key of the per-class dictionaries: first a column position, then the
      category name that replaces it. */
  datatype Key = Position(index: nat) | Category(name: string)

  /** What the curves of one class are computed from. */
  datatype ClassColumns = ClassColumns(truth: seq<real>, score: seq<real>)

  /** Why the per-class step stops: stacking zero rows fails; a position past
      the last column is out of range; re-keying a position that the first loop
      never filled is a missing key. */
  datatype CurveError = EmptyStack | ColumnOutOfRange(column: nat) | MissingPosition(position: nat)

  /** Column j of a stacked matrix. */
  function Column(m: seq<seq<real>>, j: nat): (c: seq<real>)
    requires forall i :: 0 <= i < |m| ==> j < |m[i]|
    ensures |c| == |m| && forall i :: 0 <= i < |m| ==> c[i] == m[i][j]
  {
    seq(|m|, i requires 0 <= i < |m| => m[i][j])
  }

  /** The columns of class position j of both matrices. */
  function ColumnsAt(yTruth: seq<seq<real>>, yPred: seq<seq<real>>, j: nat): ClassColumns
    requires forall i :: 0 <= i < |yTruth| ==> j < |yTruth[i]|
    requires forall i :: 0 <= i < |yPred| ==> j < |yPred[i]|
  {
    ClassColumns(Column(yTruth, j), Column(yPred, j))
  }

  /** What the curves of class j are computed from, for the rows the matching
      loop produces: the truth column marks exactly the predictions matched to
      category j, and the score column holds each prediction's probability of
      category j. */
  lemma ClassColumnsMeaning(iou: seq<seq<real>>, truthLabels: seq<string>, probs: seq<map<string, real>>,
                            cats: seq<string>, a: Aligned, j: nat)
    requires Shaped(iou, truthLabels, probs) && Distinct(cats) && j < |cats|
    requires |a.yTruth| == |probs| && |a.yPred| == |probs|
    requires forall p :: 0 <= p < |probs| ==> |a.yTruth[p]| == |cats| && |a.yPred[p]| == |cats|
    requires forall p :: 0 <= p < |probs| ==>
      Step(p, iou[p], truthLabels, probs[p], cats) == Ok((a.yTruth[p], a.yPred[p]))
    ensures forall p :: 0 <= p < |probs| ==>
      (ColumnsAt(a.yTruth, a.yPred, j).truth[p] == 1.0 <==> cats[j] == MatchedLabel(iou[p], truthLabels))
    ensures forall p :: 0 <= p < |probs| ==> cats[j] in probs[p] && ColumnsAt(a.yTruth, a.yPred, j).score[p] == probs[p][cats[j]]
  {
    forall p | 0 <= p < |probs|
      ensures ColumnsAt(a.yTruth, a.yPred, j).truth[p] == 1.0 <==> cats[j] == MatchedLabel(iou[p], truthLabels)
      ensures cats[j] in probs[p] && ColumnsAt(a.yTruth, a.yPred, j).score[p] == probs[p][cats[j]]
    {
      StepColumnsAligned(p, iou[p], truthLabels, probs[p], cats);
    }
  }

  /** The keys of the dictionaries after the first j categories have taken the
      place of their positions. */
  ghost predicate KeysAfter(d: map<Key, ClassColumns>, cats: seq<string>, j: nat)
    requires j <= |cats|
  {
    forall key :: key in d <==>
      (key.Position? && j <= key.index < ClassCount) || (key.Category? && key.name in cats[..j])
  }

  lemma KeysStep(d: map<Key, ClassColumns>, cats: seq<string>, j: nat, v: ClassColumns)
    requires j < |cats| && j < ClassCount && KeysAfter(d, cats, j)
    ensures KeysAfter((d - {Position(j)})[Category(cats[j]) := v], cats, j + 1)
  {
    assert cats[..j + 1] == cats[..j] + [cats[j]];
  }

  lemma KeysDone(d: map<Key, ClassColumns>, cats: seq<string>)
    requires |cats| == ClassCount && KeysAfter(d, cats, |cats|)
    ensures forall key :: key in d <==> key.Category? && key.name in cats
  {
    assert cats[..|cats|] == cats;
  }

  /** Lines 54-59: one entry per class position 0..5, keyed by the position;
      the first position past the last column is out of range. */
  method ColumnsByPosition(yTruth: seq<seq<real>>, yPred: seq<seq<real>>, cats: seq<string>)
    returns (res: Result<map<Key, ClassColumns>, CurveError>)
    requires |yTruth| == |yPred|
    requires forall i :: 0 <= i < |yTruth| ==> |yTruth[i]| == |cats| && |yPred[i]| == |cats|
    ensures res.Ok? <==> |cats| >= ClassCount
    ensures res.Err? ==> res.error == ColumnOutOfRange(|cats|)
    ensures res.Ok? ==>
      (forall key :: key in res.value <==> key.Position? && key.index < ClassCount)
      && forall k :: 0 <= k < ClassCount ==> res.value[Position(k)] == ColumnsAt(yTruth, yPred, k)
  {
    var curves: map<Key, ClassColumns> := map[];
    for i := 0 to ClassCount
      invariant i <= |cats|
      invariant forall key :: key in curves <==> key.Position? && key.index < i
      invariant forall k :: 0 <= k < i ==> curves[Position(k)] == ColumnsAt(yTruth, yPred, k)
    {
      if i >= |cats| {
        return Err(ColumnOutOfRange(i));
      }
      curves := curves[Position(i) := ColumnsAt(yTruth, yPred, i)];
    }
    res := Ok(curves);
  }

  /** The values after the first j categories have taken the place of their
      positions: moved entries keep their value, the rest are untouched. */
  ghost predicate ValuesAfter(d: map<Key, ClassColumns>, curves: map<Key, ClassColumns>, cats: seq<string>, j: nat)
    requires j <= |cats| && j <= ClassCount && KeysAfter(d, cats, j)
    requires forall k :: 0 <= k < ClassCount ==> Position(k) in curves
  {
    (forall k :: j <= k < ClassCount ==> d[Position(k)] == curves[Position(k)])
    && (forall k :: 0 <= k < j ==> d[Category(cats[k])] == curves[Position(k)])
  }

  lemma ValuesStep(d: map<Key, ClassColumns>, curves: map<Key, ClassColumns>, cats: seq<string>, j: nat)
    requires Distinct(cats) && j < |cats| && j < ClassCount && KeysAfter(d, cats, j)
    requires forall k :: 0 <= k < ClassCount ==> Position(k) in curves
    requires ValuesAfter(d, curves, cats, j)
    ensures KeysAfter((d - {Position(j)})[Category(cats[j]) := d[Position(j)]], cats, j + 1)
    ensures ValuesAfter((d - {Position(j)})[Category(cats[j]) := d[Position(j)]], curves, cats, j + 1)
  {
    KeysStep(d, cats, j, d[Position(j)]);
    assert forall k :: 0 <= k < j ==> cats[k] != cats[j];
  }

  /** Lines 63-66: the entry at position i moves to the name of category i; the
      first category without a filled position is a missing key. */
  method RekeyByCategory(curves: map<Key, ClassColumns>, cats: seq<string>)
    returns (res: Result<map<Key, ClassColumns>, CurveError>)
    requires Distinct(cats) && |cats| >= ClassCount
    requires forall key :: key in curves <==> key.Position? && key.index < ClassCount
    ensures res.Ok? <==> |cats| == ClassCount
    ensures res.Err? ==> res.error == MissingPosition(ClassCount)
    ensures res.Ok? ==>
      (forall key :: key in res.value <==> key.Category? && key.name in cats)
      && forall j :: 0 <= j < |cats| ==> res.value[Category(cats[j])] == curves[Position(j)]
  {
    var d := curves;
    assert cats[..0] == [];
    for j := 0 to |cats|
      invariant j <= ClassCount
      invariant KeysAfter(d, cats, j)
      invariant ValuesAfter(d, curves, cats, j)
    {
      if Position(j) !in d {
        return Err(MissingPosition(j));
      }
      ValuesStep(d, curves, cats, j);
      var v := d[Position(j)];
      d := d - {Position(j)};
      d := d[Category(cats[j]) := v];
    }
    KeysDone(d, cats);
    res := Ok(d);
  }

  /** Lines 47-48 (stacking), 54-59 (one entry per position 0..5) and 63-66
      (re-keying position i by category i). The outcome is a dictionary keyed
      by exactly the categories when there are rows and exactly six categories,
      and an error otherwise. */
  method PerClassColumns(yTruth: seq<seq<real>>, yPred: seq<seq<real>>, cats: seq<string>)
    returns (res: Result<map<Key, ClassColumns>, CurveError>)
    requires |yTruth| == |yPred| && Distinct(cats)
    requires forall i :: 0 <= i < |yTruth| ==> |yTruth[i]| == |cats| && |yPred[i]| == |cats|
    ensures res.Ok? <==> |yTruth| > 0 && |cats| == ClassCount
    ensures |yTruth| == 0 ==> res == Err(EmptyStack)
    ensures |yTruth| > 0 && |cats| < ClassCount ==> res == Err(ColumnOutOfRange(|cats|))
    ensures |yTruth| > 0 && |cats| > ClassCount ==> res == Err(MissingPosition(ClassCount))
    ensures res.Ok? ==>
      (forall key :: key in res.value <==> key.Category? && key.name in cats)
      && forall j :: 0 <= j < |cats| ==> res.value[Category(cats[j])] == ColumnsAt(yTruth, yPred, j)
  {
    if |yTruth| == 0 {
      return Err(EmptyStack);
    }
    res := ColumnsByPosition(yTruth, yPred, cats);
    if res.Ok? {
      res := RekeyByCategory(res.value, cats);
    }
  }
}
