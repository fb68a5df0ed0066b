# LungMap evaluation matching and probe-structure map, in Dafny

This project models two pieces of the LungMap image-analysis repository and
proves properties of them.

1. **Matching predictions to truth regions** (`examples/run_pipeline_evaluation.py`).
   The inputs are an IoU matrix, the truth labels and each prediction's
   class-probability map. For each prediction in order:
   - a prediction whose IoU row sums to more than zero is matched to the first
     truth region of maximal IoU;
   - any other prediction is matched to the `background` class;
   - the matched label is one-hot encoded over the categories fitted on the
     distinct truth labels;
   - the probability map is read out in the same category order.

   The aligned rows are then stacked. For each of the class positions 0..5, the
   truth column and the score column are collected, first keyed by position and
   then re-keyed by the category name.
2. **The probe-to-structure map** (`gui/utils.py`, `get_probe_structure_map`).
   - Each probe label, with `Anti-` removed, is looked up as a protein synonym.
     Probes without a match are skipped.
   - For a matched probe, the cells having the protein as a part are examined,
     and so are the tissues having those cells as a part. Both are expanded by
     one level of subclasses.
   - Every complex structure related to such a cell or tissue adds its
     preferred label, and those of its direct subclasses, to the `has_part` or
     `surrounded_by` set. The set is chosen by the fragment of the relation
     IRI after `#`.

The ontology itself is not modelled. Each of the five SPARQL helpers is a
function field of an `Oracle` value that returns the rows of its query. The
only thing assumed about the oracle is what the structure query's `VALUES`
clause guarantees: every relation is `:has_part` or `:surrounded_by`
(`Ontology.Oracle.Valid`).

Modules:
- `Wrappers`: Option and Result.
- `Collections`: distinctness.
- `Encoder`: string order, fitted categories, one-hot rows, probability columns.
- `Matching`: row sum, argmax, matching, the alignment loop.
- `PerClass`: stacking, the per-class columns, re-keying.
- `Ontology`: oracle, rows, IRI fragments.
- `ProbeMap`: the aggregation.

The encoder is fitted on the truth labels only
(`examples/run_pipeline_evaluation.py:21-22`). So `background` is a category
only when some truth region carries that label. Otherwise, encoding a
prediction without overlap fails: `Matching.AlignError.UnknownLabel`, which
`Matching.StepSucceedsIff` characterises.

The IoU matrix comes from `generate_iou_pred_matrices`, which is imported from
`eval.evaluation` (line 5) and called at lines 25-28. Its body is not part of
this model. The matching itself is the script's loop at lines 32-45. The
function's second result, `pred_mat`, is never used.

## Model

| member | source | states |
|---|---|---|
| Encoder.SortedDistinct | examples/run_pipeline_evaluation.py:21-22 | the fitted categories are strictly ascending in code-point order and have exactly the members of the labels |
| Encoder.SortedUnique | examples/run_pipeline_evaluation.py:21-22 | two ascending lists of distinct strings with the same members are equal, so the categories do not depend on the order in which the label set was listed |
| Encoder.FitCategories | examples/run_pipeline_evaluation.py:21-22 | fitting fails exactly when there are no labels; otherwise the categories are sorted, distinct and are exactly the labels |
| Encoder.OneHot | examples/run_pipeline_evaluation.py:40 | encoding succeeds exactly when the label is a category, and gives one column per category |
| Encoder.DecodeOneHot | examples/run_pipeline_evaluation.py:40 | decoding returns a category whose column holds 1, and nothing only when no column holds 1 |
| Encoder.OneHotRoundTrip | examples/run_pipeline_evaluation.py:40 | the encoding of a category is a 0/1 row with a single 1, standing in the category's own column, and it decodes back to the category |
| Encoder.ColumnsInOrder | examples/run_pipeline_evaluation.py:38 | reading the probability map succeeds exactly when every category is a key, and column j holds the probability of category j |
| Matching.RowSum | examples/run_pipeline_evaluation.py:35 | the `np.sum` of a row of overlaps, which are never negative, is never negative; `Matching.OverlapTest` states when it is positive |
| Matching.OverlapTest | examples/run_pipeline_evaluation.py:35 | for non-negative IoU values, the row sum is positive exactly when some truth region overlaps the prediction |
| Matching.ArgMax | examples/run_pipeline_evaluation.py:36 | the chosen index attains the row maximum, and every earlier index is strictly smaller (ties go to the first index) |
| Matching.FirstMaxUnique | examples/run_pipeline_evaluation.py:36 | the first maximal index of a row is unique |
| Matching.MatchOf | examples/run_pipeline_evaluation.py:35-36 | a prediction is matched to a region exactly when its row sum is positive; that region is the first maximal one and overlaps it |
| Matching.BackgroundIffNoOverlap | examples/run_pipeline_evaluation.py:41-45 | the background fallback fires exactly when every IoU of the row is zero |
| Matching.MatchedLabel | examples/run_pipeline_evaluation.py:35-45 | with a positive row sum, the label is that of a first maximal truth column; otherwise it is `background` |
| Matching.Step | examples/run_pipeline_evaluation.py:35-45 | one prediction's step succeeds exactly when every category is a key of its probability map and its matched label is a category; a missing key is reported first, since the lookup comes before the encoding; on success both rows have one column per category |
| Matching.AlignPredictions | examples/run_pipeline_evaluation.py:32-45 | the loop succeeds exactly when every prediction's step does; then both lists have one row per prediction, and row p is the step of prediction p; on failure, the error is that of the first failing prediction |
| Matching.StepColumnsAligned | examples/run_pipeline_evaluation.py:38-45 | column j of both rows speaks of category j: the predicted row holds the probability of category j, and the truth row holds 1 exactly at the matched label, which decoding recovers |
| Matching.StepSucceedsIff | examples/run_pipeline_evaluation.py:21-22 | with categories fitted on the truth labels, a step succeeds exactly when every truth label is a key of the probability map and, for a prediction without overlap, `background` is a truth label |
| Matching.ManyToOne | examples/run_pipeline_evaluation.py:34-40 | truth regions are not consumed: predictions whose rows share a positive first maximum at k are both matched to region k |
| Matching.FirstMaxAboveZeroMatches | examples/run_pipeline_evaluation.py:35-36 | a non-negative row whose first maximum at k is positive is matched to region k |
| Matching.FullAndNoOverlap | examples/run_pipeline_evaluation.py:35-45 | with one truth region, a prediction of IoU 1 is matched to the region's label and a prediction of IoU 0 is matched to `background` |
| PerClass.Column | examples/run_pipeline_evaluation.py:58 | `y[:, j]` has one entry per stacked row, entry i being column j of row i |
| PerClass.ClassColumnsMeaning | examples/run_pipeline_evaluation.py:58 | for the rows the matching loop produces, the truth column of class j is 1 exactly for the predictions matched to category j, and the score column holds each prediction's probability of category j |
| PerClass.ColumnsByPosition | examples/run_pipeline_evaluation.py:54-59 | the per-position pass succeeds exactly when there are at least six columns, else it fails at the first missing column; the keys are positions 0..5, each holding the truth and score columns there |
| PerClass.RekeyByCategory | examples/run_pipeline_evaluation.py:63-66 | re-keying succeeds exactly when there are six categories, else position 6 is missing; the keys become exactly the categories, and category j holds what position j held |
| PerClass.PerClassColumns | examples/run_pipeline_evaluation.py:47-66 | zero rows cannot be stacked; fewer than six categories is an out-of-range column; more than six is a missing position; otherwise the dictionary is keyed by exactly the categories, category j holding column j of both matrices |
| Ontology.Fragment | gui/utils.py:145 | `split('#')[1]` exists exactly when the IRI has a `#`, and contains no `#` |
| Ontology.FragmentSplit | gui/utils.py:145 | the fragment of `a#b`, where `a` has no `#`, is `b` up to its next `#` |
| Ontology.FragmentOfTerm | gui/utils.py:85 | the fragment of an ontology term `:name` is `name` |
| Ontology.RelationFragment | gui/utils.py:85 | under the oracle's guarantee, the fragment of a structure's relation is `has_part` or `surrounded_by`; it is `has_part` exactly for `:has_part` and `surrounded_by` exactly for `:surrounded_by` |
| ProbeMap.StripAnti | gui/utils.py:116 | removing `Anti-` never lengthens the label; the lemmas below state what it removes |
| ProbeMap.StripAntiKeepsPlainLabel | gui/utils.py:116 | a label without `Anti-` is looked up unchanged |
| ProbeMap.StripAntiDropsPrefix | gui/utils.py:116 | a leading `Anti-` is dropped before the lookup |
| ProbeMap.StripAntiSkipsPlainPrefix | gui/utils.py:116 | an `Anti-` further in is removed too, and the text before it is kept, when no earlier `Anti-` starts there |
| ProbeMap.StripAntiSinglePass | gui/utils.py:116 | the removal is one left-to-right pass: an `Anti-` formed by removing an inner one remains |
| ProbeMap.ProbeUri | gui/utils.py:117-120 | the URI recorded for a probe is that of a protein the stripped lookup found |
| ProbeMap.AntiLabelSameProtein | gui/utils.py:116-120 | a label and its `Anti-` form find the same proteins and hence the same URI, each under its own key |
| ProbeMap.OneLevelMembers | gui/utils.py:129-134 | an IRI is examined exactly when it is a direct class or a direct subclass of one |
| ProbeMap.RoutedMembers | gui/utils.py:143-152 | a label arrives in set `rel` from a list of structure rows exactly when some row whose relation fragment is `rel` brings it |
| ProbeMap.CellShareMembers | gui/utils.py:136-178 | what a cell brings to `rel` is what its own structures bring, and what the structures of its expanded tissues bring |
| ProbeMap.ProteinStructuresMembers | gui/utils.py:147-178 | sets only grow: a probe's set `rel` holds exactly the labels brought to `rel` by some examined cell or tissue |
| ProbeMap.SubStructuresFollowParent | gui/utils.py:145-152 | a structure related to an examined cell or tissue puts its label, and every direct subclass's label, into the set of its relation |
| ProbeMap.EntryFor | gui/utils.py:124-125 | an entry has exactly the keys `has_part` and `surrounded_by` |
| ProbeMap.ExpandOneLevel | gui/utils.py:129-134 | the examined classes are the direct classes followed by their subclasses |
| ProbeMap.AddLabels | gui/utils.py:149-152 | every subclass label is added to set `rel`, and the other sets are unchanged |
| ProbeMap.AddStructure | gui/utils.py:143-152 | one structure row adds its labels to the set its relation names, and nothing to the other |
| ProbeMap.AddStructures | gui/utils.py:140-152 | every structure related to the IRI adds its labels to the set of its relation |
| ProbeMap.AddTissueStructures | gui/utils.py:163-178 | every tissue in turn adds what its structures bring |
| ProbeMap.CollectForCell | gui/utils.py:136-178 | one cell adds what its structures and its tissues' structures bring |
| ProbeMap.CollectForCells | gui/utils.py:136-178 | starting from both sets empty, every examined cell in turn adds its share |
| ProbeMap.CollectForProtein | gui/utils.py:124-178 | a probe's entry starts with both sets empty and ends as the entry of its protein |
| ProbeMap.ProbeUris | gui/utils.py:115-120 | the URI map is keyed by exactly the original labels whose stripped form finds a protein, each holding the first protein found |
| ProbeMap.ProbeStructureMap | gui/utils.py:111-180 | a probe label is a key exactly when its lookup finds a protein; its entry has exactly the two relation sets, each holding what the cells and tissues reached from that protein bring |

## Left out

- Loading the evaluation pickle and the ontology files is I/O, and is not modelled.
- `generate_iou_pred_matrices` is not part of this model. The IoU matrix and the probability maps are inputs.
- Matching.AlignPredictions: requires the matrix to have one row per prediction and one column per truth region, the shape `generate_iou_pred_matrices` produces.
- The ROC, AUC, precision-recall and average-precision functions are foreign floating-point library code. `PerClass` keeps, per class, the pair of columns they are computed from, and not the curves.
- The per-class pass of the precision-recall section repeats the ROC section's shape, including the six-column bound and the re-keying. `PerClass.PerClassColumns` stands for both.
- Plotting is not modelled.
- The diagnostic prints of `get_probe_structure_map` are I/O and are left out. So is the failure of their own `split('#')[1]` on a cell, tissue or structure IRI without `#`.
- The SPARQL text and `ontology.query` are foreign code. Each helper is an oracle function returning its rows.
- ProbeMap.ProbeStructureMap: does not state the insertion order of the dictionary's keys, only its keys and values.
- ProbeMap.AddStructures: requires the oracle's guarantee, so the `KeyError` for a relation other than `has_part` and `surrounded_by` is not modelled.
- The user interface, image client, image decoding and the calls into the external normalisation package are not part of this model.
- The script that fetches probes over the network and dumps the map to JSON is not part of this model.
