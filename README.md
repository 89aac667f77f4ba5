# ID3 decision-tree induction, modelled in Dafny

This project models the induction engine of a small ID3 implementation
(`src/lib.rs`). It covers:

- the loader that turns CSV records into a training table (`InputData::from_file`);
- the label histogram and the majority label (`count_results`, `most_common`);
- entropy and information gain (`entropy`, `entropy_gain`);
- the split of rows by an attribute's values (`partition_by_attribute`);
- the choice of the attribute to split on (`best_attribute`);
- the recursive growth of the decision tree (`ida3_internal`, `ida3`).

Four modules, one per file:

- `Collections` (`collections.dfy`): an option type, and duplicate-free lists
  in first-seen order. These are what the source's `Vec` grows into when a
  value is pushed only if `contains` says it is new.
- `Dataset` (`dataset.dfy`): `Row` and `Attribute` as values. `InputData` is a
  class whose fields the loader fills in place, one record and one field at a
  time. Each step is proved against ghost functions that name the columns
  scanned so far.
- `Statistics` (`statistics.dfy`): the histogram, the majority label, the
  entropy, the partition and the gain. Each is a method with the source's
  loops. The histogram, entropy, partition and gain are proved equal to a
  specification function. The majority label is proved to satisfy a
  predicate (`IsMostCommon`), because hash-map order decides among equal
  counts. Lemmas relate these specifications: the counts add up, pure rows have entropy 0, entropy is
  never negative, and the buckets hold every row exactly once.
- `Induction` (`induction.dfy`): `best_attribute` as a running maximum. The
  `DecisionTree` class is filled through `&mut`, as in the source. Finished
  subtrees are moved into the parent's map as `Tree` values. The lemmas say
  what every grown tree satisfies: the shape of its nodes, the leaves of pure
  and empty subsets, paths without repeats, and bounded depth.

Conventions of the model:

- `f64` becomes exact `real`.
- The natural logarithm becomes a parameter `ln: real -> real`. Lemmas that
  need a property of it say so in their `requires`: `ln(1.0) == 0.0`, or
  `ln(x) <= 0.0` on (0, 1].
- A hash map's iteration order is something nothing is promised about. A loop
  over a map takes its keys one at a time with `:|`. Sums over a map's keys
  (`Statistics.Sum`) pick keys with an arbitrary choice, and are proved not to
  depend on that order (`Statistics.SumRemove`).
- Where a tie between hash-map keys decides the result, the model proves only
  that the result is *some* maximum.

The model follows the code wherever it differs from what ID3 is usually
described as doing:

- On equal gains, `best_attribute` keeps the *later* attribute, because it
  replaces the maximum on `>=`.
- A decision node gets a child for *every* variant of its attribute, including
  variants that no row in the subset carries. Such a child is a leaf holding
  `""`.
- No label value, such as `"?"`, is treated specially.
- An out-of-range result column is not rejected: every field then becomes an
  attribute, and the result name stays `""`.

## Model

| member | source | states |
|---|---|---|
| Dataset.InputData.constructor | src/lib.rs:15-23 | a fresh table: no attribute names or variants, empty result name, no result variants, no rows |
| Dataset.InputData.ScanHeaderField | src/lib.rs:33-40 | a header field is the result name when it is at the result position; any other field is appended to the attribute names and gets an entry with no variants. The schema then describes one more header field |
| Dataset.InputData.ScanHeader | src/lib.rs:32-40 | after record 0, the attribute names are the header minus the result column, in order, and the result name is the header's result field |
| Dataset.InputData.ScanLaterField | src/lib.rs:42-63 | a later field panics exactly when it is not the result field and its shifted index has no attribute name. Otherwise the schema describes one more field, and the row gets the field as its label or as its attribute's value |
| Dataset.InputData.ScanResultField | src/lib.rs:43-47 | the result field joins the result variants exactly when it is new, so they stay the labels seen, deduplicated in first-seen order |
| Dataset.InputData.ScanAttributeField | src/lib.rs:48-62 | an attribute field joins only its own attribute's variants, exactly when it is new. Every other attribute's variants are unchanged |
| Dataset.InputData.ScanRecordDiscardingRow | src/lib.rs:31-65 | the field loop of a later record as written: it panics exactly when some field overflows the attribute list. Otherwise the schema describes one more record, and the row built is dropped |
| Dataset.InputData.ScanRecordKeepingRow | src/lib.rs:31-65 | the corrected field loop: as above, and in addition `rows` grows by exactly the row the record describes |
| Dataset.InputData.ScanRecordFillingRow | src/lib.rs:32-64 | the fields of a later record are scanned into one row, made before the first field. It panics exactly when some field overflows. Otherwise the schema describes one more record, and the row holds the record's label and attribute values |
| Dataset.InputData.ScanRecordAt | src/lib.rs:29-66 | one turn of the record loop as written: record 0 sets the schema's names; a later record adds its values, or it panics exactly when it overflows |
| Dataset.InputData.ScanRecordKeepingRowAt | src/lib.rs:29-66 | one turn of the corrected record loop: as above, with one row appended per later record |
| Dataset.InputData.LoadedTableConforms | src/lib.rs:25-68 | when every record has the header's width and the result column exists, every loaded row has, for every attribute, a value listed among that attribute's variants, and a label listed among the result variants. These are the `unwrap`s at src/lib.rs:198-203 that cannot fail |
| Dataset.RectangularNeverPanics | src/lib.rs:49-55 | records that all have the header's width never reach an attribute index without a name |
| Dataset.HeaderNamesAt | src/lib.rs:49-55 | the index shift is right: there is one attribute name per non-result header field, and field `i` names the attribute at `i`, or at `i - 1` past the result column |
| Dataset.FieldOfAttribute | src/lib.rs:49-55 | every attribute position is reached by exactly the field the shift predicts |
| Dataset.FromRecords | src/lib.rs:25-68 | the loader as written: it panics exactly when some later record overflows. Otherwise the names, result name and deduplicated variants describe the records, and `rows` is empty |
| Dataset.FromRecordsKeepingRows | src/lib.rs:25-68 | the corrected loader: the same schema, and `rows` holds one row per later record, in order |
| Collections.DedupProperties | src/lib.rs:45-47 | a list grown by "push if not contained" has no repeats, and holds exactly the values seen |
| Statistics.LabelsCounted | src/lib.rs:170-177 | a label occurs in the rows exactly when its count is positive, exactly when some row carries it |
| Statistics.CountResults | src/lib.rs:170-177 | the histogram's keys are exactly the labels present, and each value is that label's number of rows |
| Statistics.CountsTotal | src/lib.rs:170-177 | summed over any key set holding every label, the counts give the number of rows |
| Statistics.HistogramTotal | src/lib.rs:170-177 | the histogram's counts sum to the number of rows |
| Statistics.PureCounts | src/lib.rs:170-177 | rows of a single label have that label as their only key, with a count equal to the number of rows |
| Statistics.MostCommon | src/lib.rs:157-168 | the result is `""` for no rows. Otherwise it is a label present whose count no other label exceeds |
| Statistics.MostCommonOfPure | src/lib.rs:157-168 | the majority of rows that all share one label is that label |
| Statistics.ComputeEntropy | src/lib.rs:179-190 | the loop's sum equals the entropy: each label present contributes `-p ln p`, with `p` its share, in any order |
| Statistics.EntropyVanishes | src/lib.rs:179-190 | with ln(1) = 0, rows of one label, and no rows at all, have entropy exactly 0 |
| Statistics.EntropyNonNegative | src/lib.rs:179-190 | with a logarithm that is not positive on (0, 1], entropy is never negative |
| Statistics.ContributionNonNegative | src/lib.rs:184-187 | one label's term `-p ln p` is not negative when `p > 0` and `ln p <= 0` |
| Statistics.SumRemove | src/lib.rs:183-188 | a sum over a hash map's keys does not depend on the order the keys are visited: any key can be taken first |
| Statistics.PartitionByAttribute | src/lib.rs:192-206 | there is exactly one bucket per variant of the attribute, empty buckets included. Each bucket holds exactly the rows with that value, in input order |
| Statistics.BucketMembership | src/lib.rs:201-204 | a row is in a bucket exactly when it is one of the rows and carries that bucket's value |
| Statistics.PartitionSizes | src/lib.rs:201-204 | when every row's value is among the keys, the bucket sizes sum to the number of rows, so no row is lost or duplicated |
| Statistics.BucketConforms | src/lib.rs:138-143 | the bucket passed to a recursive call still has a listed value for every attribute |
| Statistics.EntropyGain | src/lib.rs:208-218 | the gain is the entropy minus each bucket's entropy weighted by its share of the rows. It is not a number (`None`) exactly when there are no rows but there are buckets (`0.0 / 0.0`) |
| Statistics.SumWeightedEntropies | src/lib.rs:212-216 | the loop's total is the weighted sum over all buckets in any order. It becomes NaN exactly when the row count is 0 and some bucket exists |
| Induction.WinnerUnique | src/lib.rs:227-235 | among the names scanned, at most one is the winner of the running maximum |
| Induction.WinnerStep | src/lib.rs:228-233 | scanning one more name: it takes over exactly when it is eligible (unused, with a numeric gain at least 0) and its gain is at least the current maximum. Otherwise the winner stays |
| Induction.FirstWinner | src/lib.rs:225-233 | the first eligible name wins over the names before it, since the maximum starts at 0 |
| Induction.WinnerExists | src/lib.rs:225-235 | as soon as one scanned name is eligible, there is a winner |
| Induction.ChoiceSound | src/lib.rs:220-241 | a chosen attribute is a non-empty name of the table, not yet used, in the attribute map, with a numeric gain of at least 0 and at least every other unused attribute's numeric gain |
| Induction.ChoiceNone | src/lib.rs:236-240 | nothing is chosen exactly when no attribute is eligible, or the winner is the empty name |
| Induction.BestAttribute | src/lib.rs:220-241 | the running maximum over the unused attributes returns exactly that choice: the last of the largest non-negative gains, or `None` |
| Induction.DecisionTree.constructor | src/lib.rs:117-125 | a fresh node: no attribute, no leaf value, no children, an empty path |
| Induction.AdoptChild | src/lib.rs:144 | moving one more grown child into a decision node keeps every child grown on its bucket |
| Induction.MeasureDrops | src/lib.rs:140-142 | extending the path by an unused attribute name leaves one unused name fewer, which is why the recursion ends |
| Induction.Ida3Internal | src/lib.rs:128-149 | the node keeps its path and becomes the tree grown on the rows. If the entropy is near zero, or nothing is chosen, it is a majority leaf. Otherwise it is a decision node on the chosen attribute whose every child extends the path by it and is grown on its bucket |
| Induction.GrowChildren | src/lib.rs:136-145 | after the loop over the partition, the node has one grown child per variant of its attribute, and nothing else of it has changed |
| Induction.GrowChild | src/lib.rs:139-144 | a child grown on the bucket of one variant, with the path extended by the attribute, is added under that variant; the other children stay |
| Induction.Ida3 | src/lib.rs:151-155 | the tree grown from a fresh root with an empty path on all the rows of the table |
| Induction.InduceAsWritten | src/lib.rs:151-155 | the loader as written followed by `ida3`: whenever loading does not panic, the tree is a single leaf holding `""`, with no attribute and no children |
| Induction.PureSubsetIsLeaf | src/lib.rs:129-133 | with ln(1) = 0, non-empty rows that all share one label give a leaf holding that label, with no attribute and no children |
| Induction.EmptySubsetIsLeaf | src/lib.rs:129-133 | no rows give a leaf holding `""` |
| Induction.NodeShape | src/lib.rs:128-149 | every node is either a leaf with a value and no children, or a decision node with an attribute of the map whose children are keyed by exactly that attribute's variants |
| Induction.SplitIsFresh | src/lib.rs:135-137 | the attribute a node splits on is one of the table's names, and not already on the node's path |
| Induction.PathsDistinct | src/lib.rs:140-142 | starting from a path without repeats, no attribute appears twice on the path to any node |
| Induction.DepthBounded | src/lib.rs:140-143 | a grown tree is no deeper than the number of attribute names still unused at its root. For `ida3` that is the number of distinct attribute names |

## Left out

- Opening the file and parsing CSV are outside the model. The loader starts from the records the `csv` reader yields, each a sequence of fields. So the model does not cover `File::open` errors, a malformed record's `record?` error, or the reader's own header handling: with `has_headers` on by default, the reader keeps its first line for itself.
- The command-line program, `main.rs`, is not part of this model.
- `f64` arithmetic is modelled as exact real arithmetic, and `ln` as a parameter. Rounding, and sums whose value depends on the order they are added in, are not captured. The `EPS` test is kept as written.
- Statistics.EntropyGain: a NaN gain is modelled as `None` rather than a float. Every `>=` with NaN is false, and `None` is treated the same way.
- Statistics.CountResults: counts are unbounded naturals, not `i32`. Wrap-around past 2^31 - 1 rows is not modelled.
- Hash-map iteration order is not modelled. Loops take map keys in an arbitrary order, and results are proved for every order. Which of several equal maxima `most_common` returns is therefore left open.
- The `Clone` of a row is not modelled: a row is an immutable value, so a clone is the row itself.
- Induction.DecisionTree: a finished child is a `Tree` value in its parent's map rather than a boxed `DecisionTree` object. That is what moving a `Box` into the map amounts to, because nothing else keeps a reference to it.
- Dataset.InputData.ScanRecordFillingRow, Statistics.SumWeightedEntropies, Induction.GrowChildren and Induction.GrowChild are separate methods for the field loop of the corrected loader, the loop of `entropy_gain`, the loop of `ida3_internal`, and that loop's body. The source writes them inline.

## Findings

| source | as written | input that shows it | evidently intended | confidence | as-written member | corrected member |
|---|---|---|---|---|---|---|
| src/lib.rs:31,42 | `row` is declared per record but re-created for every field and never pushed, so `rows` stays empty. `ida3` then always returns a single leaf holding `""` (Induction.InduceAsWritten) | records `weather,play` / `sunny,yes` / `rainy,no` with result position 1: the loaded table has no rows | one row per later record, filled field by field and pushed onto `rows` | not executed | Dataset.FromRecords | Dataset.FromRecordsKeepingRows |
