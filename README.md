# goiforest core in Dafny

This project models the model-building core of goiforest, an isolation-forest
anomaly detector written in Go, and proves properties of that model. It has
three parts.

- **The columnar dataset** (`dataset.go`). A `DataSet` is a list of attributes,
  one value column per attribute, and a size. It supports adding and reading
  rows, copying, filtering, limiting, sampling, shuffling, merging, excluding
  attributes, and the split step the trees are built from.
- **The isolation tree and forest** (`itree.go`). These are `buildTree`'s
  depth-bounded recursion with its exclusion map, `traverse`'s walk to a leaf,
  `BuildForest`'s sampled trees and `Score`'s attribute check and averaging.
- **The legacy dataset** (`data.go`, package `goitree`). It is an earlier,
  categorical-only store with `add`, `copyNoValues`, `row`, `sample`, `Split`
  and `splitOn`.

The files:

- `wrappers.dfy`: `Option` and `Result`.
- `seqs.dfy`: generic sequence facts (`Distinct`, `Elements`, `Dedup`).
- `random.dfy`: the random oracle.
  - `Random.Source` answers every `rand.Intn` and `rand.Float64` call.
  - A call is identified by a `Site`, which is its tree plus its path in the tree.
  - `Valid` says the answers are in range.
- `dataset_spec.dfy` (module `DataSetSpec`): the abstract value of a dataset and
  every property of it.
  - The abstract value is `Table`, an attribute list plus a sequence of rows.
  - Each operation is a function on `Table`. Errors and panics are `Err` values.
  - The properties are lemmas about those functions.
- `dataset.dfy` (module `DataSets`): `class DataSet`.
  - Its fields are `attributes`, `values` (a map to columns) and `size`, as in the source.
  - Every method has the source's loops and is proved against its `DataSetSpec`
    function through `Model()`.
- `itree_spec.dfy` (module `TreeSpec`): trees and forests as specification values.
  - `Node` is a datatype.
  - `BuildTreeSpec`, `PathLength`, `BuildForestSpec` and the score point/mean functions.
  - The lemmas about all of these.
- `itree.dfy` (module `IsolationTrees`): the imperative side of `itree.go`.
  - The `buildTree` recursion over `DataSet` objects.
  - The `addExclusion` map copy.
  - The `traverse` loop.
  - The `BuildForest` and `Score` loops.
- `legacy_data.dfy` (module `LegacyData`): `data.go`, with its own
  `class DataSet` (fields `features`, `values` and `size`) and its own
  specification functions.

Modelling choices:

- **Numbers.** Numerical values are `real` and are only compared and
  interpolated.
- **Randomness.** Random draws come from an injected oracle that meets the
  range preconditions, with no distribution.
- **Sample's rejection loop.** Both the current and the legacy `Sample` read
  their `rand.Intn(size)` answers from an explicit draw stream `draws`.
- **Floating-point helpers.** `harmonicNumber` and `strconv.ParseFloat` are
  function parameters (`harmonic`, `parseFloat`).

## Model

| member | source | states |
|---|---|---|
| DataSets.DataSet.constructor | dataset.go:57-62 | NewDataSet: no attributes, no columns, size 0 |
| DataSets.DataSet.ModelWellFormed | dataset.go:51-55 | a valid dataset's rows each carry exactly the declared attributes, each declared once |
| DataSetSpec.AppendRow | dataset.go:438-452 | adding succeeds iff the row's keys are exactly the declared attributes; a missing declared attribute panics (MissingAttribute), else an extra entry panics (UnknownAttribute); on success the row is appended and nothing else changes |
| DataSets.DataSet.AddRow | dataset.go:438-452 | the new state is AppendRow of the old model: error iff AppendRow fails, with the same error; otherwise one entry appended to every column and size + 1 |
| DataSetSpec.AppendRowWellFormed | dataset.go:438-452 | a well-formed table stays well-formed after a successful append |
| DataSetSpec.RowsOfAppend | dataset.go:448-451 | appending one entry to every column appends exactly that row and leaves earlier rows unchanged |
| DataSets.DataSet.GetRow | dataset.go:414-420 | the row at idx maps every declared attribute to entry idx of its column |
| DataSets.DataSet.GetRowWithNames | dataset.go:422-428 | the keys are the declared names; with unique names, each name maps to its attribute's value at idx |
| DataSetSpec.ByNameAt | dataset.go:422-428 | with unique names the by-name row holds each attribute's own value |
| DataSets.DataSet.CopyNoValues | dataset.go:338-349 | a fresh dataset with the same attribute sequence, an empty column per attribute, size 0 |
| DataSets.DataSet.Copy | dataset.go:351-359 | a fresh dataset with the same attributes and the same rows in order (so the same size and equal columns) |
| DataSets.DataSet.Filter | dataset.go:208-217 | a fresh copy of the schema; every kept row is a source row; with unique names, exactly the rows whose by-name view satisfies f, in original order |
| DataSetSpec.FilterByName | dataset.go:208-217 | every kept row is a source row satisfying the predicate and every such row is kept; no row is kept more often than it occurs |
| DataSetSpec.FilterByNameConcat | dataset.go:211-215 | filtering a concatenation is filtering each part and concatenating, so the kept rows stay in source order |
| DataSetSpec.FilterByNameOne | dataset.go:211-215 | a single row is kept iff its by-name view satisfies the predicate |
| DataSets.DataSet.Limit | dataset.go:219-228 | a fresh copy holding the first Clamp(n, size) rows: min(n, size), none for negative n |
| DataSetSpec.Clamp | dataset.go:221-224 | the row count never exceeds the size and is n itself when 0 <= n <= size |
| DataSets.DrawUnseen | dataset.go:264-270 | the rejection loop returns the first draw not yet copied; `copied` grows by exactly that fresh index, and the accepted indices so far are the distinct draws in order |
| DataSets.DataSet.AddDrawnRow | dataset.go:264-272 | one pass of the loop: the next index not yet copied is drawn, and the copy gains exactly its row, so the copy holds the rows of the distinct draws so far |
| DataSets.DataSet.Sample | dataset.go:255-276 | a fresh dataset with the same attributes and the rows at the first min(n, size) distinct indices the rejection loop accepts |
| DataSetSpec.SampleRows | dataset.go:255-276 | a sample holds exactly Clamp(n, size) rows |
| DataSetSpec.SampleWithoutReplacement | dataset.go:255-276 | a sample is a sub-multiset of the rows: no source row is used twice |
| DataSetSpec.PickDistinctSubMultiset | dataset.go:263-273 | rows picked at pairwise distinct indices form a sub-multiset of the rows |
| DataSets.DataSet.SwapRows | dataset.go:232-236 | the rand.Shuffle callback swaps rows i and j and keeps the schema and size |
| DataSetSpec.RowsOfSwap | dataset.go:233-235 | swapping entries i and j of every column swaps the two rows |
| DataSets.DataSet.ShuffleInPlace | dataset.go:232-237 | the Fisher-Yates pass changes the rows in place into their FisherYates permutation, keeping the schema and size |
| DataSets.DataSet.Shuffle | dataset.go:230-239 | a fresh copy whose rows are the Fisher-Yates permutation of the rows; the receiver is unchanged |
| DataSetSpec.FisherYates | dataset.go:230-236 | the Fisher-Yates pass keeps the number of rows |
| DataSetSpec.FisherYatesKeepsAbove | dataset.go:232-235 | the pass from position i down to 1 leaves every row above position i where it was |
| DataSetSpec.FisherYatesPermutes | dataset.go:230-239 | Shuffle's result has the same rows, each as often as before |
| DataSets.DataSet.AttributeSet | dataset.go:397-403 | returns the attributeSet map of the declared attributes |
| DataSetSpec.AttributeSet | dataset.go:397-403 | the keys are exactly the declared names and each value carries its key as name |
| DataSetSpec.AttributeSetUnique | dataset.go:397-403 | with unique names every attribute is the value under its own name |
| DataSets.DataSet.ContainsAttributes | dataset.go:361-369 | error iff some name is unknown, and the error names an unknown name of the list |
| DataSetSpec.FirstUnknown | dataset.go:363-367 | None iff every name is known; otherwise a name of the list that is unknown |
| DataSets.DataSet.AttributesEqual | dataset.go:371-395 | the names declared by exactly one of the two datasets (the symmetric difference) |
| DataSets.DataSet.AddRowsOf | dataset.go:247-249 | Merge's inner loop is AppendRows: the other dataset's rows added in order, stopping at the first panic |
| DataSetSpec.AppendRows | dataset.go:247-249 | on success the schema is kept and the size grows by the number of rows added; a failure is one of AddRow's two panics |
| DataSetSpec.AppendRowsOk | dataset.go:247-249 | rows that all carry exactly the schema are appended without error, concatenated |
| DataSetSpec.AppendRowsPanics | dataset.go:247-249 | non-empty rows that share one key set other than the schema make AddRow panic |
| DataSetSpec.AppendRowsErrStays | dataset.go:247-249 | after a panic, later rows make no difference |
| DataSetSpec.MergeArgument | dataset.go:243-250 | success means argument i declares the receiver's names and all its rows are appended to the copy; a name mismatch is reported for index i, with a non-empty set of names |
| DataSetSpec.MergeSpec | dataset.go:241-253 | a merge keeps the receiver's attributes; it fails only with a name mismatch or an AddRow panic, and a mismatch names one of the arguments |
| DataSets.DataSet.MergeArgument | dataset.go:243-250 | one argument of Merge: the name check against the receiver, then its rows appended to the copy |
| DataSets.DataSet.Merge | dataset.go:241-253 | returns MergeSpec: the first argument whose names differ fails with that symmetric difference, an AddRow panic is an error, otherwise a fresh copy holds the result |
| DataSetSpec.MergePrefixErr | dataset.go:244-246 | a failure among the first i arguments is the failure of the whole merge |
| DataSetSpec.MergeErrStays | dataset.go:244-246 | once an argument fails, later arguments do not matter |
| DataSetSpec.MergeConcatenates | dataset.go:241-253 | merging tables with exactly the receiver's attributes gives the receiver's rows followed by each argument's rows in argument order, so the size is the sum |
| DataSetSpec.MergeOkNamesEqual | dataset.go:243-246 | a successful merge means every argument declares the receiver's names |
| DataSetSpec.MergeErrorNamesMismatch | dataset.go:371-395 | a name mismatch is reported with exactly the symmetric difference of the first mismatching argument, which is non-empty |
| DataSetSpec.AppendRowsNeverMismatch | dataset.go:438-452 | AddRow's panics are never a name mismatch, so the two error kinds of Merge are told apart |
| DataSetSpec.MergeAssociative | dataset.go:241-253 | merging xs and then ys into the result is merging xs + ys at once |
| DataSetSpec.MergeSameNameOtherTypePanics | dataset.go:241-253 | a same-named attribute of another type passes the name check, and AddRow then panics with MissingAttribute |
| DataSetSpec.ExcludingSpec | dataset.go:300-336 | as written: fails only with CannotExcludeAll or with an unknown name taken from the list; on success the size is unchanged and an attribute is kept iff it is declared and its name is not listed |
| DataSetSpec.ExcludingIntended | dataset.go:300-336 | corrected: the same error kinds and the same kept attributes, and a success keeps at least one attribute |
| DataSetSpec.ExcludingSpecFails | dataset.go:300-307 | as written, Excluding fails iff a name is unknown or as many names are given as there are attributes |
| DataSetSpec.ExcludingCountGuard | dataset.go:305-307 | as written: excluding a, b, b from [a, b] passes the guard and leaves no attribute; a, a is refused although b would remain; the corrected guard decides both the other way |
| DataSetSpec.ExcludingIntendedGuard | dataset.go:305-307 | the corrected guard fails iff every declared attribute's name is excluded, and a success keeps at least one attribute |
| DataSetSpec.ExcludingFails | dataset.go:300-307 | the corrected Excluding fails iff a name is unknown or every attribute is excluded |
| DataSetSpec.ExcludingKeepsValues | dataset.go:309-333 | on success the schema is the original minus the excluded names, in order; the size is unchanged; every remaining value is kept; the result is well-formed |
| DataSetSpec.Without | dataset.go:315-321 | an attribute is kept iff it is declared and its name is not excluded; unique attributes stay unique and none are added |
| DataSets.DataSet.AddEmptyColumn | dataset.go:319-320 | the attribute is appended to the schema with an empty column; the size is unchanged |
| DataSets.DataSet.EmptyWithout | dataset.go:314-321 | the reduced schema with an empty column per kept attribute |
| DataSets.DataSet.RowWithout | dataset.go:324-331 | row i restricted to the attributes not excluded |
| DataSets.DataSet.CopyWithout | dataset.go:323-333 | every row restricted, in order, under the reduced schema |
| DataSets.DataSet.Excluding | dataset.go:300-336 | returns the corrected ExcludingIntended: an unknown name fails with that name, excluding every attribute fails, otherwise a fresh restricted copy |
| DataSetSpec.Check | dataset.go:488-511 | a categorical value passes iff its string equals the threshold, a numerical one iff it is at least numVal; failing means != or <, the inverse that String prints |
| DataSetSpec.MatchedUpwardClosed | dataset.go:488-492 | on a numerical split, a source row whose value is at least a matched row's value is matched too |
| DataSetSpec.MatchedSameCategory | dataset.go:488-490 | on a categorical split, every matched row holds the threshold's string |
| DataSetSpec.MatchedRows | dataset.go:551-565 | every row on the matched side satisfies the condition |
| DataSetSpec.UnmatchedRows | dataset.go:551-565 | no row on the other side satisfies the condition |
| DataSetSpec.SplitRowsPartition | dataset.go:551-565 | the two sides' sizes add up to the size, and together they hold every row exactly as often as before |
| DataSetSpec.SplitRowsMembers | dataset.go:557-561 | a row is on the matched side iff it is a source row that satisfies check (string equality for a categorical attribute, val.Num >= numVal for a numerical one), and on the other side iff it is one that does not |
| DataSetSpec.MatchedRowsConcat | dataset.go:555-562 | splitting a concatenation splits each part, so the source order is kept within each side |
| DataSets.DataSet.SplitOn | dataset.go:551-565 | two fresh, distinct copies of the schema holding MatchedRows and UnmatchedRows of the rows |
| DataSetSpec.SplitOnExample | dataset_test.go:56-123 | the red/red/green example split on Color == red gives sides of 2 and 1 rows |
| DataSetSpec.Splittable | dataset.go:517-522 | an attribute is splittable iff it is declared and not in exclude; there is none iff every attribute is excluded |
| DataSets.ColumnRange | dataset.go:533-542 | the min/max loop gives the least and the greatest number of the column |
| DataSetSpec.Lowest | dataset.go:533-542 | the least value is in the column and none is smaller |
| DataSetSpec.Highest | dataset.go:533-542 | the greatest value is in the column and none is larger |
| DataSetSpec.ThresholdInRange | dataset.go:543 | min + f * (max - min) lies in [min, max] for f in [0, 1) |
| DataSetSpec.ChooseCondition | dataset.go:515-544 | no condition iff every attribute is excluded; otherwise the drawn attribute is declared and not excluded |
| DataSetSpec.ChooseConditionDrawn | dataset.go:528-544 | the categorical threshold is an entry of the drawn attribute's column; the numerical one lies within the column's [min, max] |
| DataSetSpec.SplitSpec | dataset.go:515-549 | fails iff every attribute is excluded, always with NotSplittable; otherwise both sides keep the schema, every matched row satisfies the condition and no other row does |
| DataSets.DataSet.DrawCondition | dataset.go:517-544 | the drawn condition is ChooseCondition of the model, also for an empty dataset whose attributes are all excluded |
| DataSets.DataSet.Split | dataset.go:515-549 | NotSplittable (and no datasets) iff SplitSpec fails, also on an empty dataset whose attributes are all excluded; otherwise its condition and two fresh datasets holding its two sides |
| DataSetSpec.SplitNotSplittableIff | dataset.go:517-526 | Split fails, with NotSplittable, iff every declared attribute is in exclude |
| DataSetSpec.SplitConditionDrawn | dataset.go:528-544 | a declared, non-excluded attribute; a categorical threshold that occurs in its column; a numerical threshold within the column's [min, max] |
| DataSetSpec.SplitMatchedNonEmpty | dataset.go:528-548 | the matched side is never empty, because the row the threshold came from, or the row holding the maximum, satisfies check |
| DataSetSpec.SplitPartitions | dataset.go:546-548 | the two sides partition the rows, keep the schema, and are well-formed when the dataset is |
| TreeSpec.MaxDepthIsCeilLog2 | itree.go:106-116 | MaxDepth = 8 is ceil(log2(SampleSize = 256)): 2^8 >= 256 and no smaller power reaches it |
| TreeSpec.WithExclusion | itree.go:155-162 | the keys are the old ones plus attr, attr maps to true, and every other entry is kept |
| IsolationTrees.AddExclusion | itree.go:155-162 | the map built by the copy loop is WithExclusion of the input (the input is a value, so unchanged) |
| TreeSpec.BuildTreeSpec | itree.go:130-153 | the node's remainingSize is the size of its dataset, and it is a leaf when at most one row is left or the depth bound is reached |
| IsolationTrees.BuildTree | itree.go:130-153 | the node built over the dataset is BuildTreeSpec of its model |
| TreeSpec.LeafIff | itree.go:133-139 | a node is a leaf iff at most one row is left, or depth >= maxDepth, or every attribute is excluded (Split's NotSplittable) |
| TreeSpec.TreeSizes | itree.go:131-148 | each node's remainingSize is the size of its dataset, and the children's sizes add up to it |
| TreeSpec.TreeHeight | itree.go:130-153 | from depth d no node lies below maxDepth: d + height <= maxDepth |
| TreeSpec.ExcludedNeverSplit | itree.go:136-148 | the tree splits only on declared attributes, and never on one in the exclusion map |
| TreeSpec.EmptySideExcludes | itree.go:141-148 | below a split with an empty side, neither subtree splits on that attribute again |
| TreeSpec.Next | itree.go:66-74 | traverse moves to one of the node's two children, which is strictly lower than the node |
| TreeSpec.PathSteps | itree.go:65-76 | traverse passes no inner node iff it starts at a leaf |
| TreeSpec.PathLength | itree.go:61-81 | a leaf of at most one row adds nothing to the steps taken; a tree that is one leaf has avgPathLen of its size |
| TreeSpec.ReachedSizeBounded | itree.go:65-80 | in a tree whose sizes add up, the leaf traverse reaches holds at most as many rows as the root |
| TreeSpec.Reached | itree.go:65-76 | traverse stops at a leaf |
| IsolationTrees.Traverse | itree.go:61-81 | the loop's result is PathLength: the inner nodes passed plus avgPathLen of the leaf's size |
| TreeSpec.PathStepsBounded | itree.go:65-76 | the step count is at most the tree's height |
| TreeSpec.OwnRowReachesNonEmptyLeaf | itree.go:130-153 | a row the tree was built from reaches a leaf of size at least one |
| TreeSpec.AvgPathLen | itree.go:168-173 | 0 for size <= 1, and 2 H(n-1) - 2(n-1)/n otherwise, with the harmonic estimate given |
| TreeSpec.ForestTrees | itree.go:118-121 | the first n trees, one per loop turn, in order |
| TreeSpec.ForestTreesAt | itree.go:118-121 | tree k of the forest is the tree grown from sample k |
| IsolationTrees.GrowTree | itree.go:119-120 | tree i is ForestTree i: BuildTreeSpec of the SampleSize sample, from depth 0 to MaxDepth, with no exclusions, drawing at the sites of tree i |
| IsolationTrees.GrowTrees | itree.go:118-121 | the tree loop builds ForestTrees from NumTrees samples of SampleSize, depth bound MaxDepth, no exclusions |
| TreeSpec.BuildForestSpec | itree.go:109-128 | NumTrees trees, the attributes keyed by the declared names, and expectedAverage avgPathLen(SampleSize) |
| IsolationTrees.BuildForest | itree.go:109-128 | the forest is BuildForestSpec of the dataset's model |
| TreeSpec.ForestShape | itree.go:109-128 | exactly NumTrees trees, each rooted at min(SampleSize, size) rows, none higher than MaxDepth, none split on an undeclared attribute; attributes keyed by the declared names |
| TreeSpec.ForestStepsBounded | itree.go:37-41 | every tree of a built forest passes at most MaxDepth inner nodes for any point |
| TreeSpec.ForestAverageBounded | itree.go:35-43 | for a built forest, Score's average path length lies in [lo, MaxDepth + hi] whenever avgPathLen lies in [lo, hi] for every size up to SampleSize |
| TreeSpec.ToValue | dataset.go:38-49 | a categorical entry keeps the string; a numerical one is the parsed number, and an unparsable one is an error |
| TreeSpec.PointOf | itree.go:26-33 | the point has exactly the forest's attributes as keys |
| TreeSpec.UnscorableHasError | itree.go:27-33 | a record that cannot be scored has a missing name or an unparsable number to report |
| IsolationTrees.RecordPoint | itree.go:26-33 | succeeds iff every forest attribute's name is in the record and converts, giving PointOf; otherwise reports a missing name or a bad number |
| IsolationTrees.TotalPathLength | itree.go:36-41 | the accumulated total is the sum of the trees' path lengths in tree order |
| IsolationTrees.Score | itree.go:23-51 | an error iff the record cannot be scored; otherwise the converted point and the mean path length over the trees |
| LegacyData.DataSet.constructor | data.go:99-103 | the copyNoValues literal: the given features, no columns, size 0 |
| LegacyData.AddedColumns | data.go:120-129 | add changes only the columns of the row's features, by one entry each |
| LegacyData.DataSet.Add | data.go:120-129 | a panic (UnknownFeature) iff the row has a feature without a column; otherwise the columns are AddedColumns, the size + 1 and the features unchanged |
| LegacyData.AddFullRow | data.go:120-129 | a row with exactly the dataset's features keeps every column at the size and becomes the last row |
| LegacyData.AddPartialRowBreaksShape | data.go:121-127 | a row lacking a feature leaves that column short, so the columns no longer all hold size entries |
| LegacyData.DataSet.AddWholeRow | data.go:120-129 | add of a full row appends it as the last row |
| LegacyData.RowAt | data.go:112-118 | row k maps each feature of the columns to entry k of its column |
| LegacyData.DataSet.RowOf | data.go:112-118 | the row method's result is row idx of the dataset |
| LegacyData.DataSet.CopyNoValues | data.go:98-110 | a fresh dataset sharing the same features, an empty column for every existing column, size 0 |
| LegacyData.SampleTrace | data.go:75-96 | as written: the indices of the rows sample adds, each from the draw after an accepted one, all taken from the draw stream |
| LegacyData.SampleTraceIntended | data.go:75-96 | the corrected trace, when the draws suffice, has exactly n indices, each taken from the draw stream |
| LegacyData.SampleTraceLength | data.go:82-93 | as written, sample adds exactly n rows |
| LegacyData.SampleRepeatsRow | data.go:85-92 | as written, the draws 0, 1, 1, 1 on two rows add row 1 twice; the corrected trace adds rows 0 and 1 |
| LegacyData.SampleIntendedDistinct | data.go:85-92 | when the accepted index is the one added, the sample never repeats a row index, nor one copied before |
| LegacyData.DrawUnseen | data.go:84-91 | the rejection loop returns the first draw not yet copied, and the corrected trace continues from there with that index copied |
| LegacyData.DataSet.Sample | data.go:75-96 | more rows than the size panics (SizeTooLarge); otherwise a fresh dataset with the same features and a column for every existing column, holding the rows at the corrected trace's indices, or no rows for negative n |
| LegacyData.MatchedRows | data.go:157-171 | every row on the matched side matches |
| LegacyData.UnmatchedRows | data.go:157-171 | no row on the other side matches |
| LegacyData.SplitOnPartition | data.go:157-171 | the sizes add up to the size, and together the sides hold every row as often as before |
| LegacyData.MissingFeatureSide | data.go:161-168 | a row lacking the feature reads the empty string, so it is on the matched side iff the value is empty; a row with it is there iff its string equals the value |
| LegacyData.SplitOnMembers | data.go:161-168 | a row is on the matched side iff it is a source row whose string under the feature equals the value (the empty string when it lacks the feature), and on the other side iff it is one that does not |
| LegacyData.MatchedRowsConcat | data.go:157-171 | splitting a concatenation splits each part, so each side keeps the rows in their source order |
| LegacyData.DataSet.RouteRow | data.go:162-167 | row i joins the matched side when it matches and the other side otherwise, so after it the sides are MatchedRows and UnmatchedRows of the first i + 1 rows |
| LegacyData.DataSet.SplitOn | data.go:157-171 | two fresh, distinct datasets, each with the same features and a column for every existing column, holding MatchedRows and UnmatchedRows of the rows |
| LegacyData.SplitOnExample | data_test.go:41-108 | the TestSplit data split on Color == red sends apple and raspberry to one side and pear to the other |
| LegacyData.SplitConditionSpec | data.go:144-150 | an error exactly when there are no features or the drawn feature's column is empty (rand.Intn(0) panics) |
| LegacyData.SplitThresholdFromColumn | data.go:144-150 | the feature drawn is one of Features and the threshold is an entry of its own column |
| LegacyData.DataSet.Split | data.go:138-155 | the drawn condition is SplitConditionSpec; on success the two sides of splitOn are fresh datasets with the same features and column keys, holding MatchedRows and UnmatchedRows |

## Left out

- CSV input and output are left out: `NewDataSetFromCSV` in both packages, `ToCSV` and `GetRowPlain`. So are `String` methods, `ValueToString`, `traverse`'s trace strings and the `slog` call in the legacy `Split`. They are I/O and formatting.
- `With` (dataset.go:278-298), `Stats` and all of `stats.go` are left out. They are outside the modelled core.
- `harmonicNumber`, `math.Log2`/`math.Ceil` and the `math.Pow` score are left out.
  - They are floating-point functions.
  - `harmonicNumber` is the parameter `harmonic`, and `strconv.ParseFloat` is `parseFloat`.
  - The depth bound is the constant 8, and `MaxDepthIsCeilLog2` shows it is ceil(log2 256).
- Floating-point values are `real`: NaN, infinities and rounding are not modelled.
- Random distributions are not modelled. Every `rand.Intn`, `rand.Float64` and `rand.Shuffle` answer comes from an oracle that meets its range precondition.
- The termination of the rejection loops is not proved, since it is probabilistic. Both `Sample`s instead require a draw stream that holds enough distinct indices.
- Go map iteration order is not modelled. Where a result depends on it, the model leaves the choice open or states the result only where the order cannot matter.
  - The order of `attributesEqual`'s `missing` list is dropped: `AttributesNotEqual` carries the set of names.
  - `Score` loops over the forest's attribute map (itree.go:27), so which missing or unparsable entry it panics on first depends on the order. `ScoreErrorFits` admits any of them.
  - `Filter` and `GetRowWithNames` build a by-name map, which under duplicate names depends on the order (see below).
- `Score` and `IsolationTrees.Score` require a forest with at least one tree. With none, the source divides by zero and gives NaN.
- The state left behind after a panic is not modelled: the process stops there. Panics are errors that leave the result null.
- DataSets.DataSet.Split requires a non-empty dataset unless every attribute is excluded. With every attribute excluded, an empty dataset returns NotSplittable as in the source (dataset.go:524-526). An empty dataset with a splittable attribute is left out. A categorical draw then panics in `rand.Intn(0)`. A numerical draw computes +Inf + rand.Float64() * (-Inf - +Inf), a NaN threshold that `real` cannot express. `buildTree` only calls Split with more than one row. The same holds for `DataSetSpec.ChooseCondition` and `DataSetSpec.SplitSpec`.
- DataSets.DataSet.GetRow, GetRowWithNames and LegacyData.DataSet.RowOf require an index in range. The source indexes slices and panics outside it.
- DataSets.DataSet.Filter states its exact result only when attribute names are unique. With duplicate names, the by-name row handed to the predicate depends on map iteration order.
- LegacyData.DataSet requires the columns to all hold `size` entries for `row`, `sample`, `splitOn` and `Split`. `add` does not keep this shape, and `AddPartialRowBreaksShape` shows how it breaks.
- `IsolationTreeNode` is the datatype `Node`: `isLeaf` is the `Leaf` constructor, and a nil split cannot arise. `buildTree` sets the fields of a fresh node, and the node is never shared or changed later, so a value loses nothing.
- `AttributeType` is an `int` (dataset.go:14), so a value such as `AttributeType(2)` can occur in the source. The model's `AttributeType` datatype has only the constructors `Categorical` and `Numerical`. Attributes of other types are left out, and with them the unknown-type panics (dataset.go:35, 48, 494).
- DataSets.DataSet.Valid requires the attribute list to be free of repeats. The source does not enforce this: `NewDataSetFromCSV` appends a header twice if it repeats, and `Attributes` is a public field. Shuffle's callback (dataset.go:233-234) would then swap a repeated attribute's column twice, undoing the swap, so that column would no longer move with the rest of its row. Datasets with repeated attributes are left out.

## Findings

| source | as written | input that shows it | evidently intended | confidence | as-written member | corrected member |
|---|---|---|---|---|---|---|
| dataset.go:305 | `Excluding` refuses when the number of names equals the number of attributes | attributes a, b: names a, b, b pass and remove every attribute; names a, a are refused although b would remain | refuse exactly when no attribute would remain | not executed | DataSetSpec.ExcludingCountGuard | DataSetSpec.ExcludingIntendedGuard |
| data.go:92 | legacy `sample` records the accepted index in `copied` but adds the row at a second, independent `rand.Intn` draw | two rows, draws 0, 1, 1, 1: indices 0 and 1 are accepted, and row 1 is added twice | add the row at the accepted index, so no row repeats (as `dataset.go` does at line 272) | not executed | LegacyData.SampleRepeatsRow | LegacyData.SampleIntendedDistinct |

In both rows, the as-written behaviour is the function the lemma evaluates:
`DataSetSpec.ExcludingSpec` and `LegacyData.SampleTrace`.
`DataSets.DataSet.Excluding` and `LegacyData.DataSet.Sample` implement the
corrected definitions, `DataSetSpec.ExcludingIntended` and
`LegacyData.SampleTraceIntended`.
