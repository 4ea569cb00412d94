# InferNetHOL: a verified model of its data handling

InferNetHOL is a collection of Infer.NET examples with two desktop front ends. Its
probabilistic models run inside the Infer.NET and Accord libraries. The code
around them is plain data handling, and that is what this project models and proves
things about:

- **The SSV partition tree used to turn categories into numbers**
  (`InferNetHOL.Clustering/Services/DataSource.cs`).
  - The split filters `LS`/`RS` and the split score `SSV` (module `SsvScoring`).
  - The mutable tree (module `SsvTree`): its nodes, the greedy builder `GrowTree`,
    the in-place passes `SwapSiblings`, `ReorderSSVNodes` and `CalculateSSVW`, and
    `LeafNodes`.
  - The lookup pipeline (module `SsvLookup`): `NodesWithNeighbouringSSV`,
    `LookupValues`, the dictionary fill and `CreateSSVContinuouisificationLookup`.
- **The matrix and date helpers of the console examples.**
  - `GetDates`, the dates common to every group (module `DateGroups`).
  - Both `GetMatrix` overloads and `GetRows` (modules `TestsProgram` and `Matrices`).
- **The feature vectors of `NaiveClassifier`** (module `NaiveClassifier`).
- **The clustering window's view models.**
  - `GaussianMixtureViewModel` (module `GaussianMixtureViewModels`): the chart-field
    setters, the scatter plot it draws, and the column projection handed to
    inference.
  - `DataSourceTransformationViewModel` (module `DataSourceTransformation`): column
    classification by CLR type, and the change-only setters of the columns.
  - The change-only setter pattern they share (module `Notifications`).
- **The point-cloud view** (`ILGraphView.Display` and its transposing `GetMatrix`, module
  `ILGraphViews`).

## How the model is stated

- Values the code only copies (doubles, dates, records) are type parameters.
- Every exception the code can throw is an explicit `Failure`/`Fail` of the matching
  kind (`Wrappers.Exception`). Failures are never excluded by a precondition.
- Objects the code updates in place are classes: the tree nodes, the source columns
  and the view models.
  - Their methods are proved against pure functions: `TreeValue` pictures of a
    subtree, `GrowSpec`, `NeighbourSpec`, `LookupSpec`, `CommonDates`, `Transpose`.
  - The properties are lemmas about those functions.
- `PropertyChanged` notifications are recorded as a log of property names.

Several findings about the code as written are proved:

- `GrowTreeAlwaysFails`: `GrowTree` has no base case. Every level removes one distinct
  feature, and `First()` on the empty candidate list throws. So no call ever returns
  a tree, and `CreateSpecAlwaysFails` shows the whole lookup pipeline always ends in
  an exception.
- `LeafNodes`: a non-leaf child is passed on as `leftLeaf as ParentSSVNode`, which is
  null. So the enumeration only completes when both children of the top node are
  leaves.
- `LookupValues`: with no leaves nothing is divided and the result is empty. With
  leaves whose weights (all but the last) sum to zero, the decimal division throws.
- `DataSourceTransformation`: assigning `DataSource` or `SourceColumns` always ends in
  the `NotImplementedException` of `UpdateTransformedColumns`, after the new columns
  are stored.
- `ILGraphViews`: the colour index `i % (PlotColors.Length - 1)` never picks the last
  colour (`Olive`).

## Model

| member | source | states |
|---|---|---|
| `SsvScoring.Union` | InferNetHOL.Clustering/Services/DataSource.cs:98 | The union of two record lists has no repetitions, and holds exactly the records of either list. |
| `SsvScoring.Except` | InferNetHOL.Clustering/Services/DataSource.cs:260 | `features.Except(...)` has no repetitions and holds exactly the elements of the first list missing from the second. |
| `SsvScoring.Singletons` | InferNetHOL.Clustering/Services/DataSource.cs:112 | The pipeline's cluster function puts every record in a cluster of its own, in order. |
| `SsvScoring.LS` | InferNetHOL.Clustering/Services/DataSource.cs:284-287 | Every record `LS` keeps has a feature other than `s`, and comes from `data`, which it is no longer than. |
| `SsvScoring.RS` | InferNetHOL.Clustering/Services/DataSource.cs:289-292 | Every record `RS` keeps has feature `s`, and comes from `data`, which it is no longer than. |
| `SsvScoring.SplitMembership` | InferNetHOL.Clustering/Services/DataSource.cs:284-292 | A record is in `LS` iff it is in `data` with another feature, and in `RS` iff it is in `data` with feature `s`. |
| `SsvScoring.SplitPartitions` | InferNetHOL.Clustering/Services/DataSource.cs:284-292 | `LS` and `RS` partition `data`: their lengths add up to its length and their multisets to its multiset. |
| `SsvScoring.LeftSplitKeepsOrder` | InferNetHOL.Clustering/Services/DataSource.cs:284-287 | `LS` keeps the order of `data`: `LS` of a concatenation is the concatenation of the `LS`s. |
| `SsvScoring.RightSplitKeepsOrder` | InferNetHOL.Clustering/Services/DataSource.cs:289-292 | `RS` keeps the order of `data` in the same way. |
| `SsvScoring.SplitKeepsNoDuplicates` | InferNetHOL.Clustering/Services/DataSource.cs:284-292 | Splitting a list without repetitions gives two lists without repetitions. |
| `SsvScoring.NomOfSingletons` | InferNetHOL.Clustering/Services/DataSource.cs:279 | With one cluster per record of a duplicate-free `D` and disjoint sides, the first SSV sum is `\|D ∩ ls\| · \|rs\|`. |
| `SsvScoring.DenomOfSingletons` | InferNetHOL.Clustering/Services/DataSource.cs:280 | With one cluster per record and disjoint sides, the subtracted `min` sum of SSV is zero. |
| `SsvScoring.SSV` | InferNetHOL.Clustering/Services/DataSource.cs:277-282 | The score is at most twice its first sum, since the subtracted sum is never negative, and a split with an empty side scores zero. |
| `SsvScoring.EmptySideScoresZero` | InferNetHOL.Clustering/Services/DataSource.cs:279-280 | With an empty side, both sums of SSV are zero, for any clusters. |
| `SsvScoring.SSVOfSingletons` | InferNetHOL.Clustering/Services/DataSource.cs:277-282 | With one cluster per record, `ls` drawn from a duplicate-free `D` and disjoint sides, `SSV` is `2·\|ls\|·\|rs\|` (distinct counts). |
| `SsvScoring.SplitScoreWithSingletons` | InferNetHOL.Clustering/Services/DataSource.cs:247-251 | Every candidate split of a duplicate-free record list scores `2·\|LS\|·\|RS\|` under the pipeline's clusters, so never negative. |
| `SsvTree.SsvNode.Leaf` | InferNetHOL.Clustering/Services/DataSource.cs:255-259 | A new `LeafSSVNode` is a valid one-node tree with the given feature and records, weight 0, no parent and no sibling. |
| `SsvTree.SsvNode.Interior` | InferNetHOL.Clustering/Services/DataSource.cs:265-269 | A new `ParentSSVNode` has the given children, no parent or sibling, weight 0, and the children's footprints below it. |
| `SsvTree.SwappedTwice` | InferNetHOL.Clustering/Services/DataSource.cs:238-243 | Swapping the children twice restores the node. |
| `SsvTree.SwapSiblings` | InferNetHOL.Clustering/Services/DataSource.cs:238-243 | Exactly `Left` and `Right` of the node are exchanged; the tree stays valid and its picture is the swapped one. |
| `SsvTree.Reordered` | InferNetHOL.Clustering/Services/DataSource.cs:209-236 | Reordering keeps a node's own weight and records, and whether it is a leaf. |
| `SsvTree.ReorderedIsOrdered` | InferNetHOL.Clustering/Services/DataSource.cs:209-236 | After the pass, every left child has `Left.SSVW >= Right.SSVW` and every right child `Left.SSVW <= Right.SSVW`. |
| `SsvTree.ReorderedKeepsEntries` | InferNetHOL.Clustering/Services/DataSource.cs:209-236 | The pass only moves whole subtrees: the multiset of nodes (feature, records, weight) is unchanged. |
| `SsvTree.ReorderedEqualWeights` | InferNetHOL.Clustering/Services/DataSource.cs:218-228 | When all weights are equal (as before `CalculateSSVW`) no comparison is strict, and the pass changes nothing. |
| `SsvTree.SwapIfWanted` | InferNetHOL.Clustering/Services/DataSource.cs:211-231 | A node's children are swapped exactly when its role (left child, right child) and their weights ask for it; the top node is never swapped. |
| `SsvTree.ReorderSSVNodes` | InferNetHOL.Clustering/Services/DataSource.cs:209-236 | The subtree stays valid, only `Left`/`Right` fields change, and its new picture is `Reordered` of the old one for the node's role. |
| `SsvTree.ReorderChildren` | InferNetHOL.Clustering/Services/DataSource.cs:233-234 | Reordering the left child and then the right one leaves the node valid, with both children's pictures reordered for their roles. |
| `SsvTree.PairSSVOfSingletons` | InferNetHOL.Clustering/Services/DataSource.cs:97-99 | With one cluster per record, the weight a node gets from disjoint records and those of its parent's sibling is twice the product of their sizes. |
| `SsvTree.SetOwnSSVW` | InferNetHOL.Clustering/Services/DataSource.cs:95-100 | A node whose parent has a sibling gets the SSV of its records against the sibling's; any other node keeps its weight. |
| `SsvTree.CalculateSSVW` | InferNetHOL.Clustering/Services/DataSource.cs:93-108 | Every node of the subtree whose parent has a sibling gets that pair score; every other weight, and every other field, is unchanged. |
| `SsvTree.LeafNodes` | InferNetHOL.Clustering/Services/DataSource.cs:184-207 | A null parent throws; otherwise the enumeration completes iff both children are leaves, and then yields `[Left, Right]`; any failure is a null dereference. |
| `SsvTree.FirstMaxIndex` | InferNetHOL.Clustering/Services/DataSource.cs:253-254 | The stable descending sort's first element is the earliest index of a largest score. |
| `SsvTree.SelectedIsFirstMaximum` | InferNetHOL.Clustering/Services/DataSource.cs:247-254 | The selected feature scores at least as high as every candidate, and strictly higher than every earlier one. |
| `SsvTree.ExceptShrinks` | InferNetHOL.Clustering/Services/DataSource.cs:260 | For a feature among the features, the remaining features are exactly the others, one distinct feature fewer. |
| `SsvTree.LevelSpec` | InferNetHOL.Clustering/Services/DataSource.cs:255-274 | A level fails iff its left side fails, with the same exception. Otherwise it is an interior node with the `RS` leaf of the selected feature on the right and the `LS` records on the left. |
| `SsvTree.GrowTreeAlwaysFails` | InferNetHOL.Clustering/Services/DataSource.cs:245-275 | For every input, the tree `GrowTree` describes is the `First()`-on-empty exception: the recursion has no base case. |
| `SsvTree.SelectSplit` | InferNetHOL.Clustering/Services/DataSource.cs:247-254 | The split chosen is that of the first best-scoring candidate, the remaining features shrink, and one level of `GrowSpec` is taken. |
| `SsvTree.JoinLevel` | InferNetHOL.Clustering/Services/DataSource.cs:261-274 | The left side gets the `LS` records; both sides become siblings under a fresh valid parent whose picture joins theirs; sibling links are kept. |
| `SsvTree.Attach` | InferNetHOL.Clustering/Services/DataSource.cs:255-274 | A failed left side passes its exception on; a grown one is joined with a fresh leaf of the selected feature, as `LevelSpec` describes. |
| `SsvTree.GrowTree` | InferNetHOL.Clustering/Services/DataSource.cs:245-275 | The result is exactly what `GrowSpec` describes: the same exception, or a fresh valid top node with linked siblings and that picture. |
| `SsvLookup.LeafEntriesSpec` | InferNetHOL.Clustering/Services/DataSource.cs:184-207 | Reading the top node's leaves succeeds iff both of its children are leaves, giving two leaf entries; otherwise a null dereference. |
| `SsvLookup.ReorderKeepsLeafEntries` | InferNetHOL.Clustering/Services/DataSource.cs:116-117 | Reordering before collecting the leaves does not change which leaves are collected or what they hold. |
| `SsvLookup.TopLeaves` | InferNetHOL.Clustering/Services/DataSource.cs:117 | `LeafNodes(tree as ParentSSVNode)` on a valid tree yields its two children exactly when `LeafEntriesSpec` succeeds, with the same entries and error. |
| `SsvLookup.NeighbourSpec` | InferNetHOL.Clustering/Services/DataSource.cs:153-182 | Fewer than two leaves throw out of range; otherwise one new leaf per input, each with the input's feature and records. |
| `SsvLookup.NeighbourWeights` | InferNetHOL.Clustering/Services/DataSource.cs:156-167 | Every leaf but the last is weighed by the pair score of itself and its right neighbour. |
| `SsvLookup.LastNeighbourWeight` | InferNetHOL.Clustering/Services/DataSource.cs:169-181 | The last leaf repeats the weight of the one before it. |
| `SsvLookup.NeighbourWeightsOfSingletons` | InferNetHOL.Clustering/Services/DataSource.cs:118 | With one cluster per record and neighbours that share no record, every new weight is twice the product of the pair's sizes, so none is negative. |
| `SsvLookup.NeighbourNode` | InferNetHOL.Clustering/Services/DataSource.cs:160-165 | The new leaf is fresh and valid, with the feature and records of its source leaf and the score of the given pair. |
| `SsvLookup.NeighbourPrefix` | InferNetHOL.Clustering/Services/DataSource.cs:156-167 | The loop yields fresh leaves equal to all but the last entry of `NeighbourSpec`. |
| `SsvLookup.NodesWithNeighbouringSSV` | InferNetHOL.Clustering/Services/DataSource.cs:153-182 | The enumeration fails iff `NeighbourSpec` does (fewer than two leaves); otherwise the new leaves hold exactly its entries. |
| `SsvLookup.LookupSpec` | InferNetHOL.Clustering/Services/DataSource.cs:129-151 | The only failure is the decimal division by zero; a result has one value per leaf. |
| `SsvLookup.SumWeights` | InferNetHOL.Clustering/Services/DataSource.cs:134-137 | An accumulation loop returns the sum of the first `count` weights. |
| `SsvLookup.LookupValues` | InferNetHOL.Clustering/Services/DataSource.cs:129-151 | The result, or the division-by-zero failure, is `LookupSpec` of the leaves' weights. |
| `SsvLookup.LookupStartsAtZero` | InferNetHOL.Clustering/Services/DataSource.cs:142 | Because the numerator loop stops at `i - 1`, the first two leaves both get the value zero. |
| `SsvLookup.LookupFailsIff` | InferNetHOL.Clustering/Services/DataSource.cs:133-147 | With non-negative weights the lookup fails iff there is a leaf and every weight but the last is zero. |
| `SsvLookup.LookupIsMonotoneInUnitInterval` | InferNetHOL.Clustering/Services/DataSource.cs:139-148 | With non-negative weights every value lies in [0, 1], and the values never decrease along the leaf order. |
| `SsvLookup.AddAllMeaning` | InferNetHOL.Clustering/Services/DataSource.cs:120-124 | The dictionary is filled iff no feature repeats, else `Add` throws. When filled, its keys are exactly the features, each mapped to the value at its position. |
| `SsvLookup.FillDictionary` | InferNetHOL.Clustering/Services/DataSource.cs:120-124 | The `Add` loop computes `AddAll` of the leaves' features and values. |
| `SsvLookup.Column` | InferNetHOL.Clustering/Services/DataSource.cs:113-114 | Selecting the column succeeds iff every record has it, and then gives each record's field in order; otherwise out of range. |
| `SsvLookup.LookupFromTree` | InferNetHOL.Clustering/Services/DataSource.cs:116-126 | Reorder, leaves, reweighting, values and dictionary give exactly what `TreeLookupSpec` says of the grown tree's picture. |
| `SsvLookup.LookupFromLeaves` | InferNetHOL.Clustering/Services/DataSource.cs:118-126 | On the two collected leaves, reweighing, the values and the dictionary give exactly `LeavesLookupSpec` of their entries. |
| `SsvLookup.CreateSSVContinuouisificationLookup` | InferNetHOL.Clustering/Services/DataSource.cs:110-127 | The method returns what `CreateSpec` says, as the composition of all the above. |
| `SsvLookup.CreateSpecAlwaysFails` | InferNetHOL.Clustering/Services/DataSource.cs:110-115 | The lookup never yields a dictionary: out of range when a record lacks the column, otherwise the `First()` exception of `GrowTree`. |
| `DateGroups.GetDates` | InferNetHOL.CSharp.Tests/Program.cs:27-41 | The loop over the union returns `CommonDates`: the union's dates, in first-occurrence order, that every group contains. |
| `DateGroups.KeepCommonMembership` | InferNetHOL.CSharp.Tests/Program.cs:32-38 | A candidate is kept iff every group contains it. |
| `DateGroups.CommonDatesMembership` | InferNetHOL.CSharp/GaussianProcessExample.cs:89-103 | A date is returned iff there is at least one group and every group contains it. |
| `DateGroups.CommonDatesNoDuplicates` | InferNetHOL.CSharp/GaussianProcessExample.cs:91-102 | No date is returned twice. |
| `DateGroups.CommonDatesEmpty` | InferNetHOL.CSharp.Tests/Program.cs:29-38 | No groups, or any empty group, give no dates. |
| `TestsProgram.CopyRows` | InferNetHOL.CSharp.Tests/Program.cs:61-64 | Copying every row to an array gives the same rows, entries in order. |
| `TestsProgram.GetMatrix` | InferNetHOL.CSharp.Tests/Program.cs:66-78 | Fails iff the source is empty or a row is shorter than the first; otherwise a fresh `source.Length × source[0].Length` array holding every row cut to the first row's length. |
| `TestsProgram.GetRows` | InferNetHOL.CSharp.Tests/Program.cs:552-567 | Fails under the same condition; otherwise the rows are the transpose of the source. |
| `Matrices.TruncatedRectangular` | InferNetHOL.CSharp.Tests/Program.cs:68-73 | On rectangular input `GetMatrix` copies every row whole. |
| `Matrices.TransposeTwice` | InferNetHOL.CSharp.Tests/Program.cs:557-565 | The transpose is rectangular, and transposing it back gives the input cut to its first row. |
| `Matrices.TransposeTwiceRectangular` | InferNetHOL.Clustering/Views/ILGraphView.xaml.cs:90-102 | On rectangular input with non-empty rows, transposing twice is the identity. |
| `NaiveClassifier.Ordinal` | InferNetHOL.CSharp/NaiveClassifier.cs:81-93 | Every shape's value is below ten, the length of the shape block. |
| `NaiveClassifier.ShapeOf` | InferNetHOL.CSharp/NaiveClassifier.cs:81-93 | Exactly the values below ten name a shape. |
| `NaiveClassifier.OrdinalRoundTrip` | InferNetHOL.CSharp/NaiveClassifier.cs:81-93 | Shapes and the values 0 to 9 correspond one to one. |
| `NaiveClassifier.ColorAttributes` | InferNetHOL.CSharp/NaiveClassifier.cs:58-61 | A colour gives three attributes. |
| `NaiveClassifier.ColorRoundTrip` | InferNetHOL.CSharp/NaiveClassifier.cs:58-61 | The three attributes determine the colour. |
| `NaiveClassifier.GetShapeAttributeArray` | InferNetHOL.CSharp/NaiveClassifier.cs:63-68 | A fresh ten-entry array, 1 at the shape's value and 0 everywhere else. |
| `NaiveClassifier.ShapeAttributesRoundTrip` | InferNetHOL.CSharp/NaiveClassifier.cs:63-68 | The one-hot block determines the shape, and distinct shapes give distinct blocks. |
| `NaiveClassifier.JoinArrays` | InferNetHOL.CSharp/NaiveClassifier.cs:70-79 | The result is the arrays one after another (`Flatten`). |
| `NaiveClassifier.FeatureVectorLayout` | InferNetHOL.CSharp/NaiveClassifier.cs:22 | A sample's vector has 14 entries: the colour at 0-2, the shape block at 3-12 and the size at 13. |
| `NaiveClassifier.FeatureVectorRoundTrip` | InferNetHOL.CSharp/NaiveClassifier.cs:20-39 | A feature vector determines its colour, shape and size. |
| `NaiveClassifier.TrainingInputs` | InferNetHOL.CSharp/NaiveClassifier.cs:20-39 | One vector per training sample, in the order written; each has 14 entries and reads back as that sample's colour, shape and size. |
| `NaiveClassifier.RunShapes` | InferNetHOL.CSharp/NaiveClassifier.cs:41-54 | 16 inputs and 16 labels. Every training vector and the test vector have the 14 entries the weight vector is sized by. |
| `Notifications.ChangeOnly` | InferNetHOL.Clustering/Models/DataSourceTransformationViewModel.cs:163-167 | The field takes the new value, and one notification is logged iff it differs from the old one. |
| `Notifications.ChangeOnlyIdempotent` | InferNetHOL.Clustering/Models/GaussianMixtureViewModel.cs:64-69 | Setting the value a setter has just stored changes nothing further. |
| `GaussianMixtureViewModels.GetSelectedColumnIndices` | InferNetHOL.Clustering/Models/GaussianMixtureViewModel.cs:193-202 | Yields exactly the indices of selected columns (`IndicesWhere`), in increasing order, each below the count. |
| `Sequences.IndicesWhere` | InferNetHOL.Clustering/Models/GaussianMixtureViewModel.cs:195-201 | Every index yielded is in range and satisfies the test, and they strictly increase. |
| `Sequences.IndicesWhereMembership` | InferNetHOL.Clustering/Models/GaussianMixtureViewModel.cs:197-200 | An index is yielded iff it is in range and its element satisfies the test. |
| `GaussianMixtureViewModels.IndexOf` | InferNetHOL.Clustering/Models/GaussianMixtureViewModel.cs:77-78 | `List.IndexOf`: the first position of the item, or -1 iff it is null or absent. |
| `GaussianMixtureViewModels.Points` | InferNetHOL.Clustering/Models/GaussianMixtureViewModel.cs:81 | Fails iff some row is too short for either index; otherwise one point `(row[rowIndex], row[columnIndex])` per row, in order. |
| `GaussianMixtureViewModels.Plot` | InferNetHOL.Clustering/Models/GaussianMixtureViewModel.cs:75-84 | Nothing is drawn iff either chart field is not a column name. Otherwise the scatter series labelled "data" of `Points`, or its failure. |
| `GaussianMixtureViewModels.PlotPoints` | InferNetHOL.Clustering/Models/GaussianMixtureViewModel.cs:81-82 | A drawn series is a scatter labelled "data" with one point per row, made of the row's values in the two chosen columns. |
| `GaussianMixtureViewModels.GaussianMixtureViewModel.DisplayPlot` | InferNetHOL.Clustering/Models/GaussianMixtureViewModel.cs:75-84 | With a field missing, series and log are unchanged. Otherwise `Series` becomes that one series and "Series" is notified, or the row failure leaves both unchanged. |
| `GaussianMixtureViewModels.GaussianMixtureViewModel.SetChartRowField` | InferNetHOL.Clustering/Models/GaussianMixtureViewModel.cs:45-57 | The current value changes nothing. A new one is stored, notified, and redrawn as `DisplayPlot` says. |
| `GaussianMixtureViewModels.GaussianMixtureViewModel.SetChartColumnField` | InferNetHOL.Clustering/Models/GaussianMixtureViewModel.cs:59-71 | The same for the column field. |
| `GaussianMixtureViewModels.SelectEntries` | InferNetHOL.Clustering/Models/GaussianMixtureViewModel.cs:167 | Fails iff an index is past the end of the row. Otherwise one entry per index, in order, each the row's value at that index. |
| `GaussianMixtureViewModels.SelectColumns` | InferNetHOL.Clustering/Models/GaussianMixtureViewModel.cs:167 | Fails iff an index is past the end of some row. Otherwise each row is reduced to its entries at the indices, in their order. |
| `GaussianMixtureViewModels.InferenceInput` | InferNetHOL.Clustering/Models/GaussianMixtureViewModel.cs:165-167 | Fails iff some row is too short for a selected column. Otherwise one row per data row, with entry `j` the row's value in the `j`-th selected column. |
| `GaussianMixtureViewModels.InferenceInputOfFullRows` | InferNetHOL.Clustering/Models/GaussianMixtureViewModel.cs:165-167 | With full rows the projection succeeds, and entry `j` of a row is its value in the `j`-th selected column. |
| `DataSourceTransformation.IsNumeric` | InferNetHOL.Clustering/Models/DataSourceTransformationViewModel.cs:110-117 | True exactly for `int`, `double`, `decimal`, `float` and `long`, and never for a textual type. |
| `DataSourceTransformation.NumericNotTextual` | InferNetHOL.Clustering/Models/DataSourceTransformationViewModel.cs:105-117 | Only `string` is textual, and no type is both numeric and textual. |
| `DataSourceTransformation.KindOf` | InferNetHOL.Clustering/Models/DataSourceTransformationViewModel.cs:88-99 | Numeric types become number columns and `string` text columns. Every other type becomes an unsupported column carrying its type. |
| `DataSourceTransformation.AvailableTransformationTypes` | InferNetHOL.Clustering/Models/DataSourceTransformationViewModel.cs:203-209 | Four members, each at the position of its enum value. |
| `DataSourceTransformation.AvailableTypesListEachOnce` | InferNetHOL.Clustering/Models/DataSourceTransformationViewModel.cs:120-126 | Every member is listed, none twice, `None` first. |
| `DataSourceTransformation.SourceColumn.constructor` | InferNetHOL.Clustering/Models/DataSourceTransformationViewModel.cs:184-188 | A new column has its name and the kind of its type, is not selected, and a text column starts with `Ordinal`. |
| `DataSourceTransformation.SourceColumn.SetSelected` | InferNetHOL.Clustering/Models/DataSourceTransformationViewModel.cs:158-169 | Stores the value, and notifies "Selected" only when it differs. |
| `DataSourceTransformation.SourceColumn.SetTransformation` | InferNetHOL.Clustering/Models/DataSourceTransformationViewModel.cs:190-201 | Stores the value, and notifies "Transformation" only when it differs. |
| `DataSourceTransformation.DataSourceTransformationViewModel.SetSourceColumns` | InferNetHOL.Clustering/Models/DataSourceTransformationViewModel.cs:45-52 | Stores the columns and notifies "SourceColums". It then always fails with `NotImplementedException`. |
| `DataSourceTransformation.DataSourceTransformationViewModel.UpdateSourceColumnsList` | InferNetHOL.Clustering/Models/DataSourceTransformationViewModel.cs:83-103 | No table: a null dereference with nothing changed. Otherwise one fresh column per table column, in order, with its name and kind, then the failing `SourceColumns` setter. |
| `DataSourceTransformation.DataSourceTransformationViewModel.SetDataSource` | InferNetHOL.Clustering/Models/DataSourceTransformationViewModel.cs:31-40 | Stores the table, notifies "DataSource", rebuilds the columns as above, and always ends in an exception. |
| `ILGraphViews.ColorIndex` | InferNetHOL.Clustering/Views/ILGraphView.xaml.cs:69 | The colour index is below 6 and is the series index for the first six series. |
| `ILGraphViews.NeverOlive` | InferNetHOL.Clustering/Views/ILGraphView.xaml.cs:64-70 | The seventh colour is never chosen, and colours repeat every six series. |
| `ILGraphViews.GetMatrix` | InferNetHOL.Clustering/Views/ILGraphView.xaml.cs:90-102 | Fails iff the source is empty or a row is shorter than the first. Otherwise a fresh `source[0].Length × source.Length` array holding the transpose. |
| `ILGraphViews.Coordinates` | InferNetHOL.Clustering/Views/ILGraphView.xaml.cs:75 | Three rows as long as the series: the cast first coordinates, the cast second coordinates, and zeros. |
| `ILGraphViews.PointPositions` | InferNetHOL.Clustering/Views/ILGraphView.xaml.cs:75-79 | Row `k` of the positions is point `k` at `(x, y, 0)`. |
| `ILGraphViews.PlotCubeOf` | InferNetHOL.Clustering/Views/ILGraphView.xaml.cs:72-83 | The cube of a series with points has the chosen colour and a fresh position array holding the transposed coordinates. |
| `ILGraphViews.ILGraphView.Display` | InferNetHOL.Clustering/Views/ILGraphView.xaml.cs:58-88 | A null array changes nothing. Otherwise the scene gets one cube per series with points, in order, coloured by the series index. |

## Left out

- The Infer.NET and Accord calls are foreign libraries with floating-point results. This covers model building, inference, `InferStandard`, `Regression`, `Estimate` and the posteriors in `Run` and `ExecuteInferCommand`.
- File and market-data I/O: `GetColumns`, `Load`, `GetDataSetsNames`, `GetPrices`. The data a view model works on is given to its constructor.
- `GaussianMixtureViewModels.GaussianMixtureViewModel.constructor` stands in for the `SelectedDataSetName` setter, which loads a data set from disk. Its choice of the first and last column as chart fields is not modelled.
- The parallel `AsParallel().AsOrdered()` evaluation in `ExecuteInferCommand` is left out. Only its column projection is modelled.
- Randomness (`CreateTestData`, `Rand`, `System.Random`) and floating-point helpers (`GetReturns`, covariance, rounding in `ToString`) are left out.
- UI plumbing is not modelled: dependency properties, `plotter.Refresh`, the `ILScene` objects, commands, and the `PropertyChanged` handlers themselves. `BindSourceColumnHandlers`/`UnbindSourceColumnHandlers` are left out too, with the handler that calls `UpdateTransformedColumns` when a bound column changes.
- `DataSourceTransformation.SourceColumn.SetSelected`: when the column is bound to a view model, the source then also throws from `SourceColumn_PropertyChanged`. The model records only the notification. The same holds for `DataSourceTransformation.SourceColumn.SetTransformation`.
- `SsvScoring.SSV`: the source multiplies the counts as 32-bit `int`s (unchecked) and sums them with the checked `Enumerable.Sum`. The model uses unbounded integers, so neither wrap-around nor `OverflowException` is modelled.
- `SsvLookup.LookupValues`: `decimal` division is exact real division here. Rounding to 28-29 significant digits is not modelled.
- `SsvLookup.NodesWithNeighbouringSSV` takes the pair score as a parameter, and the pipeline passes the SSV of the pair's union. Lazy enumeration is modelled as enumeration to the end, which is what its caller does.
- `TestsProgram.GetRows` and `GaussianMixtureViewModels.Points` are lazy in the source. The model gives the fully enumerated result, and a failure stands for the exception raised on enumeration.
- `SsvTree.GrowTree` is split into `SelectSplit`, `Attach` and `JoinLevel`. `Attach` allocates the right leaf after the recursive call, where the source allocates it before. No reachable state differs.
- `ILGraphViews.ILGraphView.Display` has its loop body in `DrawSeries` and the cube construction in `PlotCubeOf`. `SsvLookup.LookupFromTree` hands the statements after `LeafNodes` to `LookupFromLeaves`. The order of the source's statements is kept.
- `SsvTree.ReorderSSVNodes` is split into `SwapIfWanted` and `ReorderChildren`, which follow the source's statements in order.
- `SsvTree.ReorderSSVNodes` requires a well-formed tree whose parent is outside its footprint. A tree built by `GrowTree` has this shape.
- The node interface with its two classes is one class, `SsvNode`, distinguished by a constant `Feature`. A `ParentSSVNode` has records `Data` only once it is a left child. The top node's null `Data` is the empty sequence, since nothing reads it.
- `DateGroups.GetDates` enumerates the `HashSet` union in first-occurrence order. .NET does not promise an order, but membership and uniqueness of the result do not depend on it.
- Null collections and null rows are not modelled where the code never passes them: a null `ChartFields`, a null `data` row array, a null series array element. A null `dataSource`, a null `Series` into `Display`, a null chart field and a null `parent` in `LeafNodes` are modelled.
- `ILGraphViews.ILGraphView.Display` takes the `(float)` cast as a function parameter. Precision loss is not modelled.
- `NaiveClassifier.TrainingInputs` takes the palette as a parameter: the channel values of `Color.Blue`, `Color.Red` and so on come from Microsoft.Glee.Drawing, not from this code.
- `ILGraphViews.PlotColors` names the System.Drawing colours of `Display` without their channel values.
- `LabelledSeries` is a plain data holder. Its settable `IsScatter` is only set at construction in the modelled code.
