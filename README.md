# KNN collaborative filtering, modelled in Dafny

This project models the core of a brute-force K-nearest-neighbour engine and the collaborative-filtering imputer built on it. The model has three layers.

- **Pairwise distances** (`code/distances.py`). Each function fills an |X| by |Y| array, cell by cell, with the distance between row `X[i]` and row `Y[j]`:
  - Euclidean, represented by its square;
  - Manhattan;
  - cosine, kept as a per-pair function.
- **The `KNearestNeighbor` predictor** (`code/k_nearest_neighbor.py`). It is a class with settings fixed at construction and fitted `features`/`targets` fields. `Fit` assigns those fields. `Predict` dispatches once on the distance measure and computes the distance array for the whole query matrix. It then handles each query row in turn:
  - ranks the reference rows by distance (argsort);
  - keeps the first `n_neighbors` of them;
  - gathers their target rows;
  - reduces the targets column by column with the mean, the median, or the mode. The mode is the count-per-value argmax, so ties go to the smallest value.
- **The imputation** (`code/collaborative_filtering.py`). It walks the columns of a two-dimensional integer array from left to right. In each column:
  - the zero entries are the missing ones;
  - a fresh predictor with the default settings (Euclidean, mode) is fitted on the present rows without the column, with the column as a one-wide target;
  - the predictions for the missing rows are written back into the same array, in place, in missing-row order.

Module layout:

| module | contents |
|---|---|
| `Matrices` | rows, matrices and label matrices |
| `Outcomes` | options, failures and results |
| `Distances` | the distance functions and their array-filling methods |
| `Ranking` | argsort and the neighbour slice, as pure functions |
| `Aggregation` | mean, median and mode, as pure functions |
| `Knn` | the predictor class and the pure `Prediction` it is proved against |
| `Imputation` | the in-place `CollaborativeFiltering` method, proved against the pure column-by-column `Impute` |

Failures are values of `Outcomes.Error`:

| failure | when |
|---|---|
| `UnknownMetric` | unrecognised distance name |
| `NotFitted` | predict before fit |
| `ShapeMismatch` | misaligned arrays |
| `NoNeighbours` | no neighbour selected |
| `NegativeLabel` | the count of a negative value for the mode |
| `EmptyInput` | an array without rows has no first row |

Behaviour of the code that the model keeps:

- **Unused arguments.** The docstring of `collaborative_filtering` documents `distance_measure` and `aggregator` as the settings of the predictor (code/collaborative_filtering.py:13-17). The predictor is built from `n_neighbors` alone (code/collaborative_filtering.py:41), so it always uses Euclidean distance and the mode. The model's `CollaborativeFiltering` accepts both arguments and, in the same way, never uses them.
- **`ignoreFirst`.** The `predict` docstring says that `ignore_first` skips the closest point (code/k_nearest_neighbor.py:76-79). The slice at code/k_nearest_neighbor.py:98 always starts at the nearest reference row, so the flag has no effect, here as in the code.
- **Unrecognised distance measure.** No branch of the dispatch at code/k_nearest_neighbor.py:89-96 matches. `distances` stays an empty list, and the two-dimensional slice of its argsort at line 98 raises an error. The model reports this as the failure `UnknownMetric`.
- **Unrecognised aggregator.** None of the branches at code/k_nearest_neighbor.py:105-114 appends a label row, so the result has no rows; the model gives `Ok([])`.

## Model

| member | source | states |
|---|---|---|
| Distances.PairwiseDistances | code/distances.py:16-21 | returns a fresh array of len(X) rows and len(Y) columns whose every cell (i, j) holds the metric of X[i] and Y[j] |
| Distances.EuclideanDistances | code/distances.py:4-21 | cell (i, j) is the squared Euclidean distance of X[i] and Y[j]; on X and itself the diagonal is zero and the array is symmetric |
| Distances.ManhattanDistances | code/distances.py:24-41 | cell (i, j) is the Manhattan distance of X[i] and Y[j]; on X and itself the diagonal is zero and the array is symmetric |
| Distances.CosineDistances | code/distances.py:44-61 | cell (i, j) is the given per-pair cosine distance of X[i] and Y[j], in an array of len(X) by len(Y) |
| Distances.SqEuclideanSymmetric | code/distances.py:19 | the squared Euclidean distance of two rows does not depend on their order |
| Distances.ManhattanSymmetric | code/distances.py:39 | the Manhattan distance of two rows does not depend on their order |
| Distances.SqEuclideanZeroIff | code/distances.py:19 | two rows of one width are at squared Euclidean distance zero exactly when they are equal |
| Distances.ManhattanZeroIff | code/distances.py:39 | two rows of one width are at Manhattan distance zero exactly when they are equal |
| Distances.OneFeatureEuclidean | code/distances.py:19 | with one feature the squared Euclidean distance is the square of the absolute difference |
| Ranking.InsertRanked | code/k_nearest_neighbor.py:98 | inserting a new index into a list in rank order (nearer first, equal distances by index) keeps it in rank order |
| Ranking.RankPrefixRanked | code/k_nearest_neighbor.py:98 | the argsort lists the indices in strictly increasing (distance, index) order |
| Ranking.RankPrefixCovers | code/k_nearest_neighbor.py:98 | every reference index appears in the argsort |
| Ranking.NeighboursNearest | code/k_nearest_neighbor.py:98 | the slice holds min(k, N) distinct valid indices in ascending distance, equal distances in index order, none farther than any index left out |
| Ranking.UniqueNearest | code/k_nearest_neighbor.py:98 | a reference row strictly nearer than every other is the single selected neighbour |
| Ranking.UniqueZeroIsNearest | code/k_nearest_neighbor.py:98 | the only reference row at distance zero is the single nearest neighbour |
| Aggregation.MeanBounds | code/k_nearest_neighbor.py:105-106 | the mean of a column lies between its least and its greatest value |
| Aggregation.MeanOfConstant | code/k_nearest_neighbor.py:105-106 | the mean of equal values is that value |
| Aggregation.SortInts | code/k_nearest_neighbor.py:113-114 | the sort under the median is an ascending permutation of its input |
| Aggregation.MedianSplits | code/k_nearest_neighbor.py:113-114 | at least half of the values are at most the median and at least half are at least the median |
| Aggregation.SortedUnique | code/k_nearest_neighbor.py:113-114 | two ascending sequences with the same values are equal |
| Aggregation.MedianOfPermutation | code/k_nearest_neighbor.py:113-114 | the median depends only on the multiset of values, not on their order |
| Aggregation.FirstMostFrequent | code/k_nearest_neighbor.py:110-111 | the argmax of the count array: a value below n whose count no value below n exceeds, and which every smaller value undercounts |
| Aggregation.ModeOf | code/k_nearest_neighbor.py:108-111 | the mode of non-negative values occurs among them, no value occurs more often, and it is the smallest such value |
| Aggregation.ModeColumn | code/k_nearest_neighbor.py:109-111 | a column's mode fails, with NegativeLabel, exactly when the column holds a negative value, and is its ModeOf otherwise |
| Aggregation.ColumnModesMeaning | code/k_nearest_neighbor.py:107-112 | the per-column modes exist exactly when no target is negative; each is a value of its column, most frequent, smallest among the most frequent |
| Aggregation.SingleValue | code/k_nearest_neighbor.py:105-114 | one value is its own mean and its own median |
| Aggregation.SingleRowMeansMedians | code/k_nearest_neighbor.py:105-114 | the per-column mean and median of one target row are that row |
| Aggregation.SingleRowModes | code/k_nearest_neighbor.py:107-112 | the per-column mode of one non-negative target row is that row |
| Aggregation.MeanExample | code/k_nearest_neighbor.py:17-28 | neighbour targets [[1,2,3],[2,3,4],[3,4,5]] have per-column mean [2,3,4] |
| Aggregation.ModeExample | code/k_nearest_neighbor.py:107-112 | neighbour targets [[1],[1],[2]] have per-column mode [1] |
| Outcomes.AllOk | code/k_nearest_neighbor.py:100-116 | the rows collected left to right: all values, in order, exactly when every row succeeds, otherwise the first failure |
| Knn.DistanceMatrix | code/k_nearest_neighbor.py:89-96 | the measure dispatch: row i of the fresh array is the distances from query i to every reference row under the chosen measure |
| Knn.RowLabelMeaning | code/k_nearest_neighbor.py:101-114 | a neighbour label set gives a label row as wide as the targets; it fails exactly when it is empty (NoNeighbours) or, for the mode, holds a negative value (NegativeLabel) |
| Knn.PredictionShape | code/k_nearest_neighbor.py:100-116 | an unrecognised aggregator gives no label rows; a successful prediction gives one label row per query row, as wide as the targets |
| Knn.PredictionSucceeds | code/k_nearest_neighbor.py:98-116 | with a neighbour to select (and non-negative targets for the mode) prediction succeeds; with query rows and none to select it fails with NoNeighbours |
| Knn.ModeLabelsAreTargets | code/k_nearest_neighbor.py:103-111 | every mode label is the target value of one of the query's selected neighbours |
| Knn.NearestSelfMatch | code/k_nearest_neighbor.py:64-116 | with one neighbour, a query equal to exactly one reference row is predicted that row's target, under every recognised aggregator |
| Knn.KNearestNeighbor.constructor | code/k_nearest_neighbor.py:5-43 | the settings are those given (Euclidean and mode by default) and nothing is fitted |
| Knn.KNearestNeighbor.Fit | code/k_nearest_neighbor.py:45-62 | the fitted features and targets are exactly the given ones, replacing any earlier ones |
| Knn.KNearestNeighbor.Predict | code/k_nearest_neighbor.py:64-116 | the result is the pure Prediction of the settings, the fitted state and the queries, whatever ignoreFirst is |
| Knn.KNearestNeighbor.Aggregate | code/k_nearest_neighbor.py:105-114 | the label row of one neighbour label set under the configured aggregator |
| Knn.KNearestNeighbor.GatherRows | code/k_nearest_neighbor.py:101-104 | the appended rows are the target rows at the selected indices, in selection order |
| Knn.KNearestNeighbor.ModeRow | code/k_nearest_neighbor.py:107-112 | the column-by-column count-and-argmax loop yields the per-column modes, or the first column's failure |
| Imputation.RowsWhere | code/collaborative_filtering.py:29-31 | the listed rows are ascending and are exactly the rows whose entry in column j is zero (or non-zero) |
| Imputation.SplitPartitions | code/collaborative_filtering.py:29-38 | the missing and the present rows together list every row once, and the training targets are non-zero |
| Imputation.SplitAligned | code/collaborative_filtering.py:33-42 | queries are as wide as training rows, and there is one one-wide target per training row |
| Imputation.Truncate | code/collaborative_filtering.py:46 | storing a label into the integer array truncates it toward zero |
| Imputation.ImputeColumn | code/collaborative_filtering.py:29-46 | imputing one column keeps the number of rows and the width |
| Imputation.ImputeColumns | code/collaborative_filtering.py:24-46 | imputing the columns in order keeps the number of rows and the width |
| Imputation.DefaultPredictionShape | code/collaborative_filtering.py:41-44 | a successful default prediction has one one-wide label row per missing row |
| Imputation.DefaultLabelsAreTargets | code/collaborative_filtering.py:41-44 | on non-negative data with a present row and k >= 1 the default prediction succeeds, and each label is a training target |
| Imputation.TargetIsPresent | code/collaborative_filtering.py:33-39 | a training target is an integer and one of the column's non-zero entries |
| Imputation.DefaultPredictorFills | code/collaborative_filtering.py:41-46 | on such data the default predictor gives one integer label per missing row, each one of the column's non-zero values |
| Imputation.DefaultLabelIsNearest | code/collaborative_filtering.py:41-44 | each label of a successful default prediction is an integer: the column-j value of one of the k present rows nearest to its missing row |
| Imputation.NearestTargetValue | code/collaborative_filtering.py:33-39 | the target of a present row selected for a missing row is that row's integer value in column j |
| Imputation.ImputedCellIsNearest | code/collaborative_filtering.py:41-46 | the cell written for the d-th missing row holds the column-j value of one of the k present rows nearest to it, by Euclidean distance over the other columns |
| Imputation.OneNeighbourSelected | code/collaborative_filtering.py:33-43 | a present row strictly nearest to a missing row (over the other columns) is the one neighbour selected for it when n_neighbors is 1 |
| Imputation.OneNeighbourImputesNearest | code/collaborative_filtering.py:25-46 | in the step for column j, with n_neighbors 1, on non-negative data, a missing cell whose row has a unique nearest present row is imputed with that row's value |
| Imputation.WriteBackCells | code/collaborative_filtering.py:45-46 | after the write-back, row index[d] of column j holds the d-th label truncated, and every other cell is unchanged |
| Imputation.ImputeColumnFrame | code/collaborative_filtering.py:29-46 | imputing a column changes only zero cells of that column, and writes the d-th label into the d-th missing row |
| Imputation.NoZeroColumnSkipped | code/collaborative_filtering.py:32 | a column without zeros is left as it is |
| Imputation.FilledFromPresent | code/collaborative_filtering.py:45-46 | after the write-back every cell of the column is one of its original non-zero entries, and the data stay non-negative |
| Imputation.ImputeColumnFills | code/collaborative_filtering.py:29-46 | with a predictor that fills the column, imputing it succeeds and every cell of the column becomes a present value |
| Imputation.FilledUpTo | code/collaborative_filtering.py:24-46 | once column j is filled over earlier columns without zeros, no column up to j holds a zero |
| Imputation.FailureIsFinal | code/collaborative_filtering.py:24-46 | a failure ends the run on the grid reached so far |
| Imputation.StepKeepsColumn | code/collaborative_filtering.py:24-46 | the step for column j leaves every other column of the array as it was |
| Imputation.ColumnStable | code/collaborative_filtering.py:24-46 | once column c is imputed, the steps for the later columns leave it as it is |
| Imputation.NoZerosBefore | code/collaborative_filtering.py:24-32 | an array without zeros in its first n columns comes through the steps for those columns unchanged |
| Imputation.NoZerosUnchanged | code/collaborative_filtering.py:24-48 | an array without zeros is returned unchanged |
| Imputation.ImputeColumnsFrame | code/collaborative_filtering.py:24-46 | after the first n columns, the later columns are as they were, and every cell that changed was zero at the start |
| Imputation.ImputeOnlyFillsZeros | code/collaborative_filtering.py:5-48 | the imputation keeps the shape and changes only cells that were zero |
| Imputation.ImputeFillsEveryZero | code/collaborative_filtering.py:24-46 | with a predictor that fills every column, the run succeeds and leaves the data non-negative, with no zero in the columns done |
| Imputation.DefaultFillsEveryZero | code/collaborative_filtering.py:5-48 | "any zeros will get imputed": on non-negative data with a non-zero entry in every column and k >= 1, the result is non-negative and has no zero |
| Imputation.ColumnFilledFromPresent | code/collaborative_filtering.py:24-46 | with a predictor that fills every column, the step for column j leaves in every row of the column one of its original non-zero entries |
| Imputation.ImputePresentValues | code/collaborative_filtering.py:24-46 | with such a predictor, every cell of the finished run is one of its column's original non-zero entries |
| Imputation.DefaultImputesPresentValues | code/collaborative_filtering.py:5-48 | on non-negative data with a non-zero entry in every column and k >= 1, every cell of the returned array is one of its column's original non-zero entries, so each zero is filled from its own column |
| Imputation.OnlyZeroImputedByNearest | code/collaborative_filtering.py:5-48 | with n_neighbors 1, on non-negative data whose only zero is at row i0 of column j, when one present row is strictly nearest to row i0 over the other columns, the returned array holds that row's column-j value at (i0, j) |
| Imputation.MissingIndex | code/collaborative_filtering.py:25-31 | the appended index list is the missing rows of column j, top to bottom |
| Imputation.WriteColumn | code/collaborative_filtering.py:45-46 | the array afterwards is the write-back of the labels, truncated, into rows index[0], index[1], ... of column j |
| Imputation.ImputeColumnInPlace | code/collaborative_filtering.py:25-46 | the array afterwards is the pure imputation of the column, or unchanged and the failure returned |
| Imputation.CollaborativeFiltering | code/collaborative_filtering.py:5-48 | the array afterwards is the pure column-by-column imputation of its contents; the same array is returned, or the failure that stopped the run |

## Left out

- Distances.EuclideanDistances: states the squared distance. The square root is left out; it is monotone, so neighbour selection, which only compares distances, is unaffected.
- Distances.CosineDistances: the cosine formula is not modelled. Its norms and square roots, and the division by zero for a zero-norm row, are floating-point arithmetic; the formula is a per-pair function value.
- Ranking.NeighboursNearest: assumes a stable argsort, where equal distances keep index order. numpy's default sort does not promise this, so the tie-break is a modelling assumption; the "k nearest" part does not depend on it.
- Floating point throughout: data are exact integers and labels exact reals. np.mean and np.median are their mathematical definitions.
- Integer arrays only: the imputed array is an integer array, so the write-back truncates toward zero (Imputation.Truncate). The mode's cast to int is the identity on integer targets, and truncating non-integer targets is not modelled.
- A mean or median over no neighbours gives NaN in numpy; the model reports NoNeighbours, as it does for the mode, whose indexing fails there.
- The model guards shapes more strictly than the code, with the single outcome ShapeMismatch (Knn.Aligned). It rejects every fit without exactly one target row per feature row, and every query whose width differs from that of the reference rows. The code accepts some of these inputs. `predict` reads only the targets at the selected indices (code/k_nearest_neighbor.py:104), so extra target rows, or missing ones that are never selected, give a result there. numpy broadcasts a one-wide row against a wider one at code/distances.py:19 and code/distances.py:39. None of this arises in the imputation, whose split is always aligned (Imputation.SplitAligned). Imputation.ImputeColumn also reports ShapeMismatch when a predictor returns more label rows than there are missing rows, or an empty label row; the default predictor never does (Imputation.DefaultPredictionShape).
- Integer overflow: on integer arrays the differences, squares, absolute values and sums at code/distances.py:19 and code/distances.py:39 are computed in 64-bit integers and wrap around silently. The model's integers are unbounded, so it describes only data whose distances fit in 64 bits.
- A negative `n_neighbors`, which numpy's slice would count from the end, is not modelled: the neighbour count is a natural number.
- Knn.KNearestNeighbor.Fit: stores the arrays as values. Aliasing between the fitted arrays and the caller's arrays is not modelled; the distance methods do not change their inputs, because these are values too.
- Knn.KNearestNeighbor.Predict: `ignoreFirst` is accepted and, as in the code, never used.
- Exceptions are failure results. When the imputation fails part way, the earlier columns stay imputed in the array, as they would when the exception propagates.
- The test harness and data loading are not part of this model.
