# Silhouette coefficient node: a Dafny model

This project models the core of the KNIME "Silhouette" node. For every row of a clustered table the node computes the Silhouette coefficient `s = (b - a) / max(a, b)`. Here `a` is the row's mean distance to the other rows of its own cluster, and `b` is the smallest mean distance to another cluster. The node appends the coefficients as a new double column and keeps them in an internal model. That model is a list of `InternalCluster`s: a name, one colour per member, the member rows and the member coefficients. The views and persistence read it.

The repository holds three revisions of the node model. All three are modelled:

- `SilhouetteNodeModel` (the current revision) groups rows by label in order of first appearance. It computes a lower-triangular Euclidean distance matrix over the included columns, then derives each row's per-cluster mean distances, its neighbour and its coefficient. It writes each coefficient back into the row's own cluster by row number. Its `configure` finds the label column by name, and `saveInternals`/`loadInternals` persist the cluster model as keyed settings.
- `SilhouetteNodeModel_o` (the original revision) loads the table into `InternalColumn`s. It cuts the sorted label column into runs of equal labels, coloured from a 20-entry palette, and computes the coefficients cluster by cluster with a nested loop. Its `configure` finds the label column by a signed index.
- `SilhouetteNodeModel2` is a streaming variant of the original. It closes a cluster when the label changes and walks the table with running iterators.

In the older revisions the distance between two rows can throw: on different dimension counts, and under Hamming on strings of different lengths. `LegacyEngine` computes their coefficients for a distance that always answers; `LegacyExecute` lists the pairs of rows the loops compare, in loop order, and proves that execution fails exactly when one of those distances throws and otherwise equals the computation from the answered values.

Around them the project models:

- `InternalCluster`: construction, the modal colour, `setCoefficient`, `getName`, and the exchange sort the views use;
- `InternalColumn`;
- `SilhouetteModel.getRowCount`;
- the cursor of `SilhouetteCellFactory`;
- the statistics table of `SilhouetteViewStatsPanel`: per-cluster average, root mean square, standard deviation, negative count and percentage, the average row, column extremes, and the five-band colour rating.

Floating-point values are modelled as `real`. `Math.sqrt`, `Math.pow` and the Apache string distances are parameters (the `Library` record). Properties that need them to behave hold under explicit assumptions: a lawful square root, a symmetric distance, a distance that is 0 on equal strings.

Module layout: `Wrappers` (Option/Result), `Errors`, `Library`, `Numbers` (Java's truncating remainder, decimal rendering, two-decimal rounding), `Sequences`, `InternalCluster`, `InternalColumn`, `SilhouetteModel`, `Grouping`, `Features`, `StringDistance`, `Distance`, `DistanceMatrix`, `Coefficient`, `CurrentEngine`, `LegacyEngine`, `LegacyExecute`, `Configure`, `Persistence`, `CellFactory`, `ViewStats`.

Where the code departs from the textbook silhouette definition, or from what a reader of the panel might expect, the model follows the code:

- **Neighbour choice.** In the textbook definition the neighbour is the nearest other cluster. The current revision skips every cluster whose mean distance merely equals the own mean, not just the row's own cluster (`Coefficient.NearestOtherMean`). When no cluster is left it falls back to `b = a`, which gives 0.
- **Singleton clusters.** In the textbook definition a member of a singleton cluster has coefficient 0. The original revision says so in a comment (`SilhouetteNodeModel_o.java` line 229), and the older revisions do return 0 (`LegacyEngine.LegacyCoefficient`). The current revision has no such case: a singleton row has `a = 0` and gets 1 as soon as any cluster lies at a positive mean distance (`CurrentEngine.SingletonCoefficientIsOne`).
- **Negative share.** The panel's column is a percentage ("% of S negative", `SilhouetteViewStatsPanel.java` line 25): the share of negative coefficients times 100 (`ViewStats.ClusterStatsNegatives`).
- **Average row.** The panel's "average cluster" row (`SilhouetteViewStatsPanel.java` line 28) is the plain mean of the cluster rows, not weighted by cluster size (`ViewStats.AverageIsUnweighted`).
- **Colours after saving.** `saveInternals` stores only the cluster's modal colour, so per-row colours do not survive a save: a reloaded cluster has that colour for every member (`Persistence.RebuildMeaning`).
- **Grouping order.** The three revisions group rows differently. The original revision cuts the label-sorted table into runs of adjacent equal labels (`Grouping.RunsDecompose`). The second revision opens a cluster at each label change but stores positions counted from the cluster's start, puts the first row of a new label into the previous cluster and never emits the last cluster (`Grouping.GroupChangesMisplacesBoundary`, `Grouping.GroupChangesDropsLastCluster`). Only the current revision groups by the first appearance of each label, whatever the row order (`Grouping.GroupByLabelPartition`).

## Model

| member | source | states |
|---|---|---|
| Coefficient.Silhouette | uk.ac.reading.cs.knime.silhouette/src/uk/ac/reading/cs/knime/silhouette/SilhouetteNodeModel.java:424-425 | The coefficient is 0 when a == b or max(a, b) is 0. For non-negative a and b it lies in [-1, 1], is positive exactly when b > a and negative exactly when b < a. |
| Coefficient.SilhouetteQuotient | uk.ac.reading.cs.knime.silhouette/src/uk/ac/reading/cs/knime/silhouette/SilhouetteNodeModel_o.java:373-374 | For non-negative a and b with a positive maximum, (b - a) / max(a, b) lies in [-1, 1] and has the sign of b - a. |
| Coefficient.NearestOtherMean | uk.ac.reading.cs.knime.silhouette/src/uk/ac/reading/cs/knime/silhouette/SilhouetteNodeModel.java:415-422 | The neighbour search finds nothing exactly when every cluster value equals the own value a. Otherwise its result is one of the cluster values, differs from a, and is no larger than any value that differs from a. |
| Coefficient.CurrentSilhouetteRange | uk.ac.reading.cs.knime.silhouette/src/uk/ac/reading/cs/knime/silhouette/SilhouetteNodeModel.java:415-425 | With non-negative means, the coefficient after the fallback b = a lies in [-1, 1]. |
| Coefficient.CurrentSilhouetteDegenerate | uk.ac.reading.cs.knime.silhouette/src/uk/ac/reading/cs/knime/silhouette/SilhouetteNodeModel.java:415-425 | When every cluster value equals a, b falls back to a and the coefficient is 0. |
| Coefficient.SilhouetteOfZeroOwn | uk.ac.reading.cs.knime.silhouette/src/uk/ac/reading/cs/knime/silhouette/SilhouetteNodeModel.java:424-425 | Own distance 0 and a positive neighbour distance give coefficient 1. |
| Coefficient.CurrentSilhouetteOfZeroOwn | uk.ac.reading.cs.knime.silhouette/src/uk/ac/reading/cs/knime/silhouette/SilhouetteNodeModel.java:415-425 | With a = 0 and some cluster at a positive mean distance, the coefficient is 1. |
| Coefficient.FirstMinimumIndex | uk.ac.reading.cs.knime.silhouette/src/uk/ac/reading/cs/knime/silhouette/SilhouetteNodeModel_o.java:313-367 | No neighbour exactly when no cluster other than the own has a mean. Otherwise the result is another cluster with a mean, no larger than any other cluster's mean and strictly smaller than every earlier one's: the strict comparison keeps the first minimum. |
| Coefficient.LegacySilhouette | uk.ac.reading.cs.knime.silhouette/src/uk/ac/reading/cs/knime/silhouette/SilhouetteNodeModel_o.java:313-374 | Without a usable neighbour the coefficient is 1, the value the Double.MAX_VALUE start of the minimum search produces. With non-negative means it lies in [-1, 1]. |
| Coefficient.LegacySilhouetteIgnoresOwn | uk.ac.reading.cs.knime.silhouette/src/uk/ac/reading/cs/knime/silhouette/SilhouetteNodeModel_o.java:320-367 | The own cluster's candidate mean never affects the neighbour chosen or the coefficient: two candidate lists that differ only there give the same result. |
| CurrentEngine.OtherRowsCount | uk.ac.reading.cs.knime.silhouette/src/uk/ac/reading/cs/knime/silhouette/SilhouetteNodeModel.java:386-392 | The number of rows that contribute to a cluster's value is the label's row count, less one when the row itself carries the label. |
| CurrentEngine.ClusterDistance | uk.ac.reading.cs.knime.silhouette/src/uk/ac/reading/cs/knime/silhouette/SilhouetteNodeModel.java:386-407 | The value accumulated for one cluster. Its meaning, the mean distance to the other rows with that label, is stated by `CurrentEngine.ClusterDistanceIsMean`. |
| CurrentEngine.OwnCluster | uk.ac.reading.cs.knime.silhouette/src/uk/ac/reading/cs/knime/silhouette/SilhouetteNodeModel.java:380-384 | When some cluster carries the label, the result is a cluster carrying it. Otherwise it is 0, the value the index array starts with. |
| CurrentEngine.RowCoefficient | uk.ac.reading.cs.knime.silhouette/src/uk/ac/reading/cs/knime/silhouette/SilhouetteNodeModel.java:370-425 | The coefficient of one row. Its range and sign are stated by `CurrentEngine.CoefficientRange`, and the singleton case by `CurrentEngine.SingletonCoefficientIsOne`. |
| CurrentEngine.StoreRows | uk.ac.reading.cs.knime.silhouette/src/uk/ac/reading/cs/knime/silhouette/SilhouetteNodeModel.java:427 | Writing back keeps the cluster count, every cluster's members and one coefficient per member. Where each coefficient lands is stated by `CurrentEngine.StoreRowsPlacesCoefficients`. |
| CurrentEngine.ClusterDistanceIsQuotient | uk.ac.reading.cs.knime.silhouette/src/uk/ac/reading/cs/knime/silhouette/SilhouetteNodeModel.java:386-407 | Adding each distance divided by the cluster size (less one for the own label) equals dividing the summed distances once by that divisor. |
| CurrentEngine.ClusterDistanceIsMean | uk.ac.reading.cs.knime.silhouette/src/uk/ac/reading/cs/knime/silhouette/SilhouetteNodeModel.java:372-413 | For every label, the value accumulated for row i is the mean distance from i to the other rows with that label. The divisor equals the number of terms added. |
| CurrentEngine.ClusterDistancesAreMeans | uk.ac.reading.cs.knime.silhouette/src/uk/ac/reading/cs/knime/silhouette/SilhouetteNodeModel.java:370-415 | The values the coefficient sees are the per-cluster mean distances in cluster order. The row's own cluster exists and carries its label, so its value is a. |
| CurrentEngine.MeanDistanceNonNegative | uk.ac.reading.cs.knime.silhouette/src/uk/ac/reading/cs/knime/silhouette/SilhouetteNodeModel.java:386-407 | Non-negative distances give non-negative mean distances. |
| CurrentEngine.Execute | uk.ac.reading.cs.knime.silhouette/src/uk/ac/reading/cs/knime/silhouette/SilhouetteNodeModel.java:264-431 | An empty table is an error: the label cell stays null and the type test after the grouping loop (line 324) dereferences it. Any other table gets one appended coefficient per row and one cluster per distinct label. |
| CurrentEngine.CoefficientRange | uk.ac.reading.cs.knime.silhouette/src/uk/ac/reading/cs/knime/silhouette/SilhouetteNodeModel.java:354-428 | With non-negative distances every appended coefficient lies in [-1, 1]. It is positive exactly when the neighbour mean exceeds the own mean and negative exactly when it is below it. |
| CurrentEngine.SingletonCoefficientIsOne | uk.ac.reading.cs.knime.silhouette/src/uk/ac/reading/cs/knime/silhouette/SilhouetteNodeModel.java:386-425 | A row alone in its cluster gets coefficient 1 as soon as some cluster lies at a positive mean distance from it. |
| CurrentEngine.OwnClusterUnique | uk.ac.reading.cs.knime.silhouette/src/uk/ac/reading/cs/knime/silhouette/SilhouetteNodeModel.java:380-384 | With distinct cluster names, the own-cluster search finds the one cluster carrying the label. |
| CurrentEngine.GroupingReady | uk.ac.reading.cs.knime.silhouette/src/uk/ac/reading/cs/knime/silhouette/SilhouetteNodeModel.java:272-335 | The first-seen grouping gives clusters with distinct names and increasing members carrying the cluster's label, one coefficient slot per member: what the write-back needs. |
| CurrentEngine.GroupingIncreasing | uk.ac.reading.cs.knime.silhouette/src/uk/ac/reading/cs/knime/silhouette/SilhouetteNodeModel.java:272-321 | Every cluster lists its rows in strictly increasing order. |
| CurrentEngine.GroupingOwnRowAt | uk.ac.reading.cs.knime.silhouette/src/uk/ac/reading/cs/knime/silhouette/SilhouetteNodeModel.java:380-384 | Row i's own cluster exists, carries i's label and lists i as a member. |
| CurrentEngine.GroupingOwnRows | uk.ac.reading.cs.knime.silhouette/src/uk/ac/reading/cs/knime/silhouette/SilhouetteNodeModel.java:380-384 | The same for every row of the table. |
| CurrentEngine.StoreRowsOneCluster | uk.ac.reading.cs.knime.silhouette/src/uk/ac/reading/cs/knime/silhouette/SilhouetteNodeModel.java:427 | Writing every row's coefficient into its own cluster leaves cluster k as if only the rows belonging to k had been written into it. |
| CurrentEngine.StoreOwnPlaces | uk.ac.reading.cs.knime.silhouette/src/uk/ac/reading/cs/knime/silhouette/SilhouetteNodeModel.java:427 | In a cluster with increasing members, after rows 0..n-1 are written, a member whose row is below n holds that row's coefficient and any other member keeps its value. |
| CurrentEngine.StoreRowsPlacesCoefficients | uk.ac.reading.cs.knime.silhouette/src/uk/ac/reading/cs/knime/silhouette/SilhouetteNodeModel.java:427 | The same holds for every member of every cluster at once. |
| CurrentEngine.ExecuteStoresEveryCoefficient | uk.ac.reading.cs.knime.silhouette/src/uk/ac/reading/cs/knime/silhouette/SilhouetteNodeModel.java:354-431 | After execution every member of every cluster holds exactly the coefficient appended for its row. |
| Distance.Wrap32 | uk.ac.reading.cs.knime.silhouette/src/uk/ac/reading/cs/knime/silhouette/SilhouetteNodeModel.java:478 | An int difference is reduced to the 32-bit range and stays congruent to the true difference modulo 2^32. |
| Distance.WrappedSquare | uk.ac.reading.cs.knime.silhouette/src/uk/ac/reading/cs/knime/silhouette/SilhouetteNodeModel.java:478 | The square of the wrapped int difference is non-negative. |
| Distance.EuclideanDistance | uk.ac.reading.cs.knime.silhouette/src/uk/ac/reading/cs/knime/silhouette/SilhouetteNodeModel.java:455-482 | String, double and int dimension counts are checked in that order and the first mismatch is the error. Otherwise the result is an error exactly when the Hamming distance meets strings of unequal length. If not, it is the square root of the summed squared per-dimension differences, and non-negative under a lawful square root. |
| Distance.StringTermsOk | uk.ac.reading.cs.knime.silhouette/src/uk/ac/reading/cs/knime/silhouette/SilhouetteNodeModel.java:472-473 | The string part fails exactly when a Hamming pair differs in length; otherwise it is non-negative. |
| Distance.DistanceSymmetric | uk.ac.reading.cs.knime.silhouette/src/uk/ac/reading/cs/knime/silhouette/SilhouetteNodeModel.java:455-482 | For a symmetric string distance, swapping the two vectors fails in the same cases and otherwise gives the same distance. |
| Distance.DistanceToSelf | uk.ac.reading.cs.knime.silhouette/src/uk/ac/reading/cs/knime/silhouette/SilhouetteNodeModel.java:455-482 | For a string distance that is 0 on equal strings, every vector is at distance 0 from itself. |
| StringDistance.SelectMethod | uk.ac.reading.cs.knime.silhouette/src/uk/ac/reading/cs/knime/silhouette/SilhouetteNodeModel.java:498-517 | Each of the five method names selects its method, and any other setting falls back to Levenshtein. |
| StringDistance.Distance | uk.ac.reading.cs.knime.silhouette/src/uk/ac/reading/cs/knime/silhouette/SilhouetteNodeModel.java:498-517 | Hamming on strings of different Java lengths is an error carrying both lengths. Every other case is the chosen routine's answer. |
| StringDistance.Utf16Length | uk.ac.reading.cs.knime.silhouette/src/uk/ac/reading/cs/knime/silhouette/SilhouetteNodeModel.java:508 | Java's `length()` counts UTF-16 code units: at least one and at most two per character. |
| StringDistance.Utf16LengthBmp | uk.ac.reading.cs.knime.silhouette/src/uk/ac/reading/cs/knime/silhouette/SilhouetteNodeModel.java:508 | The Java length equals the number of characters exactly when every character lies in the Basic Multilingual Plane. |
| StringDistance.HammingCountsCodeUnits | uk.ac.reading.cs.knime.silhouette/src/uk/ac/reading/cs/knime/silhouette/SilhouetteNodeModel.java:508-509 | An emoji and two letters have the same Java length, so Hamming compares them; an emoji and one letter do not. |
| StringDistance.DistanceSymmetric | uk.ac.reading.cs.knime.silhouette/src/uk/ac/reading/cs/knime/silhouette/SilhouetteNodeModel.java:498-517 | For a symmetric routine both argument orders fail together and otherwise agree. |
| Features.Extract | uk.ac.reading.cs.knime.silhouette/src/uk/ac/reading/cs/knime/silhouette/SilhouetteNodeModel.java:187-206 | A row's feature vector has one string, double or int entry per included non-label column of that type. |
| Features.LabelColumnIgnored | uk.ac.reading.cs.knime.silhouette/src/uk/ac/reading/cs/knime/silhouette/SilhouetteNodeModel.java:187-206 | Changing the label cell never changes the feature vector. |
| Features.SameSchemaSameDimensions | uk.ac.reading.cs.knime.silhouette/src/uk/ac/reading/cs/knime/silhouette/SilhouetteNodeModel.java:187-206 | Two rows whose cells agree in type column by column give vectors of equal dimension counts, so the distance's dimension checks pass. |
| Features.ExtractAll | uk.ac.reading.cs.knime.silhouette/src/uk/ac/reading/cs/knime/silhouette/SilhouetteNodeModel_o.java:244-263 | The feature vector over every column but the label column, for the revisions without a column filter. `InternalColumn.ImportedRowVector` states that the original revision reads exactly this back. |
| DistanceMatrix.DistancesToEarlier | uk.ac.reading.cs.knime.silhouette/src/uk/ac/reading/cs/knime/silhouette/SilhouetteNodeModel.java:220-247 | Row i of the matrix has exactly i entries, and entry j is the distance between rows i and j. A failure is the failure of one such pair. |
| DistanceMatrix.BuildMatrix | uk.ac.reading.cs.knime.silhouette/src/uk/ac/reading/cs/knime/silhouette/SilhouetteNodeModel.java:208-249 | The matrix is lower-triangular with one row per table row and stores every pairwise distance. A failure is the failure of some pair. |
| DistanceMatrix.LookupSymmetric | uk.ac.reading.cs.knime.silhouette/src/uk/ac/reading/cs/knime/silhouette/SilhouetteNodeModel.java:386-407 | Reading a pair's distance in either order gives the same value, taken from the lower triangle. |
| DistanceMatrix.MatrixNonNegative | uk.ac.reading.cs.knime.silhouette/src/uk/ac/reading/cs/knime/silhouette/SilhouetteNodeModel.java:208-249 | Under a lawful square root every stored distance is non-negative. |
| Grouping.FindBlock | uk.ac.reading.cs.knime.silhouette/src/uk/ac/reading/cs/knime/silhouette/SilhouetteNodeModel.java:284-285 | Finds a cluster with the given name when there is one, and reports none exactly when no cluster has that name. |
| Grouping.FirstSeen | uk.ac.reading.cs.knime.silhouette/src/uk/ac/reading/cs/knime/silhouette/SilhouetteNodeModel.java:272-321 | The grouping loop over the first n rows. What it builds is stated by `Grouping.FirstSeenGroupsByLabel`. |
| Grouping.GroupByLabel | uk.ac.reading.cs.knime.silhouette/src/uk/ac/reading/cs/knime/silhouette/SilhouetteNodeModel.java:272-321 | The current revision's grouping of the whole table. Its partition property is stated by `Grouping.GroupByLabelPartition`. |
| Grouping.RowsWithLabelIncreasing | uk.ac.reading.cs.knime.silhouette/src/uk/ac/reading/cs/knime/silhouette/SilhouetteNodeModel.java:284-298 | The rows collected for a label appear in increasing order. |
| Grouping.FirstSeenGroupsByLabel | uk.ac.reading.cs.knime.silhouette/src/uk/ac/reading/cs/knime/silhouette/SilhouetteNodeModel.java:272-321 | After every prefix of rows the clusters have distinct names, appear in order of first appearance, and are coloured by their first row. Each holds exactly the prefix rows with its label. |
| Grouping.GroupByLabelPartition | uk.ac.reading.cs.knime.silhouette/src/uk/ac/reading/cs/knime/silhouette/SilhouetteNodeModel.java:272-321 | Row i is a member of a cluster exactly when its label is that cluster's name, and every row is found in the cluster its label names. |
| Grouping.GroupByLabelCovers | uk.ac.reading.cs.knime.silhouette/src/uk/ac/reading/cs/knime/silhouette/SilhouetteNodeModel.java:272-321 | Every row is a member of the cluster its label names. |
| Grouping.ToClusters | uk.ac.reading.cs.knime.silhouette/src/uk/ac/reading/cs/knime/silhouette/SilhouetteNodeModel.java:324-332 | Each cluster keeps its block's name and rows and has one colour and one coefficient per member. Its modal colour is the block's colour. |
| Grouping.RunsDecompose | uk.ac.reading.cs.knime.silhouette/src/uk/ac/reading/cs/knime/silhouette/SilhouetteNodeModel_o.java:181-207 | The run grouping cuts rows 0..n-1 into consecutive increasing runs of one label each that together tile the rows. Neighbouring runs have different labels, and run c gets palette colour c mod 20. |
| Grouping.GroupRuns | uk.ac.reading.cs.knime.silhouette/src/uk/ac/reading/cs/knime/silhouette/SilhouetteNodeModel_o.java:181-207 | The original revision's grouping of the whole table. Its run decomposition is stated by `Grouping.RunsDecompose` and `Grouping.ScanRuns`. |
| Grouping.LastRunEnds | uk.ac.reading.cs.knime.silhouette/src/uk/ac/reading/cs/knime/silhouette/SilhouetteNodeModel_o.java:202-206 | The last run ends at the last row and carries its label. |
| Grouping.RunsNext | uk.ac.reading.cs.knime.silhouette/src/uk/ac/reading/cs/knime/silhouette/SilhouetteNodeModel_o.java:190-200 | A row whose label differs from the previous one opens a run with the next palette colour; any other row extends the last run. |
| Grouping.ScanAdvance | uk.ac.reading.cs.knime.silhouette/src/uk/ac/reading/cs/knime/silhouette/SilhouetteNodeModel_o.java:190-206 | One pass of the loop keeps the emitted clusters plus the open one equal to the run grouping of the rows seen so far. The open cluster takes the next palette colour exactly when the label changes. |
| Grouping.ScanRuns | uk.ac.reading.cs.knime.silhouette/src/uk/ac/reading/cs/knime/silhouette/SilhouetteNodeModel_o.java:181-207 | The grouping loop emits exactly the run grouping of the whole label column. |
| Grouping.ScanChanges | uk.ac.reading.cs.knime.silhouette/src/uk/ac/reading/cs/knime/silhouette/SilhouetteNodeModel2.java:155-178 | The scan fails exactly on a one-row table, where the previous label is still null. Otherwise every row is counted once and every member entry is a position inside its own cluster. |
| Grouping.GroupChanges | uk.ac.reading.cs.knime.silhouette/src/uk/ac/reading/cs/knime/silhouette/SilhouetteNodeModel2.java:147-178 | The same for the whole table: an error for one row, otherwise entries that total the row count and are local positions. |
| Grouping.ChangesOfABB | uk.ac.reading.cs.knime.silhouette/src/uk/ac/reading/cs/knime/silhouette/SilhouetteNodeModel2.java:147-178 | The change-driven grouping of labels A, B, B is A = {0, 1}, B = {0}. |
| Grouping.RunsOfABB | uk.ac.reading.cs.knime.silhouette/src/uk/ac/reading/cs/knime/silhouette/SilhouetteNodeModel_o.java:181-207 | The run grouping of labels A, B, B is A = {0}, B = {1, 2}. |
| Grouping.GroupChangesMisplacesBoundary | uk.ac.reading.cs.knime.silhouette/src/uk/ac/reading/cs/knime/silhouette/SilhouetteNodeModel2.java:164-177 | On labels A, B, B the change-driven grouping puts the first B row into A and stores positions instead of row numbers, where the runs are A = {0}, B = {1, 2}. |
| Grouping.GroupChangesDropsLastCluster | uk.ac.reading.cs.knime.silhouette/src/uk/ac/reading/cs/knime/silhouette/SilhouetteNodeModel2.java:164-177 | On labels A, B the change-driven grouping emits only cluster A, holding two entries, while the run grouping has two clusters. |
| InternalCluster.Named | uk.ac.reading.cs.knime.silhouette/src/uk/ac/reading/cs/knime/silhouette/InternalCluster.java:78-83 | A named cluster keeps the given colours and members and starts with one 0.0 coefficient per member. |
| InternalCluster.NamedWithCoefficients | uk.ac.reading.cs.knime.silhouette/src/uk/ac/reading/cs/knime/silhouette/InternalCluster.java:93-98 | A named cluster built with coefficients reports the given name and keeps the given colours, members and coefficients. |
| InternalCluster.Numbered | uk.ac.reading.cs.knime.silhouette/src/uk/ac/reading/cs/knime/silhouette/InternalCluster.java:106-111 | A numbered cluster has no string name, keeps the given colours and members and starts with one 0.0 coefficient per member. |
| InternalCluster.NumberedWithCoefficients | uk.ac.reading.cs.knime.silhouette/src/uk/ac/reading/cs/knime/silhouette/InternalCluster.java:120-125 | A numbered cluster built with coefficients reports the decimal number as its name and keeps the given colours, members and coefficients. |
| InternalCluster.GetName | uk.ac.reading.cs.knime.silhouette/src/uk/ac/reading/cs/knime/silhouette/InternalCluster.java:180-183 | The string name when there is one, otherwise the decimal rendering of the number. |
| InternalCluster.NumberedNamesDistinct | uk.ac.reading.cs.knime.silhouette/src/uk/ac/reading/cs/knime/silhouette/InternalCluster.java:180-183 | Numbered clusters with different numbers have different names. |
| InternalCluster.FirstMostFrequent | uk.ac.reading.cs.knime.silhouette/src/uk/ac/reading/cs/knime/silhouette/InternalCluster.java:63-66 | The chosen position has the highest count among the positions scanned, strictly higher than every earlier position. |
| InternalCluster.GetColor | uk.ac.reading.cs.knime.silhouette/src/uk/ac/reading/cs/knime/silhouette/InternalCluster.java:44-69 | No colour exactly when the colour array is empty, where the source fails on an empty list. Otherwise the earliest mode: a colour of maximal count that occurs before every other colour of that count. |
| InternalCluster.EarliestModeUnique | uk.ac.reading.cs.knime.silhouette/src/uk/ac/reading/cs/knime/silhouette/InternalCluster.java:44-69 | The earliest mode is unique, so the colour is determined by the colour array. |
| InternalCluster.PositionOf | uk.ac.reading.cs.knime.silhouette/src/uk/ac/reading/cs/knime/silhouette/InternalCluster.java:171-176 | The first member position holding row i, and none exactly when i is not a member. |
| InternalCluster.WriteCoefficient | uk.ac.reading.cs.knime.silhouette/src/uk/ac/reading/cs/knime/silhouette/InternalCluster.java:170-178 | When i is no member nothing changes. Otherwise the coefficient at the first position holding i becomes v and all else is unchanged. It is an index error exactly when that position lies past the coefficient array. |
| InternalCluster.SetCoefficient | uk.ac.reading.cs.knime.silhouette/src/uk/ac/reading/cs/knime/silhouette/InternalCluster.java:170-178 | The search loop computes exactly WriteCoefficient. |
| InternalCluster.StoreWritesAt | uk.ac.reading.cs.knime.silhouette/src/uk/ac/reading/cs/knime/silhouette/InternalCluster.java:170-178 | In a cluster with increasing members, writing row i changes member p exactly when p's row is i. |
| InternalCluster.StoreWritesMember | uk.ac.reading.cs.knime.silhouette/src/uk/ac/reading/cs/knime/silhouette/InternalCluster.java:170-178 | The same for every member at once. |
| InternalCluster.Swap | uk.ac.reading.cs.knime.silhouette/src/uk/ac/reading/cs/knime/silhouette/InternalCluster.java:139-149 | Exchanging two entries keeps the others and the multiset of entries. |
| InternalCluster.ExchangeSort | uk.ac.reading.cs.knime.silhouette/src/uk/ac/reading/cs/knime/silhouette/InternalCluster.java:130-156 | The nested exchange loop returns a permutation of its input in non-increasing coefficient order. |
| InternalCluster.Sort | uk.ac.reading.cs.knime.silhouette/src/uk/ac/reading/cs/knime/silhouette/InternalCluster.java:130-163 | Sorting keeps the cluster's name and permutes its (row, colour, coefficient) triples together into descending coefficient order. |
| InternalColumn.CreateIntegerColumn | uk.ac.reading.cs.knime.silhouette/src/uk/ac/reading/cs/knime/silhouette/InternalColumn.java:44-49 | A new integer column is empty and tagged INT. |
| InternalColumn.CreateDoubleColumn | uk.ac.reading.cs.knime.silhouette/src/uk/ac/reading/cs/knime/silhouette/InternalColumn.java:56-61 | A new double column is empty and tagged DOUBLE. |
| InternalColumn.CreateStringColumn | uk.ac.reading.cs.knime.silhouette/src/uk/ac/reading/cs/knime/silhouette/InternalColumn.java:68-73 | A new string column is empty and tagged STRING. |
| InternalColumn.GetCell | uk.ac.reading.cs.knime.silhouette/src/uk/ac/reading/cs/knime/silhouette/InternalColumn.java:83-85 | Reading succeeds exactly for an index inside the cells and is an index error otherwise. |
| InternalColumn.AddCell | uk.ac.reading.cs.knime.silhouette/src/uk/ac/reading/cs/knime/silhouette/InternalColumn.java:87-89 | Appending one cell. Its effect is stated by `InternalColumn.AddCellAppends`. |
| InternalColumn.SetType | uk.ac.reading.cs.knime.silhouette/src/uk/ac/reading/cs/knime/silhouette/InternalColumn.java:91-93 | Replacing the type tag. Its effect is stated by `InternalColumn.TagIndependentOfCells`. |
| InternalColumn.GetType | uk.ac.reading.cs.knime.silhouette/src/uk/ac/reading/cs/knime/silhouette/InternalColumn.java:95-97 | Reading the type tag back, stated with `SetType` by `InternalColumn.TagIndependentOfCells`. |
| InternalColumn.AddCellAppends | uk.ac.reading.cs.knime.silhouette/src/uk/ac/reading/cs/knime/silhouette/InternalColumn.java:87-89 | Adding a cell makes it readable at the old length and leaves the earlier cells and the tag unchanged. |
| InternalColumn.TagIndependentOfCells | uk.ac.reading.cs.knime.silhouette/src/uk/ac/reading/cs/knime/silhouette/InternalColumn.java:91-97 | Setting the type is read back by getType and leaves the cells alone. |
| InternalColumn.GetAppended | uk.ac.reading.cs.knime.silhouette/src/uk/ac/reading/cs/knime/silhouette/InternalColumn.java:83-89 | A column built by appending values returns the i-th appended value at index i and keeps its factory tag. |
| InternalColumn.ColumnsFor | uk.ac.reading.cs.knime.silhouette/src/uk/ac/reading/cs/knime/silhouette/SilhouetteNodeModel_o.java:521-541 | Configuration creates one empty column with the matching tag per string, int or double column and leaves other columns unset. |
| InternalColumn.Place | uk.ac.reading.cs.knime.silhouette/src/uk/ac/reading/cs/knime/silhouette/SilhouetteNodeModel_o.java:164-174 | A cell goes to the end of column j, which fails exactly when j is past the columns or the column is unset. |
| InternalColumn.Step | uk.ac.reading.cs.knime.silhouette/src/uk/ac/reading/cs/knime/silhouette/SilhouetteNodeModel_o.java:159-176 | A missing cell aborts the import with a missing-value error. |
| InternalColumn.LoadRow | uk.ac.reading.cs.knime.silhouette/src/uk/ac/reading/cs/knime/silhouette/SilhouetteNodeModel_o.java:156-177 | Importing the first t cells of one row. Its effect is stated by `InternalColumn.LoadRowPrefix` and `InternalColumn.MissingAbortsRow`. |
| InternalColumn.LoadTable | uk.ac.reading.cs.knime.silhouette/src/uk/ac/reading/cs/knime/silhouette/SilhouetteNodeModel_o.java:150-179 | Importing the whole table. Its effect is stated by `InternalColumn.LoadTableColumns` and `InternalColumn.MissingCellAborts`. |
| InternalColumn.LoadRowPrefix | uk.ac.reading.cs.knime.silhouette/src/uk/ac/reading/cs/knime/silhouette/SilhouetteNodeModel_o.java:156-177 | Importing the first t cells of a row appends each to its column, leaves the later columns alone and advances the column cursor, wrapping at the row end. |
| InternalColumn.LoadRowsColumns | uk.ac.reading.cs.knime.silhouette/src/uk/ac/reading/cs/knime/silhouette/SilhouetteNodeModel_o.java:150-179 | After r well-shaped rows, column j holds its initial cells followed by the j-th cell of each row. |
| InternalColumn.LoadTableColumns | uk.ac.reading.cs.knime.silhouette/src/uk/ac/reading/cs/knime/silhouette/SilhouetteNodeModel_o.java:150-179 | Importing a well-shaped table turns each column into the table's column, tag unchanged. |
| InternalColumn.MissingAbortsRow | uk.ac.reading.cs.knime.silhouette/src/uk/ac/reading/cs/knime/silhouette/SilhouetteNodeModel_o.java:160-163 | A missing cell within the imported part of a row aborts the row. |
| InternalColumn.MissingAbortsRows | uk.ac.reading.cs.knime.silhouette/src/uk/ac/reading/cs/knime/silhouette/SilhouetteNodeModel_o.java:160-163 | A missing cell in any imported row aborts the import. |
| InternalColumn.MissingCellAborts | uk.ac.reading.cs.knime.silhouette/src/uk/ac/reading/cs/knime/silhouette/SilhouetteNodeModel_o.java:160-163 | A table with a missing cell anywhere is not imported. |
| InternalColumn.TypedCell | uk.ac.reading.cs.knime.silhouette/src/uk/ac/reading/cs/knime/silhouette/SilhouetteNodeModel_o.java:249-259 | Reading a cell back with the column's declared type succeeds exactly when the row is inside the column and the cell has that type. Then it is the stored cell; past the end it is an index error. |
| InternalColumn.ColumnVector | uk.ac.reading.cs.knime.silhouette/src/uk/ac/reading/cs/knime/silhouette/SilhouetteNodeModel_o.java:244-263 | Reading a row back out of the columns, label column skipped. If it succeeds, every other column was set up. |
| InternalColumn.ColumnVectorFails | uk.ac.reading.cs.knime.silhouette/src/uk/ac/reading/cs/knime/silhouette/SilhouetteNodeModel_o.java:244-263 | On columns readable at that row, the read fails exactly when a non-label column is unset, and then with a null dereference (`getType` on null, line 249). |
| InternalColumn.ImportedRowVector | uk.ac.reading.cs.knime.silhouette/src/uk/ac/reading/cs/knime/silhouette/SilhouetteNodeModel_o.java:150-263 | For a table of one schema with supported column types, the import succeeds, and reading row r back gives the row's feature vector over all non-label columns (`Features.ExtractAll`). |
| LegacyEngine.OwnSumSkipsOne | uk.ac.reading.cs.knime.silhouette/src/uk/ac/reading/cs/knime/silhouette/SilhouetteNodeModel_o.java:276-308 | The own-cluster sum is the sum over all members less the row's distance to itself at its own position. |
| LegacyEngine.NeighbourMean | uk.ac.reading.cs.knime.silhouette/src/uk/ac/reading/cs/knime/silhouette/SilhouetteNodeModel_o.java:320-359 | There is no mean exactly when the divisor is 0. Otherwise the mean times the divisor is the summed distance to the cluster's members. |
| LegacyEngine.Means | uk.ac.reading.cs.knime.silhouette/src/uk/ac/reading/cs/knime/silhouette/SilhouetteNodeModel_o.java:320-367 | The candidate means, one per cluster, seen from one row. What each entry means is stated by `LegacyEngine.MeansMeaning` and `LegacyEngine.MeansNonNegative`. |
| LegacyEngine.MeansMeaning | uk.ac.reading.cs.knime.silhouette/src/uk/ac/reading/cs/knime/silhouette/SilhouetteNodeModel_o.java:320-359 | A cluster has no mean exactly when its divisor is 0. Otherwise its mean times the divisor is the summed distance from the row to the cluster's members. |
| LegacyEngine.LegacyCoefficient | uk.ac.reading.cs.knime.silhouette/src/uk/ac/reading/cs/knime/silhouette/SilhouetteNodeModel_o.java:229-236 | A member of a singleton cluster gets exactly 0. |
| LegacyEngine.OwnMeanNonNegative | uk.ac.reading.cs.knime.silhouette/src/uk/ac/reading/cs/knime/silhouette/SilhouetteNodeModel_o.java:276-311 | With non-negative distances the own mean of a cluster of two or more is non-negative. |
| LegacyEngine.MeansNonNegative | uk.ac.reading.cs.knime.silhouette/src/uk/ac/reading/cs/knime/silhouette/SilhouetteNodeModel_o.java:320-359 | With non-negative distances every neighbour mean that exists is non-negative. |
| LegacyEngine.LegacyCoefficientRange | uk.ac.reading.cs.knime.silhouette/src/uk/ac/reading/cs/knime/silhouette/SilhouetteNodeModel_o.java:220-378 | With non-negative distances every coefficient of the original revision lies in [-1, 1]. |
| LegacyEngine.LegacyCoefficientSign | uk.ac.reading.cs.knime.silhouette/src/uk/ac/reading/cs/knime/silhouette/SilhouetteNodeModel_o.java:311-374 | For a member of a cluster of two or more with a neighbour, the coefficient is positive exactly when the first smallest neighbour mean exceeds the own mean, and negative exactly when it is below it. |
| LegacyEngine.MembersDivisorIsMean | uk.ac.reading.cs.knime.silhouette/src/uk/ac/reading/cs/knime/silhouette/SilhouetteNodeModel_o.java:359 | Dividing by the neighbour's size always yields a mean, and constant distances c yield exactly c. |
| LegacyEngine.MembersMinusOneInflatesNeighbour | uk.ac.reading.cs.knime.silhouette/src/uk/ac/reading/cs/knime/silhouette/SilhouetteNodeModel_o.java:359 | With unit distances and two clusters of two rows, the size-minus-one divisor gives coefficient 0.5 where the size divisor gives 0. |
| LegacyEngine.StoreByPosition | uk.ac.reading.cs.knime.silhouette/src/uk/ac/reading/cs/knime/silhouette/SilhouetteNodeModel_o.java:377 | The write-back as written keeps every member and one coefficient per member. Where each coefficient lands is stated by `LegacyEngine.StoreByPositionPlaces`. |
| LegacyEngine.StoreByRow | uk.ac.reading.cs.knime.silhouette/src/uk/ac/reading/cs/knime/silhouette/SilhouetteNodeModel_o.java:377 | The intended write-back keeps every member and one coefficient per member. Where each coefficient lands is stated by `LegacyEngine.StoreByRowPlaces`. |
| LegacyEngine.StoreByPositionPlacesAt | uk.ac.reading.cs.knime.silhouette/src/uk/ac/reading/cs/knime/silhouette/SilhouetteNodeModel_o.java:377 | Passing the loop position as the row number leaves at member q the coefficient computed at the position equal to q's row, if that position was visited. Otherwise the member keeps its value. |
| LegacyEngine.StoreByPositionPlaces | uk.ac.reading.cs.knime.silhouette/src/uk/ac/reading/cs/knime/silhouette/SilhouetteNodeModel_o.java:377 | The same for every member at once. |
| LegacyEngine.StoreByRowPlacesAt | uk.ac.reading.cs.knime.silhouette/src/uk/ac/reading/cs/knime/silhouette/SilhouetteNodeModel_o.java:377 | Passing the member's row number leaves at member q the coefficient computed for q once q has been visited. |
| LegacyEngine.StoreByRowPlaces | uk.ac.reading.cs.knime.silhouette/src/uk/ac/reading/cs/knime/silhouette/SilhouetteNodeModel_o.java:377 | The same for every member at once. |
| LegacyEngine.PositionWriteLosesCoefficients | uk.ac.reading.cs.knime.silhouette/src/uk/ac/reading/cs/knime/silhouette/SilhouetteNodeModel_o.java:377 | A cluster of rows 2, 3, 4 with coefficients 0.5, 0.25, 0.75 ends up holding 0.75, 0, 0. |
| LegacyEngine.RowWriteKeepsCoefficients | uk.ac.reading.cs.knime.silhouette/src/uk/ac/reading/cs/knime/silhouette/SilhouetteNodeModel_o.java:377 | The same cluster written by row number holds 0.5, 0.25, 0.75. |
| LegacyEngine.RunsIncreasing | uk.ac.reading.cs.knime.silhouette/src/uk/ac/reading/cs/knime/silhouette/SilhouetteNodeModel_o.java:181-207 | Run members are increasing rows. |
| LegacyEngine.OriginalCoefficients | uk.ac.reading.cs.knime.silhouette/src/uk/ac/reading/cs/knime/silhouette/SilhouetteNodeModel_o.java:220-378 | One coefficient per member of the cluster, each computed for that member's own row. |
| LegacyEngine.OriginalCompute | uk.ac.reading.cs.knime.silhouette/src/uk/ac/reading/cs/knime/silhouette/SilhouetteNodeModel_o.java:181-379 | One cluster per run of equal labels. The coefficients it stores by position are stated by `LegacyEngine.StoreByPositionPlaces` and `LegacyEngine.PositionWriteLosesCoefficients`. |
| LegacyEngine.OriginalComputeFixed | uk.ac.reading.cs.knime.silhouette/src/uk/ac/reading/cs/knime/silhouette/SilhouetteNodeModel_o.java:181-379 | One cluster per run of equal labels. The coefficients it stores by row are stated by `LegacyEngine.OriginalFixedStoresEveryCoefficient`. |
| LegacyEngine.OriginalFixedStoresEveryCoefficient | uk.ac.reading.cs.knime.silhouette/src/uk/ac/reading/cs/knime/silhouette/SilhouetteNodeModel_o.java:218-379 | With the write-back by row number, every member of every run holds the coefficient computed for it. |
| LegacyEngine.SecondCompute | uk.ac.reading.cs.knime.silhouette/src/uk/ac/reading/cs/knime/silhouette/SilhouetteNodeModel2.java:130-394 | For a distance that always answers, the streaming revision fails exactly on a one-row table. Otherwise it yields the change-driven clusters with their computed coefficients. The distance's own exceptions are added by `LegacyExecute.SecondExecute`. |
| LegacyEngine.SecondClusters | uk.ac.reading.cs.knime.silhouette/src/uk/ac/reading/cs/knime/silhouette/SilhouetteNodeModel2.java:208-394 | One cluster per change-driven block. The coefficients it stores are stated by `LegacyEngine.SecondStoresEveryCoefficient`. |
| LegacyEngine.SecondCoefficients | uk.ac.reading.cs.knime.silhouette/src/uk/ac/reading/cs/knime/silhouette/SilhouetteNodeModel2.java:208-394 | The coefficients of one cluster: member p gets the original revision's coefficient for the row under the running iterator, compared with the cluster's own entries. The row is stated by `LegacyEngine.IteratorRowCounts`, and where each value is stored by `LegacyEngine.SecondComputeStores`. |
| LegacyEngine.IteratorRowCounts | uk.ac.reading.cs.knime.silhouette/src/uk/ac/reading/cs/knime/silhouette/SilhouetteNodeModel2.java:208-215 | The row under the iterator at member p of cluster k is the number of members of the earlier clusters plus p. |
| LegacyEngine.IteratorRowInTable | uk.ac.reading.cs.knime.silhouette/src/uk/ac/reading/cs/knime/silhouette/SilhouetteNodeModel2.java:208-215 | That row is below the total number of members, so the iterator never runs past the last member. |
| LegacyEngine.SecondIteratorWithinTable | uk.ac.reading.cs.knime.silhouette/src/uk/ac/reading/cs/knime/silhouette/SilhouetteNodeModel2.java:208-215 | On every table the change-driven grouping accepts, that row is a row of the table, so the "OOI" exception at line 214 is never thrown. |
| LegacyEngine.SecondComparesTablePrefix | uk.ac.reading.cs.knime.silhouette/src/uk/ac/reading/cs/knime/silhouette/SilhouetteNodeModel2.java:164 | Every entry the change-driven grouping stores is its own position, so each cluster is compared with the first rows of the table. |
| LegacyEngine.SecondClusterStores | uk.ac.reading.cs.knime.silhouette/src/uk/ac/reading/cs/knime/silhouette/SilhouetteNodeModel2.java:393 | Storing by position into a cluster of local positions places every computed coefficient at its own member. |
| LegacyEngine.SecondStoresEveryCoefficient | uk.ac.reading.cs.knime.silhouette/src/uk/ac/reading/cs/knime/silhouette/SilhouetteNodeModel2.java:393 | The same for every cluster. |
| LegacyEngine.SecondComputeStores | uk.ac.reading.cs.knime.silhouette/src/uk/ac/reading/cs/knime/silhouette/SilhouetteNodeModel2.java:208-394 | After the streaming revision runs, every member holds the coefficient computed for it. |
| LegacyExecute.RowPairs | uk.ac.reading.cs.knime.silhouette/src/uk/ac/reading/cs/knime/silhouette/SilhouetteNodeModel_o.java:325-356 | The pairs of one row with every member of a cluster, in member order. Their contents are stated by `LegacyExecute.RowPairsMembers`. |
| LegacyExecute.RowPairsMembers | uk.ac.reading.cs.knime.silhouette/src/uk/ac/reading/cs/knime/silhouette/SilhouetteNodeModel_o.java:325-356 | A pair is among them exactly when it is the row itself paired with a member of the cluster. |
| LegacyExecute.FirstFailing | uk.ac.reading.cs.knime.silhouette/src/uk/ac/reading/cs/knime/silhouette/SilhouetteNodeModel_o.java:276-362 | The first pair whose distance throws: none exactly when every pair answers; otherwise that pair throws and every earlier one answers. |
| LegacyExecute.Checked | uk.ac.reading.cs.knime.silhouette/src/uk/ac/reading/cs/knime/silhouette/SilhouetteNodeModel_o.java:276-362 | The computation succeeds exactly when every consulted distance answers. Otherwise its error is the exception of a consulted pair, and every pair before it answered. |
| LegacyExecute.OwnPairsHas | uk.ac.reading.cs.knime.silhouette/src/uk/ac/reading/cs/knime/silhouette/SilhouetteNodeModel_o.java:276-308 | Every other member of the own cluster is compared with the row. |
| LegacyExecute.OtherPairsHas | uk.ac.reading.cs.knime.silhouette/src/uk/ac/reading/cs/knime/silhouette/SilhouetteNodeModel_o.java:320-362 | Every member of every other cluster is compared with the row. |
| LegacyExecute.ClusterPairsHas | uk.ac.reading.cs.knime.silhouette/src/uk/ac/reading/cs/knime/silhouette/SilhouetteNodeModel_o.java:222-379 | The pairs one member needs are among those computed for its cluster. |
| LegacyExecute.TablePairsHas | uk.ac.reading.cs.knime.silhouette/src/uk/ac/reading/cs/knime/silhouette/SilhouetteNodeModel_o.java:220-379 | The pairs one member needs are among those computed for the table. |
| LegacyExecute.MemberSumAgree | uk.ac.reading.cs.knime.silhouette/src/uk/ac/reading/cs/knime/silhouette/SilhouetteNodeModel_o.java:320-362 | Two distances that agree on a row's pairs with a cluster give the same summed distance. |
| LegacyExecute.OwnSumAgree | uk.ac.reading.cs.knime.silhouette/src/uk/ac/reading/cs/knime/silhouette/SilhouetteNodeModel_o.java:276-308 | Two distances that agree on a row's pairs with the other members of its cluster give the same own sum. |
| LegacyExecute.CoefficientAgree | uk.ac.reading.cs.knime.silhouette/src/uk/ac/reading/cs/knime/silhouette/SilhouetteNodeModel_o.java:229-374 | A member's coefficient depends only on the distances the loops compute for it. |
| LegacyExecute.OriginalExecute | uk.ac.reading.cs.knime.silhouette/src/uk/ac/reading/cs/knime/silhouette/SilhouetteNodeModel_o.java:134-379 | The original revision's execution fails exactly when a distance it computes throws, with the exception of one of those pairs. Otherwise it has one cluster per run of equal labels. |
| LegacyExecute.OriginalExecuteFixed | uk.ac.reading.cs.knime.silhouette/src/uk/ac/reading/cs/knime/silhouette/SilhouetteNodeModel_o.java:134-379 | The same with the write-back by row number. |
| LegacyExecute.OriginalComputeAgree | uk.ac.reading.cs.knime.silhouette/src/uk/ac/reading/cs/knime/silhouette/SilhouetteNodeModel_o.java:218-379 | Two distances that agree on the pairs the original revision computes give the same clusters, for both write-backs. |
| LegacyExecute.OriginalExecuteMeaning | uk.ac.reading.cs.knime.silhouette/src/uk/ac/reading/cs/knime/silhouette/SilhouetteNodeModel_o.java:218-379 | When every computed distance answers with the value d gives, execution succeeds with the clusters computed from d. |
| LegacyExecute.SecondExecute | uk.ac.reading.cs.knime.silhouette/src/uk/ac/reading/cs/knime/silhouette/SilhouetteNodeModel2.java:130-394 | The streaming revision fails on a one-row table. Otherwise it fails exactly when a distance it computes throws, with the exception of one of those pairs. |
| LegacyExecute.SecondClustersAgree | uk.ac.reading.cs.knime.silhouette/src/uk/ac/reading/cs/knime/silhouette/SilhouetteNodeModel2.java:208-394 | Two distances that agree on the pairs the streaming revision computes give the same clusters. |
| LegacyExecute.SecondExecuteMeaning | uk.ac.reading.cs.knime.silhouette/src/uk/ac/reading/cs/knime/silhouette/SilhouetteNodeModel2.java:208-394 | When every computed distance answers with the value d gives, execution agrees with the computation from d, the one-row failure included. |
| LegacyExecute.OwnPairsWithin | uk.ac.reading.cs.knime.silhouette/src/uk/ac/reading/cs/knime/silhouette/SilhouetteNodeModel_o.java:276-308 | A row compared with its own cluster's members stays within any bound on the rows. |
| LegacyExecute.OtherPairsWithin | uk.ac.reading.cs.knime.silhouette/src/uk/ac/reading/cs/knime/silhouette/SilhouetteNodeModel_o.java:320-362 | The same for the members of the other clusters. |
| LegacyExecute.MemberPairsWithin | uk.ac.reading.cs.knime.silhouette/src/uk/ac/reading/cs/knime/silhouette/SilhouetteNodeModel_o.java:276-362 | The same for all the pairs computed for one member. |
| LegacyExecute.ClusterPairsWithin | uk.ac.reading.cs.knime.silhouette/src/uk/ac/reading/cs/knime/silhouette/SilhouetteNodeModel_o.java:222-379 | The same for every member of a cluster. |
| LegacyExecute.TablePairsWithin | uk.ac.reading.cs.knime.silhouette/src/uk/ac/reading/cs/knime/silhouette/SilhouetteNodeModel_o.java:220-379 | The same for the whole table. |
| LegacyExecute.OriginalComparesTableRows | uk.ac.reading.cs.knime.silhouette/src/uk/ac/reading/cs/knime/silhouette/SilhouetteNodeModel_o.java:220-379 | The original revision only compares rows of the table. |
| LegacyExecute.OriginalExecuteOnComparableRows | uk.ac.reading.cs.knime.silhouette/src/uk/ac/reading/cs/knime/silhouette/SilhouetteNodeModel_o.java:409-470 | When all rows have equal dimension counts and the string method accepts every pair, the original revision's execution succeeds with the mixed Euclidean distance. |
| LegacyExecute.RowDistance | uk.ac.reading.cs.knime.silhouette/src/uk/ac/reading/cs/knime/silhouette/SilhouetteNodeModel_o.java:300-306 | The mixed Euclidean distance between two rows' feature vectors. Its use is stated by `LegacyExecute.OriginalExecuteOnComparableRows` and `LegacyExecute.ImportedExecute`. |
| LegacyExecute.ColumnDistance | uk.ac.reading.cs.knime.silhouette/src/uk/ac/reading/cs/knime/silhouette/SilhouetteNodeModel_o.java:244-306 | The distance as the original revision computes it: both rows read back from the imported columns, then compared. Stated by `LegacyExecute.ImportedExecute` and `LegacyExecute.UnsetColumnThrows`. |
| LegacyExecute.FirstFailingAgree | uk.ac.reading.cs.knime.silhouette/src/uk/ac/reading/cs/knime/silhouette/SilhouetteNodeModel_o.java:276-362 | Distances that answer alike on every pair fail first at the same pair. |
| LegacyExecute.OriginalExecuteDependsOnPairs | uk.ac.reading.cs.knime.silhouette/src/uk/ac/reading/cs/knime/silhouette/SilhouetteNodeModel_o.java:218-379 | Execution depends only on the distances of the pairs the loops compute, for both write-backs. |
| LegacyExecute.ImportedExecute | uk.ac.reading.cs.knime.silhouette/src/uk/ac/reading/cs/knime/silhouette/SilhouetteNodeModel_o.java:150-379 | For a table of one schema with supported column types, execution through the imported columns equals execution with the distance of the rows' feature vectors. |
| LegacyExecute.NonSingletonPair | uk.ac.reading.cs.knime.silhouette/src/uk/ac/reading/cs/knime/silhouette/SilhouetteNodeModel_o.java:229-308 | A run of two or more rows makes the original revision compute at least one pair. |
| LegacyExecute.UnsetColumnThrows | uk.ac.reading.cs.knime.silhouette/src/uk/ac/reading/cs/knime/silhouette/SilhouetteNodeModel_o.java:244-263 | A non-label column of an unsupported type is never set up (lines 526-538). As soon as some run has two rows, execution fails with a null dereference, for both write-backs. |
| LegacyExecute.SameLabelOneRun | uk.ac.reading.cs.knime.silhouette/src/uk/ac/reading/cs/knime/silhouette/SilhouetteNodeModel_o.java:181-207 | Two rows with one label form one run. |
| LegacyExecute.SameLabelPairs | uk.ac.reading.cs.knime.silhouette/src/uk/ac/reading/cs/knime/silhouette/SilhouetteNodeModel_o.java:229-362 | Its two members are compared with each other, row 0 with row 1 first. |
| LegacyExecute.OriginalExecuteHammingThrows | uk.ac.reading.cs.knime.silhouette/src/uk/ac/reading/cs/knime/silhouette/SilhouetteNodeModel_o.java:456-467 | Under Hamming, rows "a" and "ab" in one cluster end the execution with the length exception. |
| Configure.AdjustedColumn | uk.ac.reading.cs.knime.silhouette/src/uk/ac/reading/cs/knime/silhouette/SilhouetteNodeModel_o.java:504-510 | The intended normalisation picks a valid column congruent to the selector modulo the column count. |
| Configure.AdjustedColumnAsWritten | uk.ac.reading.cs.knime.silhouette/src/uk/ac/reading/cs/knime/silhouette/SilhouetteNodeModel_o.java:504-510 | The written normalisation. Its range and where it departs from the intended one are stated by `Configure.AdjustedColumnAsWrittenMeaning`. |
| Configure.AdjustedColumnAsWrittenMeaning | uk.ac.reading.cs.knime.silhouette/src/uk/ac/reading/cs/knime/silhouette/SilhouetteNodeModel_o.java:504-510 | The written normalisation lands in 0..n. It is n exactly for a negative multiple of n and equals the intended column otherwise. |
| Configure.DefaultIsLastColumn | uk.ac.reading.cs.knime.silhouette/src/uk/ac/reading/cs/knime/silhouette/SilhouetteNodeModel_o.java:97-98 | The default selector -1 picks the last column. |
| Configure.NegativeMultipleOutOfRange | uk.ac.reading.cs.knime.silhouette/src/uk/ac/reading/cs/knime/silhouette/SilhouetteNodeModel2.java:517-523 | The selector -2 over two columns is normalised to 2 as written, where 0 is intended. |
| Configure.ConfigureIndexedAsWritten | uk.ac.reading.cs.knime.silhouette/src/uk/ac/reading/cs/knime/silhouette/SilhouetteNodeModel_o.java:491-518 | On success the label column is a string column inside the table. |
| Configure.ConfigureIndexed | uk.ac.reading.cs.knime.silhouette/src/uk/ac/reading/cs/knime/silhouette/SilhouetteNodeModel2.java:509-531 | With the corrected normalisation, success again means a string column inside the table. |
| Configure.ConfigureIndexedMeaning | uk.ac.reading.cs.knime.silhouette/src/uk/ac/reading/cs/knime/silhouette/SilhouetteNodeModel2.java:509-531 | Configuration succeeds exactly for two or more columns whose selected column holds strings, and selects the column congruent to the selector. |
| Configure.ConfigureIndexedAsWrittenAgrees | uk.ac.reading.cs.knime.silhouette/src/uk/ac/reading/cs/knime/silhouette/SilhouetteNodeModel_o.java:496-518 | As written, configuration agrees with the corrected one, except that a negative multiple of the column count fails with an index error at column n. |
| Configure.CountOther | uk.ac.reading.cs.knime.silhouette/src/uk/ac/reading/cs/knime/silhouette/SilhouetteNodeModel.java:575-581 | The count of non-matching names is at most the column count, and equals it exactly when no column has the chosen name. |
| Configure.CountOtherUnique | uk.ac.reading.cs.knime.silhouette/src/uk/ac/reading/cs/knime/silhouette/SilhouetteNodeModel.java:575-581 | With distinct names that include the chosen one, the count is one less than the column count. |
| Configure.LabelColumnAsWritten | uk.ac.reading.cs.knime.silhouette/src/uk/ac/reading/cs/knime/silhouette/SilhouetteNodeModel.java:575-585 | The written search returns a valid column, and the last column when no column has the chosen name. |
| Configure.LabelColumnAsWrittenIsLast | uk.ac.reading.cs.knime.silhouette/src/uk/ac/reading/cs/knime/silhouette/SilhouetteNodeModel.java:575-585 | Column names are distinct in a table, and then the written search picks the last column whatever name was chosen. |
| Configure.LabelColumnAsWrittenMissesChoice | uk.ac.reading.cs.knime.silhouette/src/uk/ac/reading/cs/knime/silhouette/SilhouetteNodeModel.java:575-585 | With columns "cluster" and "x", choosing "cluster" selects column 1 as written, where column 0 is intended. |
| Configure.LabelColumn | uk.ac.reading.cs.knime.silhouette/src/uk/ac/reading/cs/knime/silhouette/SilhouetteNodeModel.java:574-585 | The intended label column is the first column with the chosen name, or the last column when there is none. |
| Configure.ConfigureNamedAsWritten | uk.ac.reading.cs.knime.silhouette/src/uk/ac/reading/cs/knime/silhouette/SilhouetteNodeModel.java:563-611 | As written, a successful configuration returns a column inside the table that holds strings or ints. |
| Configure.ConfigureNamed | uk.ac.reading.cs.knime.silhouette/src/uk/ac/reading/cs/knime/silhouette/SilhouetteNodeModel.java:563-611 | With the intended label column, configuration succeeds exactly for two or more columns with a string or int label column and an include list that is non-empty and not just the label column. It then returns the label column. |
| Configure.ConfigureNamedAsWrittenChecksLast | uk.ac.reading.cs.knime.silhouette/src/uk/ac/reading/cs/knime/silhouette/SilhouetteNodeModel.java:563-611 | With distinct column names, configuration as written behaves as the intended one would with the last column chosen. |
| Configure.ConfigureNamedAsWrittenRejectsChoice | uk.ac.reading.cs.knime.silhouette/src/uk/ac/reading/cs/knime/silhouette/SilhouetteNodeModel.java:563-611 | Columns "cluster" (String) and "x" (Double) with "cluster" chosen: as written the Double column is checked and configuration fails, where the intended one selects column 0. |
| Configure.OutputSpec | uk.ac.reading.cs.knime.silhouette/src/uk/ac/reading/cs/knime/silhouette/SilhouetteNodeModel.java:640-649 | The output table has the input's columns followed by one double column. |
| Numbers.JavaRem | uk.ac.reading.cs.knime.silhouette/src/uk/ac/reading/cs/knime/silhouette/SilhouetteNodeModel_o.java:506-509 | Java's remainder has the dividend's sign and magnitude below the divisor. |
| Numbers.JavaRemCongruent | uk.ac.reading.cs.knime.silhouette/src/uk/ac/reading/cs/knime/silhouette/SilhouetteNodeModel_o.java:506-509 | The remainder is congruent to the dividend modulo the divisor. |
| Numbers.NatToString | uk.ac.reading.cs.knime.silhouette/src/uk/ac/reading/cs/knime/silhouette/InternalCluster.java:181 | A decimal rendering is a non-empty digit string, one digit long exactly below 10. |
| Numbers.NatToStringInjective | uk.ac.reading.cs.knime.silhouette/src/uk/ac/reading/cs/knime/silhouette/SilhouetteNodeModel.java:762-765 | Different numbers render differently, so the numbered settings keys never collide. |
| Numbers.IntToString | uk.ac.reading.cs.knime.silhouette/src/uk/ac/reading/cs/knime/silhouette/InternalCluster.java:181 | A rendered int is non-empty and starts with '-' exactly when negative. |
| Numbers.IntToStringInjective | uk.ac.reading.cs.knime.silhouette/src/uk/ac/reading/cs/knime/silhouette/InternalCluster.java:181 | Different ints render differently. |
| Numbers.Round2ZeroIff | uk.ac.reading.cs.knime.silhouette/src/uk/ac/reading/cs/knime/silhouette/SilhouetteViewStatsPanel.java:245-255 | Rounding half-up to two decimals gives 0 exactly for values strictly within 0.005 of 0. |
| Persistence.ColorToInt | uk.ac.reading.cs.knime.silhouette/src/uk/ac/reading/cs/knime/silhouette/SilhouetteNodeModel.java:763 | An opaque colour's packed value is a negative 32-bit int no smaller than -2^24. |
| Persistence.IntToColor | uk.ac.reading.cs.knime.silhouette/src/uk/ac/reading/cs/knime/silhouette/SilhouetteNodeModel.java:731 | Reading a colour back keeps the value modulo 2^24. |
| Persistence.ColorRoundTrip | uk.ac.reading.cs.knime.silhouette/src/uk/ac/reading/cs/knime/silhouette/SilhouetteNodeModel.java:731-763 | Saving a colour and reading it back gives the same colour. |
| Persistence.KeysDistinct | uk.ac.reading.cs.knime.silhouette/src/uk/ac/reading/cs/knime/silhouette/SilhouetteNodeModel.java:762-771 | Numbered keys are equal exactly when prefix and number agree, and none equals the cluster-count key. |
| Persistence.SaveHoldsAt | uk.ac.reading.cs.knime.silhouette/src/uk/ac/reading/cs/knime/silhouette/SilhouetteNodeModel.java:760-767 | After saving, cluster k's name, colour, coefficients and rows are stored under the keys numbered k. |
| Persistence.Save | uk.ac.reading.cs.knime.silhouette/src/uk/ac/reading/cs/knime/silhouette/SilhouetteNodeModel.java:751-777 | Saving the cluster model. Its contents are stated by `Persistence.SaveContents`. |
| Persistence.SaveContents | uk.ac.reading.cs.knime.silhouette/src/uk/ac/reading/cs/knime/silhouette/SilhouetteNodeModel.java:751-777 | Saving fails exactly when some cluster has no colours. Otherwise the count key holds the number of clusters and every cluster's entries are stored. |
| Persistence.GetInt | uk.ac.reading.cs.knime.silhouette/src/uk/ac/reading/cs/knime/silhouette/SilhouetteNodeModel.java:718-731 | Reading an int succeeds exactly when the key holds an int, and reports the key otherwise. |
| Persistence.GetString | uk.ac.reading.cs.knime.silhouette/src/uk/ac/reading/cs/knime/silhouette/SilhouetteNodeModel.java:730 | Reading a string succeeds exactly when the key holds a string, and reports the key otherwise. |
| Persistence.GetIntArray | uk.ac.reading.cs.knime.silhouette/src/uk/ac/reading/cs/knime/silhouette/SilhouetteNodeModel.java:732 | Reading an int array succeeds exactly when the key holds one, and reports the key otherwise. |
| Persistence.GetDoubleArray | uk.ac.reading.cs.knime.silhouette/src/uk/ac/reading/cs/knime/silhouette/SilhouetteNodeModel.java:733 | Reading a double array succeeds exactly when the key holds one, and reports the key otherwise. |
| Persistence.LoadCluster | uk.ac.reading.cs.knime.silhouette/src/uk/ac/reading/cs/knime/silhouette/SilhouetteNodeModel.java:728-737 | Cluster k loads exactly when all four of its keys hold values of the right kind. |
| Persistence.Load | uk.ac.reading.cs.knime.silhouette/src/uk/ac/reading/cs/knime/silhouette/SilhouetteNodeModel.java:706-745 | A missing count is a settings error and a negative count is a negative-array-size error. A successful load has as many clusters as the count says. |
| Persistence.LoadClusterHeld | uk.ac.reading.cs.knime.silhouette/src/uk/ac/reading/cs/knime/silhouette/SilhouetteNodeModel.java:728-737 | Entries stored for a cluster load back as the cluster they describe. |
| Persistence.Rebuild | uk.ac.reading.cs.knime.silhouette/src/uk/ac/reading/cs/knime/silhouette/SilhouetteNodeModel.java:728-737 | Rebuilding a cluster from its stored entries. The result is stated by `Persistence.RebuildMeaning`. |
| Persistence.SaveThenLoadRebuilds | uk.ac.reading.cs.knime.silhouette/src/uk/ac/reading/cs/knime/silhouette/SilhouetteNodeModel.java:706-777 | Loading what was saved succeeds and rebuilds every cluster from its stored entries. |
| Persistence.RebuildMeaning | uk.ac.reading.cs.knime.silhouette/src/uk/ac/reading/cs/knime/silhouette/SilhouetteNodeModel.java:736 | A reloaded cluster has the saved name, rows and coefficients, with the modal colour repeated for every member. |
| Persistence.SaveThenLoad | uk.ac.reading.cs.knime.silhouette/src/uk/ac/reading/cs/knime/silhouette/SilhouetteNodeModel.java:706-777 | Save then load returns as many clusters as were saved, each with the original name, rows and coefficients and the original modal colour for every member. |
| Persistence.SaveLoadSave | uk.ac.reading.cs.knime.silhouette/src/uk/ac/reading/cs/knime/silhouette/SilhouetteNodeModel.java:706-777 | For clusters with colours and members, saving what was loaded reproduces the saved settings exactly. |
| Persistence.EmptyClusterSavesOnce | uk.ac.reading.cs.knime.silhouette/src/uk/ac/reading/cs/knime/silhouette/SilhouetteNodeModel.java:736-763 | A cluster without members saves and loads, but the loaded cluster has no colours and can no longer be saved. |
| SilhouetteModel.RowCountIsMemberTotal | uk.ac.reading.cs.knime.silhouette/src/uk/ac/reading/cs/knime/silhouette/SilhouetteModel.java:21-27 | The row count is the total number of members over all clusters. It is at least each cluster's size, and 0 exactly when every cluster is empty. |
| SilhouetteModel.RowCount | uk.ac.reading.cs.knime.silhouette/src/uk/ac/reading/cs/knime/silhouette/SilhouetteModel.java:21-27 | `getRowCount`. Its meaning is stated by `SilhouetteModel.RowCountIsMemberTotal`. |
| SilhouetteModel.MemberTotal | uk.ac.reading.cs.knime.silhouette/src/uk/ac/reading/cs/knime/silhouette/SilhouetteModel.java:23-26 | The summing loop behind `getRowCount`, stated by `SilhouetteModel.RowCountIsMemberTotal`. |
| SilhouetteModel.RowCountMatchesCoefficients | uk.ac.reading.cs.knime.silhouette/src/uk/ac/reading/cs/knime/silhouette/SilhouetteModel.java:21-27 | When every cluster has one coefficient per member, the row count equals the number of coefficients. |
| CellFactory.ReachableClusters | uk.ac.reading.cs.knime.silhouette/src/uk/ac/reading/cs/knime/silhouette/SilhouetteCellFactory.java:57-72 | The cursor reaches exactly the leading clusters that have coefficients, and stops at the first cluster without any. |
| CellFactory.GetCell | uk.ac.reading.cs.knime.silhouette/src/uk/ac/reading/cs/knime/silhouette/SilhouetteCellFactory.java:57-72 | One call of `getCell`. What successive calls produce is stated by `CellFactory.FillColumn` and `CellFactory.CellUnderCursor`. |
| CellFactory.FillColumn | uk.ac.reading.cs.knime.silhouette/src/uk/ac/reading/cs/knime/silhouette/SilhouetteCellFactory.java:49-75 | One call per output row: the j-th cell is the j-th coefficient the cursor reaches, in cluster order, and every cell past them is missing. |
| CellFactory.CellUnderCursor | uk.ac.reading.cs.knime.silhouette/src/uk/ac/reading/cs/knime/silhouette/SilhouetteCellFactory.java:57-68 | At cluster c, member r the cursor reads the coefficient whose position in the reachable list is the number of coefficients before it. |
| CellFactory.CellsCoverAllCoefficients | uk.ac.reading.cs.knime.silhouette/src/uk/ac/reading/cs/knime/silhouette/SilhouetteCellFactory.java:49-75 | When no cluster is empty the column lists every coefficient in cluster order, one per member, followed by missing cells. |
| CellFactory.NoEmptyClusterReachesAll | uk.ac.reading.cs.knime.silhouette/src/uk/ac/reading/cs/knime/silhouette/SilhouetteCellFactory.java:57-68 | When no cluster is empty the cursor reaches every cluster. |
| ViewStats.NegCountCounts | uk.ac.reading.cs.knime.silhouette/src/uk/ac/reading/cs/knime/silhouette/SilhouetteViewStatsPanel.java:110-119 | The negative count is at most the cluster size, is 0 exactly when no coefficient is negative, and equals the size exactly when all are. |
| ViewStats.ClusterStats | uk.ac.reading.cs.knime.silhouette/src/uk/ac/reading/cs/knime/silhouette/SilhouetteViewStatsPanel.java:103-141 | An empty cluster has no statistics row. Its negative count still reads 0, while its other four values are NaN in the source. The negative count of every row is the number of negative coefficients. |
| ViewStats.CellValue | uk.ac.reading.cs.knime.silhouette/src/uk/ac/reading/cs/knime/silhouette/SilhouetteViewStatsPanel.java:118-141 | A column value of a present row is its statistic. For an empty cluster the negative count is 0 and the other columns have no value. |
| ViewStats.RowMeaning | uk.ac.reading.cs.knime.silhouette/src/uk/ac/reading/cs/knime/silhouette/SilhouetteViewStatsPanel.java:121-134 | The average times the size is the total and the percentage is the negative share of 100. Under a lawful square root the two root means square back to their sums. |
| ViewStats.ClusterStatsAverage | uk.ac.reading.cs.knime.silhouette/src/uk/ac/reading/cs/knime/silhouette/SilhouetteViewStatsPanel.java:110-122 | The cluster average times the cluster size is the sum of the coefficients. |
| ViewStats.ClusterStatsNegatives | uk.ac.reading.cs.knime.silhouette/src/uk/ac/reading/cs/knime/silhouette/SilhouetteViewStatsPanel.java:118-128 | The negative count lies between 0 and the size, and the percentage is that share of 100 and lies in [0, 100]. |
| ViewStats.ClusterStatsSquareAverage | uk.ac.reading.cs.knime.silhouette/src/uk/ac/reading/cs/knime/silhouette/SilhouetteViewStatsPanel.java:115-125 | The root mean square is non-negative, and its square times the size is the sum of the squared coefficients. |
| ViewStats.ClusterStatsDeviation | uk.ac.reading.cs.knime.silhouette/src/uk/ac/reading/cs/knime/silhouette/SilhouetteViewStatsPanel.java:131-134 | The standard deviation is non-negative, and its square times the size is the summed squared deviation from the average. |
| ViewStats.HalfAndHalf | uk.ac.reading.cs.knime.silhouette/src/uk/ac/reading/cs/knime/silhouette/SilhouetteViewStatsPanel.java:103-134 | Coefficients 0.5 and -0.5 give average 0, root mean square 0.5, deviation 0.5, one negative and 50 percent. |
| ViewStats.AverageCell | uk.ac.reading.cs.knime.silhouette/src/uk/ac/reading/cs/knime/silhouette/SilhouetteViewStatsPanel.java:144-162 | A column's average exists exactly when there are clusters and every one has a value in that column. It then times the cluster count is the column's sum. |
| ViewStats.AverageRow | uk.ac.reading.cs.knime.silhouette/src/uk/ac/reading/cs/knime/silhouette/SilhouetteViewStatsPanel.java:144-162 | Five averages. Each exists exactly when every cluster has a value in that column, and then times the cluster count is the column's sum. |
| ViewStats.AverageOfEqualRows | uk.ac.reading.cs.knime.silhouette/src/uk/ac/reading/cs/knime/silhouette/SilhouetteViewStatsPanel.java:153-162 | Clusters with equal rows average to that row. |
| ViewStats.AverageIsUnweighted | uk.ac.reading.cs.knime.silhouette/src/uk/ac/reading/cs/knime/silhouette/SilhouetteViewStatsPanel.java:153-162 | Cluster rows are averaged without weighting by size: clusters {1} and {0, 0, 0} average 0.5, not the 0.25 over all rows. |
| ViewStats.EmptyClusterKeepsCountAverage | uk.ac.reading.cs.knime.silhouette/src/uk/ac/reading/cs/knime/silhouette/SilhouetteViewStatsPanel.java:118-162 | With an empty cluster beside clusters with rows, the negative-count average still exists (0.5 for counts 1 and 0) while the coefficient average does not. |
| ViewStats.ExtremeBounds | uk.ac.reading.cs.knime.silhouette/src/uk/ac/reading/cs/knime/silhouette/SilhouetteViewStatsPanel.java:146-148 | The running extreme is its start or some row's value, and bounds every row's value on its side. |
| ViewStats.ColumnMin | uk.ac.reading.cs.knime.silhouette/src/uk/ac/reading/cs/knime/silhouette/SilhouetteViewStatsPanel.java:96-148 | The column minimum from Double.MAX_VALUE. Its meaning is stated by `ViewStats.ColumnMinIsMinimum`. |
| ViewStats.ColumnMaxAsWritten | uk.ac.reading.cs.knime.silhouette/src/uk/ac/reading/cs/knime/silhouette/SilhouetteViewStatsPanel.java:96-148 | The column maximum from Double.MIN_VALUE, as written. Where it fails is stated by `ViewStats.ColumnMaxAsWrittenMissesNonPositive`. |
| ViewStats.ColumnMax | uk.ac.reading.cs.knime.silhouette/src/uk/ac/reading/cs/knime/silhouette/SilhouetteViewStatsPanel.java:96-148 | The column maximum from the lowest double. Its meaning is stated by `ViewStats.ColumnMaxIsMaximum`. |
| ViewStats.ColumnMinIsMinimum | uk.ac.reading.cs.knime.silhouette/src/uk/ac/reading/cs/knime/silhouette/SilhouetteViewStatsPanel.java:96-148 | When some row exists and all values are below Double.MAX_VALUE, the column minimum is attained and below every value. |
| ViewStats.ColumnMaxIsMaximum | uk.ac.reading.cs.knime.silhouette/src/uk/ac/reading/cs/knime/silhouette/SilhouetteViewStatsPanel.java:96-148 | With the lowest double as the start, the column maximum is attained and above every value. |
| ViewStats.ColumnMaxAsWrittenMissesNonPositive | uk.ac.reading.cs.knime.silhouette/src/uk/ac/reading/cs/knime/silhouette/SilhouetteViewStatsPanel.java:99-148 | Started at Double.MIN_VALUE, a column of non-positive values keeps that start as its maximum, which no row attains. |
| ViewStats.Band | uk.ac.reading.cs.knime.silhouette/src/uk/ac/reading/cs/knime/silhouette/SilhouetteViewStatsPanel.java:213-217 | Every ratio falls in one of the bands 1 to 5. |
| ViewStats.Fifths | uk.ac.reading.cs.knime.silhouette/src/uk/ac/reading/cs/knime/silhouette/SilhouetteViewStatsPanel.java:206-218 | The rating lies in 0..5 and is 0 exactly when the column's range rounds to 0. |
| ViewStats.FifthsMonotone | uk.ac.reading.cs.knime.silhouette/src/uk/ac/reading/cs/knime/silhouette/SilhouetteViewStatsPanel.java:206-218 | For columns where higher is better, a higher value never gets a higher (worse) band number. |
| ViewStats.FifthsMirror | uk.ac.reading.cs.knime.silhouette/src/uk/ac/reading/cs/knime/silhouette/SilhouetteViewStatsPanel.java:212 | Rating with lower-is-better equals rating the mirrored value with higher-is-better. |
| ViewStats.FifthsMonotoneLower | uk.ac.reading.cs.knime.silhouette/src/uk/ac/reading/cs/knime/silhouette/SilhouetteViewStatsPanel.java:206-218 | For columns where lower is better, a higher value never gets a lower band number. |
| ViewStats.ValueRating | uk.ac.reading.cs.knime.silhouette/src/uk/ac/reading/cs/knime/silhouette/SilhouetteViewStatsPanel.java:201-205 | A cell's rating lies in 0..5 and is 0 exactly when its column's range rounds to 0. |
| ViewStats.CellRating | uk.ac.reading.cs.knime.silhouette/src/uk/ac/reading/cs/knime/silhouette/SilhouetteViewStatsPanel.java:188-218 | A table cell's rating lies in 0..5 and is 0 exactly when its column's range, between the minimum and the maximum the extremes give, rounds to 0. |
| ViewStats.EmptyClusterLowersCountMinimum | uk.ac.reading.cs.knime.silhouette/src/uk/ac/reading/cs/knime/silhouette/SilhouetteViewStatsPanel.java:141-148 | An empty cluster's negative count 0 lowers that column's minimum: a cell rated 1 against counts 2 and 4 is rated 3 once an empty cluster is added. |
| ViewStats.NegativeAveragesMisrated | uk.ac.reading.cs.knime.silhouette/src/uk/ac/reading/cs/knime/silhouette/SilhouetteViewStatsPanel.java:99-148 | With averages -0.4 and -0.2, the Double.MIN_VALUE start rates the better cluster 3 where the true maximum rates it 1. |

## Left out

- KNIME plumbing is not modelled: node factory, dialogs, settings models, execution contexts, progress messages, cancellation and table specs beyond the column list. The tables the node reads are parameters: labels, row colours, cells.
- The sorting of the input by label (`BufferedDataTableSorter`) is not modelled; the sorted table is an input.
- The `DistanceVectorDataCell` / `DistanceVectorBlobDataCell` machinery and the optional distance-matrix input port are not modelled. The matrix is a lower-triangular `seq<seq<real>>` read through `DistanceMatrix.Lookup`.
- Floating point is not modelled: values are `real`. NaN, infinities and rounding error are not modelled. `Math.sqrt`, `Math.pow` and the Apache string distances are `Library` parameters.
- `Double.MAX_VALUE` as "no neighbour yet" is modelled as `Option` in the current revision, and as the limit value 1 in the older ones (`Coefficient.LegacySilhouette`).
- BigDecimal half-up rounding is modelled as exact rounding of a real to hundredths (`Numbers.Round2`).
- Swing and JFreeChart views (the charts, the colour gradient itself, table rendering) are not modelled beyond the numbers the statistics table shows and the band index.
- XML serialisation and the file I/O of `loadInternals`/`saveInternals` are not modelled. The settings object is a map from keys to typed values.
- Exceptions are modelled as `Err` values. The dimension checks of the distance throw `IllegalArgumentException` in all three revisions (`SilhouetteNodeModel.java` lines 462-466, `SilhouetteNodeModel_o.java` lines 416-420, `SilhouetteNodeModel2.java` lines 430-434). For Hamming on strings of unequal length the current revision throws a plain `Exception` itself (`SilhouetteNodeModel.java` line 508); the older revisions leave it to the Apache `HammingDistance.apply`, which throws `IllegalArgumentException` (`SilhouetteNodeModel_o.java` line 466, `SilhouetteNodeModel2.java` line 480). In the original revision's import a missing cell is an `Err` (`InternalColumn.Step`), and so is a read through an unset column (`InternalColumn.ColumnVector`). Index errors and the second revision's missing previous label are `Err` values too. In the current revision a missing data cell is skipped (`Features.Extract`).
- A missing label cell in the current revision is not modelled. Its grouping (`SilhouetteNodeModel.java` lines 281-320) skips such a row without giving it a row number, and the row loop's `(StringCell)` cast at line 363 then throws a `ClassCastException`. The model's labels are a sequence of strings, which cannot hold a missing cell.
- KNIME's type compatibility is not modelled. The configure checks ask `isCompatible(StringValue.class)` and `isCompatible(IntValue.class)` (`SilhouetteNodeModel.java` lines 589-590, `SilhouetteNodeModel_o.java` line 514), which any cell type implementing that value interface passes. The model's four `Features.Kind`s stand in for those types: `Configure.ConfigureIndexedAsWritten`, `Configure.ConfigureIndexed`, `Configure.ConfigureNamed` and `Configure.ConfigureNamedAsWritten` accept exactly `StringKind` (and `IntKind` where the source also accepts `IntValue`), so a type filed as `NoKind` is rejected even where KNIME would call it compatible.
- Integer cluster labels in the current revision (its `IntValue` branch, `SilhouetteNodeModel.java` lines 301-320) are not modelled. Its execution is modelled for String labels, which the row loop's `StringCell` cast requires. The grouping itself is generic in the label type.
- All three revisions pass one `Color` where `InternalCluster` expects a `Color[]`, and an `Integer[]` of member rows where every constructor takes an `int[]` (`InternalCluster.java` lines 78-120). The current revision does so at `SilhouetteNodeModel.java` lines 326, 330 and 736. This is modelled as one colour per member, all equal, and the member rows as a sequence of integers.
- `SilhouetteModel.getClusterData`/`setClusterData` are plain field access and replacement on an immutable datatype and carry no contract.
- `processIncludeColumns` is not modelled: the include flags per column are an input.
- LegacyEngine.OriginalCompute: states only the cluster count directly. Its stored coefficients are stated by `LegacyEngine.StoreByPositionPlaces` and `LegacyEngine.PositionWriteLosesCoefficients`.
- LegacyEngine.OriginalComputeFixed: states only the cluster count directly. Its stored coefficients are stated by `LegacyEngine.OriginalFixedStoresEveryCoefficient`.
- LegacyEngine.SecondClusters: states only the cluster count directly; its contents are stated by `LegacyEngine.SecondStoresEveryCoefficient`.
- CurrentEngine.Execute: states only the error case and the counts directly. Values and write-back are stated by `CurrentEngine.CoefficientRange` and `CurrentEngine.ExecuteStoresEveryCoefficient`.
- LegacyExecute.OriginalExecute, LegacyExecute.OriginalExecuteFixed, LegacyExecute.SecondExecute: when a distance throws, they state that the error is the exception of some computed pair; that it is the first such pair in loop order is stated by `LegacyExecute.Checked`.
- `SilhouetteNodeModel2` throws when its running row iterator is exhausted (line 214). The change-driven grouping's entries total the row count (`Grouping.GroupChanges`), so the iterator never runs out (`LegacyEngine.SecondIteratorWithinTable`), and the model has no such error.

## Findings

| source | as written | input that shows it | evidently intended | confidence | as-written member | corrected member |
|---|---|---|---|---|---|---|
| uk.ac.reading.cs.knime.silhouette/src/uk/ac/reading/cs/knime/silhouette/SilhouetteNodeModel_o.java:377 | `setCoefficient(i2, s)` passes the member's position where `setCoefficient` expects a row number | one cluster of rows 2, 3, 4 with coefficients 0.5, 0.25, 0.75 ends up holding 0.75, 0, 0 | pass the member's row number | not executed | LegacyEngine.PositionWriteLosesCoefficients | LegacyEngine.OriginalFixedStoresEveryCoefficient |
| uk.ac.reading.cs.knime.silhouette/src/uk/ac/reading/cs/knime/silhouette/SilhouetteNodeModel2.java:164-177 | the label-change loop adds the row before comparing labels and stores local positions, so a cluster gets the first row of the next label, and when the last row opens a new label that last cluster is never emitted | labels A, B, B give A = {0, 1}, B = {0}; labels A, B give only A | runs of equal labels holding their row numbers | not executed | Grouping.GroupChangesMisplacesBoundary | Grouping.RunsDecompose |
| uk.ac.reading.cs.knime.silhouette/src/uk/ac/reading/cs/knime/silhouette/SilhouetteNodeModel_o.java:359 | a neighbour's mean distance is divided by its size minus one | unit distances, clusters {0, 1} and {2, 3}: coefficient 0.5 instead of 0 | divide by the neighbour's size | not executed | LegacyEngine.MembersMinusOneInflatesNeighbour | LegacyEngine.MembersDivisorIsMean |
| uk.ac.reading.cs.knime.silhouette/src/uk/ac/reading/cs/knime/silhouette/SilhouetteViewStatsPanel.java:99 | the running maximum starts at `Double.MIN_VALUE`, the smallest positive double | cluster averages -0.4 and -0.2: the maximum stays at the start and the better cluster is rated 3 | start at the lowest double | not executed | ViewStats.NegativeAveragesMisrated | ViewStats.ColumnMaxIsMaximum |
| uk.ac.reading.cs.knime.silhouette/src/uk/ac/reading/cs/knime/silhouette/SilhouetteNodeModel_o.java:504-510 | a negative selector becomes `n + k % n`, which is `n` for a negative multiple of `n` | selector -2 over two columns gives column 2, one past the end | the selector modulo `n` | not executed | Configure.NegativeMultipleOutOfRange | Configure.ConfigureIndexedMeaning |
| uk.ac.reading.cs.knime.silhouette/src/uk/ac/reading/cs/knime/silhouette/SilhouetteNodeModel.java:575-585 | the loop counts every column name that differs from the chosen one instead of stopping at it | columns "cluster", "x" with "cluster" chosen give column 1 | the index of the chosen column | not executed | Configure.ConfigureNamedAsWrittenRejectsChoice | Configure.ConfigureNamed |
