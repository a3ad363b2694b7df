# Nutrition dashboard: table computations

A Dafny model of the five table computations in `data_dashboard.py`, a
Streamlit dashboard over a nutrition dataset. Each food item is a row with a
`FoodGroup` and numeric nutrient cells, and any cell may be missing (NaN).

| computation | source lines | modules |
|---|---|---|
| The five food groups with the highest mean energy | `data_dashboard.py:16-19` | `Radar`, `Aggregate`, `Ordering` |
| The radar chart's long-form table, one block per nutrient, labelled `X (u)` from `X_u` | `data_dashboard.py:21-33` | `Radar` |
| Mean energy per food group, sorted in place from the highest down | `data_dashboard.py:66-67` | `Ranking`, `Frames` |
| The nutrients most correlated with energy: sorted, first entry skipped, next N kept | `data_dashboard.py:96-98` | `Correlation` |
| The `Vitamin_g` composite, the columns dropped in place, the melt | `data_dashboard.py:108-118` | `Composition`, `Frames` |

## Modules

- `Tables` defines the data.
  - `Cell = Option<real>`, where `None` is NaN.
  - `Row(group, cells)` and `Table(columns, rows)`. `FoodGroup` is the key each row carries.
  - The selections the script applies: `df[cols]`, `.loc[isin(...)]`, column dropping and `pd.concat`.
- `Ordering` defines the two orders the script sorts by.
  - Python's string order, which `groupby` uses for its keys.
  - Descending by value with missing values last, which is what `sort_values(ascending=False)` does.
- `Aggregate` defines `groupby('FoodGroup').mean()`.
  - A mean is taken over a group's non-missing values only.
  - The mean of no values is missing.
- `Frames` defines the in-place steps as a `Frame` class whose methods reassign its `columns` and `rows`. They are:
  - `df[name] = values`;
  - `drop(columns=..., inplace=True)`;
  - `sort_values(..., inplace=True)`.
- `Radar`, `Ranking`, `Correlation` and `Composition` each model one chart's data.
  - The radar loop (lines 21-31) is a `method` with a loop invariant.
  - The energy ranking and the composition are methods that drive a `Frame`.
  - The other computations are functions.

Inputs that come from I/O or from widgets are parameters. These are:
- the table read from CSV;
- the selected nutrients;
- the slider value N;
- the selected food group;
- the correlation column.

## Model

| member | source | states |
|---|---|---|
| Tables.Select | data_dashboard.py:112 | `df[cols]` keeps every row and its group. It holds exactly the named columns, each cell unchanged; any other column reads as missing. |
| Tables.Without | data_dashboard.py:116-117 | After dropping `names`, a column remains iff it was present and is not named. The column list gains no repeats and never grows. |
| Tables.KeepGroups | data_dashboard.py:18 | `.loc[df['FoodGroup'].isin(gs)]`: a row is in the result iff it is an input row whose group is in `gs`. |
| Tables.KeepGroupsCount | data_dashboard.py:18 | Filtering keeps each row of a selected group as often as it occurs, and no row of another group. |
| Tables.KeepGroupsAppend | data_dashboard.py:18 | Filtering splits over a concatenation, so the kept rows stay in their input order. |
| Tables.KeepGroupsOne | data_dashboard.py:18 | A single row is kept exactly when its group is selected. |
| Tables.KeepGroupsOfMapped | data_dashboard.py:112-118 | Filtering to groups commutes with a per-row change that keeps each row's group. Composing every row and then filtering, as the script does, gives the composed rows of the group. |
| Tables.ConcatLength | data_dashboard.py:33 | `pd.concat` of blocks of `w` rows each has `(number of blocks) * w` rows. |
| Tables.ConcatAt | data_dashboard.py:33 | Row `i * w + j` of the concatenation is row `j` of block `i`. |
| Ordering.LexLessTransitive | data_dashboard.py:19 | Python's string order on group keys is transitive. |
| Ordering.LexLessTrichotomy | data_dashboard.py:19 | Any two different group keys are ordered one way or the other. |
| Ordering.InsertKey | data_dashboard.py:19 | Adding a group key keeps the keys strictly increasing. The new keys are the old ones plus the added one. |
| Ordering.SortDesc | data_dashboard.py:67 | `sort_values(ascending=False)`: the result is a permutation of the input, with non-increasing keys and missing keys last. |
| Ordering.SortedUnique | data_dashboard.py:97 | When no two keys are equal, two non-increasing permutations of the same entries are the same sequence. Only ties leave the sort's order open. |
| Ordering.PermutationKeepsDistinctGroups | data_dashboard.py:67 | Reordering rows whose groups are distinct keeps them distinct. |
| Ordering.PermutationKeepsRows | data_dashboard.py:67 | Reordering keeps the same rows and the same groups. |
| Aggregate.Mean | data_dashboard.py:19 | A mean is missing exactly when there is no value to average. |
| Aggregate.MeanWithinBounds | data_dashboard.py:19 | A mean lies between any lower bound and any upper bound of its values. |
| Aggregate.GroupValuesMembers | data_dashboard.py:19 | The values averaged for a group are exactly the values among that group's non-missing cells, since `mean` skips NaN. How often each occurs is `GroupValuesCount`. |
| Aggregate.GroupValuesCount | data_dashboard.py:19 | Each value is averaged for a group as many times as that group's cells hold it (`CellCount`). |
| Aggregate.SumPermutation | data_dashboard.py:19 | The sum of the values does not depend on their order. |
| Aggregate.GroupMeanByCounts | data_dashboard.py:19 | Any list holding each value as often as the group's cells do has the group's mean, so the mean is fixed by the values and their counts. |
| Aggregate.GroupMeanMissing | data_dashboard.py:19 | A group's mean is missing iff every cell of that group is missing. |
| Aggregate.Groups | data_dashboard.py:19 | The `groupby` keys are strictly increasing in string order. They are exactly the groups present in the rows. |
| Aggregate.GroupMeans | data_dashboard.py:19 | `groupby('FoodGroup').mean()[cols]` has one row per group, in key order, with exactly the columns `cols`. Each cell is that group's mean. |
| Aggregate.KeepGroupsGroupMean | data_dashboard.py:18-19 | Filtering to a set of groups does not change the mean of a group that is kept. |
| Aggregate.KeepGroupsHasGroup | data_dashboard.py:18 | A group is left after filtering iff it was present and is selected. |
| Aggregate.RankByEnergy | data_dashboard.py:66-67 | The ranking has one row per food group and no group twice. It holds exactly the data's groups, each with its mean energy, in non-increasing order. |
| Frames.Frame.SetColumn | data_dashboard.py:113 | `df[name] = values` sets `name` in every row to that row's value and appends `name` to the columns if it is new. The rows, their groups and their other cells are unchanged. |
| Frames.Frame.DropColumns | data_dashboard.py:116-117 | The named columns leave the column list and every row. The rows and their groups are otherwise unchanged. |
| Frames.Frame.SortValuesDescending | data_dashboard.py:67 | The rows become the descending sort of the old rows by the column. The columns are unchanged. |
| Radar.TopEnergyGroups | data_dashboard.py:16 | Returns `min(5, number of groups)` distinct groups, all present in the data. No selected group has a lower mean energy than a group left out, with a missing mean counting as lowest. |
| Radar.RadarGroups | data_dashboard.py:18-19 | The index of the averaged table holds exactly the selected groups (at most five), once each, in key order. |
| Radar.SelectedMeans | data_dashboard.py:18-19 | One row per selected group, in key order, with exactly the chosen nutrient columns. Each cell is the group's mean over all of the data's rows of that group. |
| Radar.JoinSplit | data_dashboard.py:28 | `'_'.join(name.split('_'))` gives `name` back. |
| Radar.SplitInTwo | data_dashboard.py:28 | `split('_')` gives two pieces or more iff the name contains `'_'`. |
| Radar.Label | data_dashboard.py:28-29 | A name has no label iff it contains no `'_'`; the source raises `IndexError` there. |
| Radar.LabelOfUnitName | data_dashboard.py:28-29 | `X_u` is labelled `X (u)`, and so is `X_u_w`, where X and u contain no `'_'`. |
| Radar.LabelExamples | data_dashboard.py:28-29 | `Fat_g` gives `Fat (g)` and `Energy_kcal` gives `Energy (kcal)`. `Fat` has no label. |
| Radar.SelectedBlock | data_dashboard.py:24-30 | Nutrient i's block pairs each selected group with its mean for nutrient i and with nutrient i's label. |
| Radar.ChartLength | data_dashboard.py:33 | The radar table has (number of nutrients) × (number of groups) rows. |
| Radar.ChartRow | data_dashboard.py:21-33 | Row `i * groups + j` is group j, group j's mean for nutrient i, and nutrient i's label. |
| Radar.RadarData | data_dashboard.py:21-33 | The result is an error iff no nutrient is chosen or a chosen name lacks `'_'`. An empty choice gives the `pd.concat` error. Otherwise the error names the first name without `'_'`. On success the result is the chart's rows, block after block. |
| Ranking.EnergyRanking | data_dashboard.py:66-67 | The in-place sort of the group means gives `RankByEnergy`: one row per food group, each group once, holding the group's mean energy, in non-increasing order. Each row holds only `Energy_kcal`. |
| Correlation.TopCorrelated | data_dashboard.py:96-98 | The result has `min(N, length - 1)` entries (none for an empty column). It is non-increasing by signed value and takes its entries from the column. |
| Correlation.RankedParts | data_dashboard.py:97 | The result is positions 1 to N of the ranked column, and position 0 ranks highest. |
| Correlation.TopCorrelatedRanking | data_dashboard.py:97 | Every coefficient left out is either the highest one or ranks no higher than every coefficient kept. |
| Correlation.StrictlyHighestSkipped | data_dashboard.py:97 | A coefficient strictly above all others is never kept. |
| Correlation.AllButHighestKept | data_dashboard.py:97 | When N leaves room for them, every coefficient except the strictly highest one is kept. |
| Correlation.EnergyNotShown | data_dashboard.py:96-97 | `Energy_kcal`'s correlation of 1.0 with itself is never shown while no nutrient also reaches 1. |
| Correlation.TopTwoExample | data_dashboard.py:96-98 | Take coefficients e > f > p > s listed as p, s, f, e, with N = 2. The chart shows f and then p. The order is by signed value, so a large negative s ranks last. |
| Composition.VitaminCompositeIsWeightedSum | data_dashboard.py:113-115 | `Vitamin_g` is the weighted sum of the nine vitamin columns. Each has weight 1 except `Folate_g`, which has weight 1/1000. |
| Composition.WeightedSumMissing | data_dashboard.py:113-115 | A weighted sum is missing iff one of its columns is, because `+` propagates NaN. |
| Composition.VitaminMissing | data_dashboard.py:113-115 | `Vitamin_g` is missing iff one of the nine source cells is. |
| Composition.InputFacts | data_dashboard.py:108-112 | The selected columns have no repeats, do not include `Vitamin_g`, and include every vitamin source. |
| Composition.ComposedColumnsFacts | data_dashboard.py:112-117 | After `Vitamin_g` is added and its sources dropped, the columns are the five macronutrients, the eight minerals, `Energy_kcal` and `Vitamin_g`, in that order. |
| Composition.ShownNutrientsFacts | data_dashboard.py:118 | The melt's value columns are those columns without `Energy_kcal`: 14 names. |
| Composition.ComposedCells | data_dashboard.py:112-117 | A composed item keeps its own cell for `Energy_kcal` and for every shown nutrient except `Vitamin_g`. Its `Vitamin_g` holds the composite. |
| Composition.MeltLength | data_dashboard.py:118 | A melted table has (value columns) × (rows) rows. |
| Composition.MeltAt | data_dashboard.py:118 | Row `k * rows + i` of the melt is row i's energy and group, the k-th value column's name, and row i's cell in that column. |
| Composition.CompositionLength | data_dashboard.py:112-118 | The pie chart's table has 14 rows per food item of the chosen group. |
| Composition.CompositionAt | data_dashboard.py:112-118 | Row `k * m + i` holds item i's energy, the group, the k-th shown nutrient and item i's value for it. Here m is the number of items in the group. The `Vitamin_g` value is the composite. |
| Composition.CompositionEmpty | data_dashboard.py:118 | The pie chart's table is empty iff no food item belongs to the chosen group. |
| Composition.Composition | data_dashboard.py:108-118 | The in-place sequence (select, add `Vitamin_g`, drop the sources, filter, melt) gives the melt of the composed rows of the group. |

## Left out

- The Streamlit widgets, layout and page configuration (lines 7, 11-13, 48-64, 74-95, 102-107) are user interface. Their values enter the model as parameters.
- The Plotly figures, their rendering and the histogram (lines 36-37, 69-71, 81, 99-100, 120-122) are presentation done through libraries outside the model.
- Reading the CSV (line 9) is I/O. The table is an input value.
- The Pearson coefficients that `DataFrame.corr` computes (line 96) need square roots over floats. The column of coefficients against `Energy_kcal` is an input `seq<Coefficient>`; only the sort and the slice are modelled.
- Floating-point rounding is not modelled: values are `real`, so sums and means are exact.
- Ordering.SortDesc: pandas sorts with an unstable quicksort, so equal values may come in either order. The model promises only non-increasing order and a permutation. `SortedUnique` shows this fixes the result whenever no two values are equal.
- The `deepcopy` of the column list (lines 91-92, 108-110) only copies names. The model starts from the resulting lists (`CompositionInput`).
- `mean('Energy_kcal')` on line 16 passes a truthy value as `numeric_only`, so it averages the numeric columns. Every modelled column is numeric, so nothing else is involved.
- Radar.RadarData: a chosen nutrient missing from the table is a `KeyError` in pandas. The model states it as a precondition.
- Radar.RadarData: it requires the chosen nutrients to have no repeats, as the multiselect widget guarantees (line 48). Pandas would select a repeated column twice.
- Composition.Composition: it requires the table to hold every selected column, where pandas raises `KeyError` otherwise. That pandas warns about assigning into a column selection (`SettingWithCopyWarning`) is not modelled.
- `reset_index` (line 66) only turns the group key back into a column. Rows carry their group throughout, so it needs no step of its own.
- The default argument of `generate_radar_chart` (`['Fat_g', 'Protein_g', 'Carb_g']`, line 15) is not modelled. The script's only call (line 56) passes the chosen nutrients.
- The slider bounds N to 1..10 (line 94). The correlation model accepts any natural number N.
