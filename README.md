# Bank-marketing preprocessing, modelled in Dafny

This project models the integer part of the bank-marketing data pipeline in
`tab_transformer/core/bank.py`:

- `BankPreprocessor.preprocess` takes the loaded table and splits its
  columns into three groups. The categorical features are every column except
  the seven fixed continuous ones and `'y'`. The continuous features are the
  fixed seven. The label is `'y'`.
- Each categorical column is rewritten to integer codes, and the dictionary
  used is recorded in `map_records`. The `'month'` column uses a fixed
  eleven-month list that has no `'sep'`. Every other column numbers its sorted
  distinct values from 0.
- The label column is mapped `'yes'` to 1 and `'no'` to 0.
- The columns are reordered as categorical ++ continuous ++ `['y']`.
- `BankPreprocessor.get_dataset` shuffles the rows and cuts them at
  `int(N * train_ratio)` and `int(N * (train_ratio + val_ratio))`. It wraps
  the three slices in `BankDataset` views.
- `BankDataset.__len__` is a slice's row count. `__getitem__` reads one row
  as its categorical values, its continuous values and its label.

Modules, one per concern:

- `Results` holds the three failures the model covers: a missing `'y'` in
  `remove`, a KeyError on column selection, and an IndexError on row access.
  The scaler's own failures are not among them (see "Left out").
- `Seqs` holds facts about sequences and permutations.
- `Cells` defines cell values (integers, strings, and pandas' NaN as
  `Missing`), the order `sorted` uses, and `sorted(unique())`.
- `Frame` is a columnar table with selection, shuffle and clamped slicing.
- `Encoding` defines the dictionaries and `Series.map`.
- `Preprocessing` models `preprocess`.
- `Dataset` models the view.
- `Splitting` models `get_dataset`.

The categorical loop is a method with a `while` loop. It rewrites the table
and the record map pass by pass, and it is proved equal to a specification in
which every feature's column is mapped from its raw column. `Preprocess`
and `GetDataset` are methods proved equal to the functions
`PreprocessResult` and `DatasetsResult`. The lemmas then state what those
functions guarantee.

Three things are parameters because Python leaves them open:

- `order` is the order in which `list(set(...))` lists the non-continuous
  columns. Any order that lists each of them once is allowed.
- `perm` is the permutation drawn by `data.sample(frac=1.0)`.
- The ratios are exact non-negative fractions.

## Model

| member | source | states |
|---|---|---|
| Cells.StrBelow | tab_transformer/core/bank.py:87 | Python's `<` on strings, used by `sorted`: it is strict, and a proper prefix sorts before the longer string |
| Cells.Below | tab_transformer/core/bank.py:87 | the order `sorted` puts raw values in is strict (never relates a value to itself); asymmetry, transitivity and totality are the lemmas beside it |
| Cells.SortedUniques | tab_transformer/core/bank.py:87 | `sorted(column.unique())` is strictly increasing in the raw-value order and holds exactly the column's values |
| Cells.SortedUnique | tab_transformer/core/bank.py:87 | only one strictly increasing list has a given set of elements, so the sorted distinct list is determined by the column's values alone |
| Encoding.IndexMap | tab_transformer/core/bank.py:84-88 | the keys of `{v: i for i, v in enumerate(xs)}` are exactly the listed values |
| Encoding.IndexMapPositions | tab_transformer/core/bank.py:84-88 | over a list without repetitions, every value is coded by its own position |
| Encoding.SortedIndexMap | tab_transformer/core/bank.py:87-88 | enumerating a sorted distinct list gives a dictionary whose codes are exactly 0..k-1, which is injective and preserves the order in both directions |
| Encoding.ApplyMap | tab_transformer/core/bank.py:85-89 | `Series.map(d)` keeps the length; a cell becomes NaN exactly when it is not a key of `d`, and a key becomes its code |
| Encoding.FieldMap | tab_transformer/core/bank.py:82-88 | the dictionary for 'month' has exactly the listed months as keys; for any other field its keys are exactly the column's values |
| Encoding.MonthPositions | tab_transformer/core/bank.py:83-84 | each listed month is a key coded by its position in the eleven-entry list, and only listed months are keys |
| Encoding.MonthMapIsTable | tab_transformer/core/bank.py:83-84 | the month dictionary agrees with a written-out calendar table on every string: a key exactly when the table lists it, with the table's number |
| Encoding.MonthCodes | tab_transformer/core/bank.py:83-84 | the list has 11 entries; 'jan' is 0, 'aug' 7, 'oct' 8 and 'dec' 10 |
| Encoding.SeptemberUnmapped | tab_transformer/core/bank.py:83-84 | 'sep' is not a key of the month dictionary |
| Encoding.EncodeMonth | tab_transformer/core/bank.py:82-85 | the month column is coded cell by cell, whatever the other rows hold: a listed month becomes its calendar number, anything else (such as 'sep') becomes NaN |
| Encoding.EncodeByRank | tab_transformer/core/bank.py:86-89 | for any other field the dictionary's keys are exactly the column's distinct values; every cell becomes a code in 0..k-1 from which the sorted list gives the value back; every code is used by some row |
| Encoding.EncodeKeepsOrder | tab_transformer/core/bank.py:86-89 | for any other field equal raw values get equal codes and back, and one value sorts below another exactly when its code is smaller |
| Encoding.EncodeSortedValues | tab_transformer/core/bank.py:87-88 | encoding the sorted distinct values themselves gives 0, 1, ..., k-1 |
| Encoding.EncodeLabel | tab_transformer/core/bank.py:108 | 'yes' becomes 1, 'no' becomes 0, anything else NaN (each an if-and-only-if); when every label is 'yes' or 'no', every coded label is 0 or 1 |
| Preprocessing.NonContinuous | tab_transformer/core/bank.py:75 | the set difference holds only table columns, and a column is in it exactly when it is not one of the seven continuous features |
| Preprocessing.RemoveLabel | tab_transformer/core/bank.py:76 | `remove('y')` fails exactly when there is no 'y'; on success the input is the result with one 'y' put back at a position with no earlier 'y', so the others keep their order |
| Preprocessing.FirstIndex | tab_transformer/core/bank.py:76 | `remove` deletes the first 'y': the position found holds 'y' and no earlier position does |
| Preprocessing.RemoveLabelKeepsOthers | tab_transformer/core/bank.py:76 | `remove('y')` fails exactly when there is no 'y'; from a list without repetitions it removes 'y' and keeps every other element and nothing else |
| Preprocessing.CateFeatures | tab_transformer/core/bank.py:74-76 | removing 'y' from the listed non-continuous columns succeeds exactly when the table has 'y', and leaves distinct columns of the table that are neither continuous nor 'y' |
| Preprocessing.FeaturePartition | tab_transformer/core/bank.py:74-76 | the categorical, continuous and label groups are pairwise disjoint and their union is the table's columns; the order categorical ++ continuous ++ ['y'] that line 110 selects lists each column exactly once |
| Preprocessing.Records | tab_transformer/core/bank.py:81-91 | the recorded dictionaries have exactly the given features as keys, each the dictionary its raw column calls for |
| Preprocessing.EncodeColumns | tab_transformer/core/bank.py:81-89 | rewriting the categorical columns keeps the table well formed, its column list, its row count and its set of columns |
| Preprocessing.EncodeColumnsContents | tab_transformer/core/bank.py:85-89 | after the loop each categorical column is its raw column looked up in that feature's dictionary, and every other column is unchanged |
| Preprocessing.EncodeStep | tab_transformer/core/bank.py:81-91 | one more feature through the loop: its column is still raw when it is reached, is then rewritten, and its dictionary is added to the records |
| Preprocessing.PrefixEncodes | tab_transformer/core/bank.py:81-91 | with no feature listed twice the passes do not interfere: after i passes the table and the records are those of the first i features, each built from its raw column |
| Preprocessing.PrefixEncodesAll | tab_transformer/core/bank.py:81-91 | after the last pass the loop's table and records are the specification's |
| Preprocessing.MapCategorical | tab_transformer/core/bank.py:78-91 | the loop leaves every categorical column rewritten through its dictionary and `map_records` holding exactly those dictionaries |
| Preprocessing.MapLabel | tab_transformer/core/bank.py:108 | mapping the label keeps the table well formed and changes no column but 'y' |
| Preprocessing.LabelledColumns | tab_transformer/core/bank.py:81-108 | before the reorder, the categorical columns are encoded from the raw ones, the continuous columns are raw and 'y' is the mapped label |
| Preprocessing.SelectedColumns | tab_transformer/core/bank.py:110 | the final column selection cannot fail and keeps every selected column's contents |
| Preprocessing.Preprocess | tab_transformer/core/bank.py:69-114 | the step-by-step `preprocess` (remove, loop, KeyError check on the continuous columns, label map, reorder) returns what `PreprocessResult` describes |
| Preprocessing.PreprocessFacts | tab_transformer/core/bank.py:76-97 | apart from the scaler's failures, which are not modelled, `preprocess` fails exactly when 'y' or a continuous column is missing; a missing 'y' is reported first, as the ValueError of `remove` |
| Preprocessing.PreprocessShape | tab_transformer/core/bank.py:74-114 | on success the continuous list is the fixed seven; the categorical features are distinct and are exactly the columns that are neither continuous nor 'y'; the table keeps its rows and is laid out categorical ++ continuous ++ ['y'] |
| Preprocessing.PreprocessContents | tab_transformer/core/bank.py:78-114 | on success `map_records` has one entry per categorical feature; each categorical column is its raw column mapped through its recorded dictionary; the continuous columns are unchanged; 'y' is mapped yes to 1 and no to 0 |
| Frame.Select | tab_transformer/core/bank.py:110 | `t[cols]` succeeds exactly when every name is a column (a KeyError otherwise); it orders the columns as listed, keeps each one's contents and the row count |
| Frame.Shuffle | tab_transformer/core/bank.py:121 | shuffling keeps the table well formed, with its columns and row count |
| Frame.ShuffleRows | tab_transformer/core/bank.py:121 | the shuffled rows are the original rows picked in permutation order, so the row multiset is unchanged |
| Frame.Clamp | tab_transformer/core/bank.py:129-131 | a slice bound past the end becomes the row count, and any other bound is kept |
| Frame.Slice | tab_transformer/core/bank.py:129-131 | `iloc[lo:hi].reset_index(drop=True)` keeps the columns and has the clamped length, empty when the stop does not pass the start |
| Frame.SliceRows | tab_transformer/core/bank.py:129-131 | a slice's rows are exactly the clamped range of the table's rows, renumbered from 0 |
| Splitting.Boundary | tab_transformer/core/bank.py:124-125 | `int(N * r)` for an exact ratio is the floor: the largest `b` with `b <= N * r` |
| Splitting.Plus | tab_transformer/core/bank.py:125 | `train_ratio + val_ratio` as an exact fraction: neither summand exceeds the sum, and adding a zero ratio gives the other's value |
| Splitting.Split | tab_transformer/core/bank.py:121-131 | the three partitions are well formed and keep the columns; train has `min(int(N * train), N)` rows and test has `N - min(int(N * (train + val)), N)` rows (which rows each holds is `SplitRows`) |
| Splitting.BoundaryMonotone | tab_transformer/core/bank.py:123-126 | `int(N * train)` never passes `int(N * (train + val))` |
| Splitting.BoundaryInside | tab_transformer/core/bank.py:123-126 | a ratio of at most one gives a boundary of at most N |
| Splitting.SplitSizes | tab_transformer/core/bank.py:121-132 | for any ratios the three partitions are well formed, keep the columns, and their sizes add up to N |
| Splitting.SplitBounds | tab_transformer/core/bank.py:123-131 | when train + val is at most one, 0 <= b1 <= b2 <= N and the partitions have b1, b2 - b1 and N - b2 rows |
| Splitting.SplitRows | tab_transformer/core/bank.py:121-132 | train ++ val ++ test gives back the shuffled table row for row, and holds exactly the original table's rows |
| Splitting.SplitTenRows | tab_transformer/core/bank.py:123-131 | ten rows with the default ratios taken exactly, 7/10 and 2/10, give partitions of 7, 2 and 1 rows, the same sizes the float defaults give |
| Splitting.GetDataset | tab_transformer/core/bank.py:116-146 | the step-by-step `get_dataset` returns what `DatasetsResult` describes |
| Splitting.DatasetsFacts | tab_transformer/core/bank.py:116-146 | `get_dataset` fails exactly when `preprocess` does; otherwise the three views together are N rows long, each carries the categorical and continuous lists `preprocess` returned and the processed table's column order categorical ++ continuous ++ ['y'], the records are `preprocess`'s, and the views hold exactly the processed table's rows |
| Dataset.BankDataset.Len | tab_transformer/core/bank.py:27-28 | `len(self.file)` is the length of every column and the number of rows the view holds |
| Dataset.RowOf | tab_transformer/core/bank.py:34-36 | a position in -len..len-1 names a row: the position itself when non-negative, `len + idx` when negative |
| Dataset.BankDataset.GetItem | tab_transformer/core/bank.py:30-44 | `__getitem__` succeeds exactly when the three column groups exist and the index is in range. A missing categorical column is a KeyError before the index is checked, and a bad index with the categorical columns present is an IndexError. On success each group holds exactly its features' values in the chosen row |
| Dataset.GetItemIsRow | tab_transformer/core/bank.py:27-44 | over a partition laid out categorical ++ continuous ++ ['y'], every row 0..len-1 is readable, and its groups read in feature order give back the table's row |
| Dataset.FlattenAt | tab_transformer/core/bank.py:34-36 | entry j of a read sample, in feature order, is the cell of column j of that row |
| Dataset.GetItemPastEnd | tab_transformer/core/bank.py:27-36 | reading at len, or at -len-1, is an IndexError |
| Dataset.GetItemCounts | tab_transformer/core/bank.py:34-42 | with distinct feature names, each group of a sample has as many entries as its feature list, and exactly one label |

## Left out

- `load_data` reads a CSV file through pandas at a configured path. That is I/O, so the loaded table is a parameter of `Preprocess` and `GetDataset`.
- The logger calls, `info()` and the `cfg`/`logger` fields are left out. They are side channels and configuration.
- The `RobustScaler` and `MinMaxScaler` scaling of the continuous columns is left out. It is floating-point work inside a library that is not part of this model. The continuous columns pass through unchanged, keeping their names and their place in the column order.
- The concatenation in the scaling step is not modelled. It moves the continuous columns to the end, and the final selection reorders every column anyway.
- The randomness of `data.sample(frac=1.0)` is left out. The draw is the permutation parameter `perm`.
- The iteration order of `list(set(...))` is not specified by Python. It is the parameter `order`, which must list each non-continuous column once.
- `torch.is_tensor` and `idx.tolist()` belong to a foreign library. The index is an `int`, and negative positions count from the back as `iloc` does. List and tensor indices are not modelled.
- Splitting.Boundary: the ratios are exact fractions, not binary floating point. In floating point `0.7 + 0.2` is slightly below `0.9`, so for some row counts the source's second boundary is one lower than the exact model's: 26 rather than 27 for 30 rows, 44 rather than 45 for 50 rows, 89 rather than 90 for 100 rows. For 10 rows the two agree (9), because `10 * 0.8999999999999999` rounds to exactly `9.0`.
- Preprocessing.PreprocessFacts: the scaling step can fail, and the model does not say so. `RobustScaler.fit_transform` raises a ValueError on a table with no rows, and on a continuous cell it cannot convert to a float. In the model both cases succeed, because continuous columns pass through unscaled. Its "fails exactly when" covers only the failures of `remove` and of column selection.
- Cells.Below: sorting a column that mixes numbers and strings raises a TypeError in Python. The model places all integers before all strings and NaN last, so its order is total.
- A NaN already present in a raw categorical column is sorted last here. Python's ordering of NaN during sorting is not modelled.
- Duplicate column names are excluded by `Frame.Valid`. A raw table has distinct column names.
- `BaseMachine` from `core.base` is not part of this model.
- A value that `.map` does not find (for example `'sep'` in the month column, or a label other than `'yes'`/`'no'`) becomes NaN (`Missing`), as pandas does. This is modelled rather than excluded by a precondition.
- `BankDataset` is a value, and it never changes the table it wraps. There is no state to model beyond its three fields.
