# Book-rating matrix preparation, modelled in Dafny

The repository prepares Book-Crossing data for a matrix-factorisation recommender. `prepared_data`
takes three tables: books, ratings and users. It drops four presentation columns from the books
table. It counts the rating events per user and per ISBN, and keeps only users with at least 100
events and ISBNs with at least 20. It keeps the events whose user and ISBN were both kept. It then
pivots those events into the interaction matrix Y (rows ISBN, columns User-ID, cell the mean
rating) and derives the observed mask R (1 where Y has a value, 0 where it is missing). The
function exists twice: `data_preparation.py` and `src/data_preparation.py`. The second also takes a
width `n` and draws two random feature matrices.

The model is pure: datatypes, functions and lemmas.

- `Seqs`: order-preserving filtering, with subsequence and multiplicity lemmas.
- `Ratings`: the rating event `(user, isbn, rating)`, and a one-pass group-by that accumulates sum
  and count per key. It is checked against a reference definition, "the events carrying this key".
- `Frames`: tables keyed by ISBN and User-ID. `Pivot` builds Y, with a missing cell absent from the
  map and read as `None`. `Mask` builds R.
- `Columns`: `drop(columns=...)` on the books table's column names, including pandas' KeyError when
  a label is absent.
- `Pipeline`: the count, threshold, filter, pivot and mask chain. Both source files share it. The
  statements of lines 12-21 of `data_preparation.py` are lines 13-22 of `src/data_preparation.py`.
- `DataPreparation` and `SrcDataPreparation`: one entry point per source file, returning their
  tuples.

The tables are parameters instead of CSV files read at import time. Ratings are exact integers and
means are Dafny `real`s, so no float rounding is involved. Every function is deterministic, so
preparing the same tables twice gives the same Y and R by construction.

Notes on the code:
- `src/data_preparation.py` returns `user_features` before `book_features`.
- An empty filter result is not an error: Y and R are simply empty.
- `drop` raises a KeyError when one of the four columns is missing. The model returns that as a
  `Failure`.

## Model

| member | source | states |
|---|---|---|
| `Seqs.Filter` | src/data_preparation.py:18-19 | boolean-mask selection; every element it returns satisfies the mask, and `Seqs.FilterSpec` pins it down exactly |
| `Ratings.Aggregate` | src/data_preparation.py:13-14 | the one-pass group-by behind `groupby().count()` and the pivot mean; every group it forms is non-empty, and `Ratings.AggregateAt` gives each group's sum and count |
| `Ratings.Counts` | src/data_preparation.py:13-14 | `groupby(key)['Book-Rating'].count()`, specified by `Ratings.CountsAt` |
| `Ratings.Retained` | src/data_preparation.py:16-17 | `counts[counts >= min].index`, specified by `Pipeline.ActiveExactly` |
| `Pipeline.FilteredRatings` | src/data_preparation.py:18-19 | the `isin(filtered_users) & isin(filtered_books)` selection, specified by `Pipeline.FilteredExactly` and `Pipeline.PairSurvivesWhole` |
| `Frames.Pivot` | src/data_preparation.py:20-21 | `pivot_table` with its default mean, specified by `Frames.PivotRows`, `Frames.PivotCols`, `Frames.PivotWellFormed` and `Frames.PivotAt` |
| `Frames.Mask` | src/data_preparation.py:22 | `Y.notna().astype(int)`, specified by `Frames.MaskAt` |
| `Pipeline.Interactions` | src/data_preparation.py:18-22 | the filtered events pivoted into Y together with R, specified by `Pipeline.InteractionKeys`, `Pipeline.InteractionCell` and `Pipeline.EmptyExactlyWhenNothingSurvives` |
| `Seqs.FilterSpec` | src/data_preparation.py:18-19 | boolean-mask selection keeps exactly the elements satisfying the mask, every occurrence of them, in their original order |
| `Ratings.AggregateAt` | src/data_preparation.py:13-14 | a group exists exactly for a key some event carries, and it holds the sum and the number of exactly the events with that key |
| `Ratings.CountsAt` | src/data_preparation.py:13-14 | `groupby(key).count()` has an entry exactly for the keys that occur, equal to the number of events carrying that key |
| `Frames.PivotGroup` | src/data_preparation.py:20-21 | the pivot's (ISBN, user) groups are exactly the pairs occurring among the events |
| `Frames.PivotRows` | src/data_preparation.py:20-21 | the pivot's row keys are exactly the distinct ISBNs among the events |
| `Frames.PivotCols` | src/data_preparation.py:20-21 | the pivot's column keys are exactly the distinct users among the events |
| `Frames.PivotWellFormed` | src/data_preparation.py:20-21 | every present cell of the pivot lies on one of its rows and one of its columns |
| `Frames.PivotAt` | src/data_preparation.py:20-21 | a pivot cell is missing iff no event has that (ISBN, user) pair, and otherwise is the mean of the ratings of all events with that pair |
| `Frames.MaskAt` | src/data_preparation.py:22 | `notna().astype(int)` has Y's rows, columns and shape; on Y's keys it is 1 iff Y is present and 0 iff Y is missing |
| `Columns.DropColumns` | src/data_preparation.py:10-11 | the drop fails iff a label is not a column, and the error names exactly those labels; otherwise the result is an order-preserving subsequence holding every column not named by a label, with its multiplicity, and no named one |
| `Pipeline.CountsAreEventCounts` | src/data_preparation.py:13-14 | the per-user and per-ISBN counts equal the number of events with that User-ID or ISBN, and only occurring keys are counted |
| `Pipeline.ActiveExactly` | src/data_preparation.py:16-17 | the retained users are exactly those with at least 100 events, the retained ISBNs exactly those with at least 20 |
| `Pipeline.FilteredExactly` | src/data_preparation.py:18-19 | an event survives iff its user AND its ISBN are retained; the survivors are an order-preserving subsequence of the ratings with every occurrence of a surviving event kept |
| `Pipeline.InteractionKeys` | src/data_preparation.py:16-22 | Y's rows and columns are exactly the distinct ISBNs and users among the surviving events, so every row has at least 20 and every column at least 100 events in the unfiltered ratings; R has Y's keys |
| `Pipeline.PairSurvivesWhole` | src/data_preparation.py:18-19 | the filter keeps all events of an (ISBN, user) pair or none of them, according as both keys are retained |
| `Pipeline.InteractionCell` | src/data_preparation.py:18-22 | Y[i][j] is present iff user j and ISBN i are retained and j rated i, and is then the mean of all of j's ratings of i; R has Y's shape and is 1 exactly where Y is present, 0 elsewhere |
| `Pipeline.EmptyExactlyWhenNothingSurvives` | src/data_preparation.py:18-22 | with no surviving event Y and R are the empty table and no error arises; Y is empty only then |
| `Pipeline.InactiveUserAbsent` | src/data_preparation.py:16-21 | a user with fewer than 100 events has no column, no Y value and no R entry |
| `Pipeline.InactiveBookAbsent` | src/data_preparation.py:16-21 | an ISBN with fewer than 20 events has no row, no Y value and no R entry |
| `Pipeline.DuplicatePairAveraged` | src/data_preparation.py:20-21 | two events of one user on one book rated 5 and 3 pivot into the single value 4 |
| `SrcDataPreparation.RandomFeatures` | src/data_preparation.py:23-24 | `randn(rows, n)` fails iff `n` is negative; otherwise the matrix has `rows` rows and `n` columns |
| `SrcDataPreparation.PreparedData` | src/data_preparation.py:9-26 | fails with the drop's KeyError iff a dropped column is absent, else with a ValueError iff `n < 0`; on success it returns the other columns in order with their multiplicity, the unchanged ratings and users, the pipeline's Y and R, and features shaped (rows of Y, n) and (columns of Y, n) |
| `SrcDataPreparation.PreparedMatrices` | src/data_preparation.py:13-22 | with the four columns present and `n >= 0` the call succeeds; Y's rows have at least 20 events and its columns at least 100, each cell is the pair's mean rating or missing, and R matches Y's shape and presence pattern |
| `DataPreparation.PreparedData` | data_preparation.py:8-22 | fails with the drop's KeyError iff a dropped column is absent; on success it returns the other columns in order with their multiplicity, the unchanged ratings and users, and the pipeline's Y and R |
| `DataPreparation.PreparedMatrices` | data_preparation.py:12-21 | with the four columns present the call succeeds; Y's rows have at least 20 events and its columns at least 100, each cell is the pair's mean rating or missing, and R matches Y's shape and presence pattern |

## Left out

- Reading `books.csv`, `ratings.csv` and `users.csv` at import time (file I/O): the three tables are parameters.
- The values of the random feature matrices (`np.random.randn`): only their shapes, and numpy's error for a negative width, are modelled.
- pandas representation details: NaN as the missing marker, the float dtype of Y, the index objects, and the ascending order of pivot rows and columns. Keys are sets and missing cells are `None`.
- Book rows and all book, user and rating fields other than the books table's column names and the event fields `User-ID`, `ISBN` and `Book-Rating`. The users table is returned untouched, so its type is a parameter.
- A null `Book-Rating`: `count()` and `pivot_table` skip nulls. Ratings here are always integers, so the count of a key's ratings is the number of its events.
- Floating-point rounding of the mean: means are exact rationals.
