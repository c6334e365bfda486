# Book recommender: a verified model

This project models the core of a small item-item collaborative-filtering book recommender:

- **Cleaning the ratings table** (`DataLoader.clean_data`). The module is `DataLoader` in `data_loader.dfy`.
  - The columns `User-ID`, `ISBN` and `Rating` are renamed to `user_id`, `book_id` and `rating`.
  - The rating column is coerced to numbers. Text that does not parse becomes a missing value.
  - Rows with a missing rating are dropped.
  - Only rows with a rating strictly above 0 are kept.
- **The engine** (`RecommenderEngine`). The module is `Recommender` in `recommender.dfy`. It is a class whose methods update its fields, as the original's do:
  - `PrepareMatrix` numbers the users and books densely, in order of first appearance. It also builds the reverse book map and the user × book interaction matrix, where ratings of the same (user, book) pair add up.
  - `Train` installs the book × book score matrix, or fails when there is no book at all.
  - `GetRecommendations` answers a query.
    - An unknown ISBN gives `None`.
    - A known ISBN gives the ids at the last `top_n + 1` positions of the argsort of the book's score row, best first, with the book itself skipped.

Supporting modules hold the pure pieces the engine is specified with:

- `Ids` (`ids.dfy`): `Series.unique`, the enumerate-dictionary, and the inverted dictionary.
- `Interaction` (`interaction.dfy`): the COO-to-CSR conversion seen as a dense matrix.
- `Ranking` (`ranking.dfy`):
  - the argsort contract;
  - Python's slice `a[-(top_n+1):]`, including negative `top_n`;
  - the reversal;
  - the exclusion of the queried index.

`Wrappers` (`wrappers.dfy`) holds `Option` and `Result`.

Each method of the class is proved against a specification function:

- `GetRecommendations` returns exactly `Recommend(...)`.
- `PrepareMatrix` establishes `Prepared()`. That predicate ties the maps and the matrix to `IndexMap` and `InteractionMatrix` of the table.

The lemmas then prove what those functions promise.

Where the written specification of the system and the code disagree, the model follows the code:

- The written specification asks for exactly `min(top_n, count - 1)` results, with ties broken by ascending index.
- The code takes the last `top_n + 1` argsort positions and drops the queried book only when it is among them. It returns `k - 1` or `k` ids (`k = min(top_n + 1, count)`). It has no tie-break beyond whatever order `argsort` produces.
- `RecommendLength` states the code's behaviour. `RecommendRanked` states the ranking guarantees that hold for any tie order.

## Model

| member | source | states |
|---|---|---|
| Ids.Unique | src/recommender.py:22-23 | `Series.unique()`: no contract of its own; specified by `UniqueBasics`, `UniquePrefix`, `UniqueRank` |
| Ids.UniqueBasics | src/recommender.py:22-23 | `unique()` lists every id of the column exactly once, nothing else, and is no longer than the column |
| Ids.UniquePrefix | src/recommender.py:22-23 | the unique ids of a prefix of the table are a prefix of the unique ids of the table: ranks never change as rows are added |
| Ids.UniqueRank | src/recommender.py:22-23 | the id first seen at row `i` sits in `unique()` right after the distinct ids of the rows before `i` |
| Ids.Enumerate | src/recommender.py:25-26 | the enumerate-dictionary comprehension: no contract of its own; specified by `EnumerateBasics` |
| Ids.EnumerateBasics | src/recommender.py:25-26 | the enumerate-dictionary has every listed id as a key, and each key maps to a position that holds it |
| Ids.Invert | src/recommender.py:27 | the inverted dictionary of an injective map undoes it in both directions |
| Ids.IndexMap | src/recommender.py:22-26 | `user_map` / `book_map` built from a column: no contract of its own; specified by `IndexMapDense`, `IndexMapFirstOccurrence`, `IndexMapOrder`, `IndexMapInverse` |
| Ids.IndexMapDense | src/recommender.py:22-26 | `user_map`/`book_map` have exactly the column's ids as keys, are injective, and map the `k`-th distinct id to `k`, so the values are exactly 0..count-1 |
| Ids.IndexMapFirstOccurrence | src/recommender.py:22-26 | the id first seen at row `i` is numbered with the count of distinct ids seen before row `i` |
| Ids.IndexMapOrder | src/recommender.py:22-26 | of two first occurrences, the earlier one gets the smaller index, and conversely |
| Ids.IndexMapInverse | src/recommender.py:26-27 | `reverse_book_map` has keys exactly 0..count-1 and is the exact inverse of `book_map`: id → index → id and index → id → index are identities |
| Interaction.Zeros | src/recommender.py:38-39 | the empty matrix of the given shape holds 0 everywhere |
| Interaction.ToDense | src/recommender.py:38-40 | the converted matrix has the requested shape |
| Interaction.ToDenseEntry | src/recommender.py:38-40 | each cell holds the sum of the values of all entries at that coordinate: duplicates add |
| Interaction.EntrySumAbsent | src/recommender.py:38-40 | a coordinate no entry names holds 0 |
| Interaction.AddTotal | src/recommender.py:38-40 | adding one entry raises the matrix total by exactly its value |
| Interaction.ToDenseTotal | src/recommender.py:38-40 | the matrix total equals the sum of all entry values: nothing lost or invented |
| Ranking.SliceStart | src/recommender.py:67 | the slice `[-(top_n+1):]` keeps `min(top_n + 1, n)` positions for `top_n >= 0`, all of them for `top_n == -1`, and for `top_n < -1` starts at `min(-(top_n + 1), n)`, so it keeps `n - min(-(top_n + 1), n)` positions |
| Ranking.Reverse | src/recommender.py:67 | `[::-1]` keeps the length and puts element `i` at position `n - 1 - i` |
| Ranking.TopIndices | src/recommender.py:67 | `argsort()[-(top_n+1):][::-1]`: has exactly as many indices as the slice keeps; its ranking is stated by `TopIndicesRanked` and `TopIndicesSelection` |
| Ranking.ExcludeSelf | src/recommender.py:69-72 | the indices the loop keeps: no contract of its own; specified by `ExcludeSelfMembers`, `ExcludeSelfPrefix`, `ExcludeSelfDistinct`, `ExcludeSelfNonIncreasing` |
| Ranking.ExcludeSelfMembers | src/recommender.py:70-72 | the loop keeps exactly the indices other than the queried one |
| Ranking.ExcludeSelfPrefix | src/recommender.py:70-72 | what the loop has kept after a prefix is a prefix of its final result |
| Ranking.ExcludeSelfDistinct | src/recommender.py:70-72 | exclusion keeps indices distinct and removes exactly one of them when the queried index is present |
| Ranking.ExcludeSelfNonIncreasing | src/recommender.py:70-72 | exclusion keeps a best-first list best-first |
| Ranking.TopIndicesRanked | src/recommender.py:67 | the selected indices are in range, distinct, best first, and score at least as high as every index not selected |
| Ranking.TopIndicesSelection | src/recommender.py:67-72 | after excluding the queried index: in range, never the queried index, distinct, best first, no other unselected index scores higher, and the count is the slice length less one exactly when the queried index was sliced |
| Ranking.SoleIndexExcluded | src/recommender.py:67-72 | with a single book, excluding it leaves nothing selected, whatever `top_n` |
| Recommender.Triples | src/recommender.py:30-36 | the (user index, book index, rating) triple of every row: no contract of its own; specified by `IndexMapsCover`, `EntrySumIsRatingSum`, `ValueSumIsRatingTotal` |
| Recommender.IndexMapsCover | src/recommender.py:30-39 | mapping the id columns through the two maps gives every row a (user index, book index) inside the matrix shape |
| Recommender.EntrySumIsRatingSum | src/recommender.py:34-39 | the COO value sum at the indices of (user, book) is the sum of that pair's ratings |
| Recommender.ValueSumIsRatingTotal | src/recommender.py:36-39 | the COO data column sums to the total of all ratings |
| Recommender.InteractionMatrix | src/recommender.py:34-40 | `interaction_matrix`: no contract of its own; specified by `InteractionMatrixEntry`, `InteractionMatrixTotal` |
| Recommender.InteractionMatrixEntry | src/recommender.py:34-40 | the matrix has shape (distinct users, distinct books), and cell (user_map[u], book_map[b]) holds the sum of u's ratings of b |
| Recommender.RatingSumAbsent | src/recommender.py:38-40 | a (user, book) pair without rows contributes 0 |
| Recommender.InteractionMatrixTotal | src/recommender.py:38-40 | the total of the matrix equals the total of the ratings |
| Recommender.LabelsStep | src/recommender.py:70-72 | one loop step appends the reverse-mapped id of the index exactly when it is not the queried one |
| Recommender.LabelsOfSelection | src/recommender.py:72 | reading a valid selection back through `reverse_book_map` gives mapped, distinct ids, never the queried id, best first, scoring at least as high as every unselected book |
| Recommender.SelectionIsMapped | src/recommender.py:67-72 | every index the loop looks up has an entry in `reverse_book_map` |
| Recommender.Recommend | src/recommender.py:57-72 | what `get_recommendations` returns: `None` exactly when the ISBN is not in `book_map`; the list is specified by `RecommendNotFound`, `RecommendRanked`, `RecommendLength` |
| Recommender.RecommendNotFound | src/recommender.py:57-58 | the answer is `None` exactly when the ISBN is not in `book_map`; a known book alone in the catalogue gets `Some([])`, not `None` |
| Recommender.RecommendRanked | src/recommender.py:64-72 | the answer never holds the queried ISBN, holds distinct mapped ids in non-increasing score order, and no other book left out scores higher than one included |
| Recommender.RecommendLength | src/recommender.py:67-72 | the answer has `k - 1` ids when the queried book is among the last `k = min(top_n + 1, count)` argsort positions and `k` otherwise; the general slice formula for any `top_n` |
| Recommender.RecommenderEngine.constructor | src/recommender.py:7-12 | a new engine holds the table, empty maps and no matrices |
| Recommender.RecommenderEngine.PrepareMatrix | src/recommender.py:14-40 | afterwards the user and book maps, the reverse map and the interaction matrix are those derived from the table; table and score matrix unchanged |
| Recommender.RecommenderEngine.Train | src/recommender.py:42-51 | with no book, fails with `EmptyInput` (the `ValueError` the similarity computation raises on an empty matrix) and leaves the score matrix as it was; otherwise installs the square book × book score matrix and establishes the trained state |
| Recommender.RecommenderEngine.GetRecommendations | src/recommender.py:53-74 | `top_n` defaults to 5 (`DefaultTopN`); the loop's result is exactly `Recommend` of the engine's state, so every property proved of `Recommend` holds of it |
| DataLoader.Rename | src/data_loader.py:47-48 | renaming keeps the number of columns |
| DataLoader.RenameSpec | src/data_loader.py:47-48 | `User-ID`, `ISBN`, `Rating` become `user_id`, `book_id`, `rating`; every other label is untouched; renaming twice equals renaming once |
| DataLoader.RatingColumn | src/data_loader.py:51 | `df['rating']` names one column exactly when one label is `rating` after renaming; none is a missing-column error, two or more a duplicate-column error |
| DataLoader.ParseDecimal | src/data_loader.py:51 | `pd.to_numeric` on plain decimal text: no contract of its own; specified by `IntegerTextRoundTrip`, `NoDigitNoNumber` |
| DataLoader.Coerce | src/data_loader.py:51 | `pd.to_numeric(errors='coerce')` on one cell: no contract of its own; specified by `IntegerTextRoundTrip`, `NoDigitNoNumber` |
| DataLoader.IntegerTextRoundTrip | src/data_loader.py:51 | text that writes an integer, signed or not, is coerced to that integer |
| DataLoader.NoDigitNoNumber | src/data_loader.py:51 | text without any digit (an empty field, a word) is coerced to a missing value |
| DataLoader.CoerceRatings | src/data_loader.py:51 | coercion keeps the number of rows and the width of each row |
| DataLoader.Where | src/data_loader.py:52-56 | a row filter keeps no more rows than it gets, and every kept row passes its test |
| DataLoader.CleanRows | src/data_loader.py:51-56 | coercion, `dropna`, then the `> 0` filter: never more rows than it gets, and every kept rating is a number above 0; order and completeness by `CleanRowsSpec` |
| DataLoader.Cleaned | src/data_loader.py:51-56 | a surviving row changes only in its rating cell, which holds the coerced number |
| DataLoader.SurvivorIndicesSpec | src/data_loader.py:51-56 | the surviving positions are strictly increasing and are exactly the rows whose rating coerces to a number above 0 |
| DataLoader.CleanRowsSpec | src/data_loader.py:51-56 | the cleaned rows are the survivors in their original order, each with only its rating coerced |
| DataLoader.CleanRowsStep | src/data_loader.py:51-56 | one more input row adds its cleaned form exactly when it survives |
| DataLoader.CleanData | src/data_loader.py:40-58 | `clean_data`: fails exactly when the `rating` column is missing or duplicated after renaming; on success keeps the column count and never adds rows; contents by `CleanDataSpec`, `CleanDataErrors`, `CleanDataIdempotent` |
| DataLoader.CleanDataSpec | src/data_loader.py:40-58 | `clean_data` renames the labels, keeps the table rectangular, keeps exactly the rows whose rating is numeric and above 0 in their order, with only the rating changed, and every kept rating is a number above 0 |
| DataLoader.CleanDataErrors | src/data_loader.py:47-51 | `clean_data` fails exactly when no column, or more than one, is called `rating` after renaming |
| DataLoader.CleanRowsKeepsClean | src/data_loader.py:51-56 | rows whose rating is already a number above 0 all pass through unchanged |
| DataLoader.CleanDataIdempotent | src/data_loader.py:40-58 | cleaning a cleaned table gives the same table |

## Left out

- Cosine similarity (`train`, src/recommender.py:49-51) is not computed. `Train` receives the score matrix as a parameter. The only requirement is that it is square over the books. The model therefore says nothing about symmetry, the values in [-1, 1], or zero-norm columns.
- `argsort` is not implemented. `GetRecommendations` receives its output as a parameter `order` and requires the argsort contract: a permutation of the row's indices in ascending score order. Ties may come in any order, as with numpy's default sort.
- Scores and ratings are exact `real`s. Floating-point rounding, NaN and infinities are not modelled.
- The sparse storage (COO triples, CSR compression, `toarray().flatten()`) is modelled by its dense meaning. Memory layout is not modelled.
- The `user_idx` and `book_idx` columns that `prepare_matrix` adds to the table are used only as the row and column of each entry. The table field itself is not extended.
- `load_data` is not modelled: local and remote file reading, CSV parsing, encodings and skipped bad lines.
- `main.py` and all console output are not part of this model.
- The conversion from the cleaned table to the engine's `Row` records is not modelled. The engine takes a sequence of (user, book, rating) rows.
- DataLoader.Coerce: text is parsed as an optional sign, digits and at most one decimal point. Exponent notation (`1e3`), `inf`/`infinity` spellings and surrounding whitespace, which `pd.to_numeric` also reads as numbers, are treated as not numeric.
- Ids.Invert: it requires an injective map. `book_map` always is one, so `reverse_book_map` is the exact inverse. The last-writer-wins behaviour of a dict comprehension over a non-injective map is not modelled.
- Recommender.RecommenderEngine.Train: it requires `Prepared()`. Called before `prepare_matrix`, the original fails on the missing interaction matrix, and that failure is not modelled.
- Recommender.RecommenderEngine.GetRecommendations: it requires `Trained()`. Called before `train`, the original either returns `None` because `book_map` is still empty, or fails indexing the missing score matrix. That untrained behaviour is not modelled.
- Recommender.RecommenderEngine.PrepareMatrix: missing or NaN values in the id columns are not modelled. Every row has a user and a book.
