# Autoencoder restaurant recommender: model of the bookkeeping around the network

`bin/Neural_Networks.py` trains a Keras autoencoder on a dense user x restaurant
rating matrix (`train_autoencoder`) and turns the network's predictions for one user
into a ranked list of restaurant recommendations (`get_recommendations`). The network
itself is a library call; what the script adds is integer and index bookkeeping,
and that is what this project models and proves:

- `encoding.dfy` (module `Encoding`): pandas' categorical encoding of raw ids
  (`astype('category').cat.codes`): codes are positions in the ascending list of
  distinct values; `nunique()`.
- `rating_matrix.dfy` (module `RatingMatrix`): the rating records, the cell writes of
  the fill loop, and `BuildMatrix`, which allocates the zero matrix as an `array2` and
  fills it cell by cell in `Fill`, later records overwriting earlier ones.
- `ranking.dfy` (module `Ranking`): `(-predicted).argsort()[:top_n]`, the
  `np.where(row >= 4)` liked set, the list comprehension that drops liked restaurants,
  and `head(3)` of the liked set, as functions with lemmas.
- `recommender.dfy` (module `Recommender`): the three module globals (`autoencoder`,
  `rating_matrix`, `restaurants_df`) as a class with optional fields;
  `TrainAutoencoder` and `GetRecommendations` as its methods, and a `Session`
  client that walks through an untrained call, a run with a missing ratings file,
  training on three ratings and an out-of-range user index.

Design choices:

- The trained network is represented by its width only. The scores it predicts for
  the user's normalised row are an input of `GetRecommendations` (`predicted`), one
  score per output unit, so as many as the matrix has columns.
- Reading the two CSV files is represented by a `Load` value: the restaurant file is
  missing, the ratings file is missing (the restaurant table was already read), or
  both were read. This keeps the source's quirk: `restaurants_df` is assigned
  (line 20) before the ratings file is read (line 21), so a missing ratings file
  replaces the table and leaves the network and the matrix as they were.
- Results and errors that the source prints are returned as an `Outcome`:
  `Untrained`, `InvalidUser(id)`, `NoNewRestaurant`, or
  `Recommended(liked, ranked)` with restaurant indices. `ranked[k]` is the
  recommendation printed with number `k + 1`.
- The user index follows numpy's rules, as the code does: the invalid-user message
  (line 91) is printed only when `rating_matrix[user_id]` raises `IndexError`, so any
  index in `-rows <= user_id < rows` is accepted and a negative one counts from the
  last row.
- `top_n` is any integer with Python slice semantics (`a[:k]` with a negative `k`
  drops the last `-k` entries); the properties of the count are stated for
  `top_n >= 0`.
- numpy's `argsort` does not fix the order of equal scores. `ArgsortDesc` breaks ties
  by ascending index, but `TopCandidates` is proved for every ordering that
  `IsDescendingArgsort` admits, i.e. for any tie order.

## Model

| member | source | states |
|---|---|---|
| `Encoding.Categories` | bin/Neural_Networks.py:31-32 | the categories are strictly ascending and contain exactly the values that occur in the column |
| `Encoding.Codes` | bin/Neural_Networks.py:31-32 | one code per record, below the number of categories, and the category at that code is the record's raw id |
| `Encoding.CodesPreserveOrder` | bin/Neural_Networks.py:31-32 | two records get equal codes iff their raw ids are equal, and a smaller code iff a smaller raw id (codes follow sorted order, so the mapping is injective on distinct ids) |
| `Encoding.CodesOnto` | bin/Neural_Networks.py:31-32 | every code 0..k-1 is used, k the number of categories (the mapping is onto) |
| `Encoding.NUnique` | bin/Neural_Networks.py:39-40 | `nunique()`: the number of distinct values is 0 exactly for an empty column and never exceeds its length |
| `Encoding.CategoryCount` | bin/Neural_Networks.py:39-40 | the number of categories equals both the number of distinct raw ids and `nunique()` of the codes, so the matrix is sized by the distinct count |
| `RatingMatrix.NumUsers` | bin/Neural_Networks.py:39 | `num_users` is at most the number of records, and 0 exactly when there are none |
| `RatingMatrix.NumRestaurants` | bin/Neural_Networks.py:40 | `num_restaurants` is at most the number of records, and 0 exactly when there are none |
| `RatingMatrix.MatrixShape` | bin/Neural_Networks.py:39-43 | `num_users` and `num_restaurants` equal the distinct raw user and restaurant counts |
| `RatingMatrix.Writes` | bin/Neural_Networks.py:34-45 | one write per record, in input order: write i goes to (user code of record i, restaurant code of record i) and carries record i's rating, and every write lies inside `num_users x num_restaurants` |
| `RatingMatrix.Cell` | bin/Neural_Networks.py:43-45 | the value a cell of the zero matrix holds after the writes is 0 or the value of some write to that cell (`LastWriteWins` says which) |
| `RatingMatrix.LastWriteWins` | bin/Neural_Networks.py:43-45 | after the writes a cell nobody writes is still 0, and a written cell holds the value of the last write to it |
| `RatingMatrix.RecordCell` | bin/Neural_Networks.py:44-45 | the cell at record i's (user code, restaurant code) holds the rating of the last record with the same raw user id and restaurant id |
| `RatingMatrix.EmptyCell` | bin/Neural_Networks.py:43-45 | a cell whose code pair belongs to no record stays 0 |
| `RatingMatrix.ExampleMatrix` | bin/Neural_Networks.py:30-45 | ratings (u1,r1,5), (u1,r2,2), (u2,r1,3) give the 2 x 2 matrix [[5,2],[3,0]] |
| `RatingMatrix.BuildMatrix` | bin/Neural_Networks.py:43-45 | the newly allocated array has `num_users` rows and `num_restaurants` columns and, after the fill loop, every cell equals the last-write value of the records' writes on a zero matrix |
| `RatingMatrix.Fill` | bin/Neural_Networks.py:44-45 | the fill loop: on a zero matrix, performing the in-bounds writes in order leaves every cell at its last-write value (0 where nothing was written) |
| `Ranking.ArgsortDesc` | bin/Neural_Networks.py:102 | the result lists every index of the score vector exactly once, by non-increasing score |
| `Ranking.Take` | bin/Neural_Networks.py:102 | Python's `[:top_n]` (also `.head(3)` at line 113): a prefix, of length min(k, n) for k >= 0, and n + k (at least 0) for a negative k |
| `Ranking.TopCandidates` | bin/Neural_Networks.py:102 | for any descending argsort, the first `top_n` are `min(top_n, n)` distinct indices in 0..n-1, by non-increasing score, and no index left out scores more than any candidate |
| `Ranking.Liked` | bin/Neural_Networks.py:105 | the liked list holds exactly the indices of the row rated at least 4, in ascending order |
| `Ranking.DropLiked` | bin/Neural_Networks.py:106 | the filtered list contains exactly the candidates not in the liked list, is an order-preserving subsequence of the candidates, and is no longer than them |
| `Ranking.DropLikedRanked` | bin/Neural_Networks.py:105-107 | filtering a ranked candidate list: empty iff every candidate is liked; otherwise a distinct, score-ordered subsequence keeping exactly the non-liked candidates, each rated below 4 |
| `Ranking.Recommend` | bin/Neural_Networks.py:102-113 | after the guards the outcome is either "no new restaurant" or a non-empty recommendation list with a context of at most 3 liked restaurants; `RecommendRanked` and `RecommendContext` state the rest |
| `Ranking.RecommendRanked` | bin/Neural_Networks.py:102-109 | the outcome is "no new restaurant" iff every top-N candidate is liked; otherwise the recommendations are the non-liked candidates in rank order, at most `top_n`, never liked, and every restaurant neither liked nor recommended scores no more than each recommended one |
| `Ranking.RecommendContext` | bin/Neural_Networks.py:105-113 | the liked context is the first min(3, number liked) liked restaurants in ascending index order |
| `Ranking.ExampleAllLiked` | bin/Neural_Networks.py:102-109 | ratings [5,4,0] with scores [9,8,1] and top 2: both candidates are liked, so only the "no new restaurant" notice results |
| `Recommender.RowIndex` | bin/Neural_Networks.py:89 | numpy row indexing: an index in `-n..n-1` selects a row below `n`, the same one for a non-negative index and row `n + i` for a negative one |
| `Recommender.UserRow` | bin/Neural_Networks.py:89-105 | `rating_matrix[user_id]`: one rating per restaurant column, the ratings of the row numpy's index rule selects |
| `Recommender.RecommenderState.constructor` | bin/Neural_Networks.py:9-11 | the process starts with all three globals unset, i.e. untrained |
| `Recommender.RecommenderState.TrainAutoencoder` | bin/Neural_Networks.py:17-45 | a missing restaurant file changes nothing; a missing ratings file replaces only the restaurant table; otherwise the table, the rebuilt matrix (a new array, shape and cells as `BuildMatrix`) and a network as wide as the matrix replace the old state; the network and the matrix stay set together and of equal width |
| `Recommender.RecommenderState.GetRecommendations` | bin/Neural_Networks.py:80-113 | untrained iff one of the three globals is unset; invalid user iff trained and the index is outside `-rows..rows-1`; otherwise the ranking of `predicted` against the user's matrix row, whose recommendations are columns of the matrix the user rated below 4; `top_n` defaults to 10; the state never changes |

## Left out

- CSV loading and `createCSVDataset` (lines 19-27): file I/O and a module that is not part of this model; only their effect on the state is modelled, through `Load`.
- `astype(int)` on `restaurant_id` (line 30): ids are integers from the start. User ids are modelled as integers too; string ids would be ordered lexicographically by pandas, which is not modelled. Missing values (pandas code -1) are not modelled.
- Ratings are integers; the source reads whatever numbers the CSV holds.
- Predicted scores are integers, a total order; the network returns floats, and the ordering of NaN scores (possible after the division at line 65 when the maximum rating is 0) in `argsort` is not modelled.
- The train/test split, layer construction, `compile`, `fit` and `predict` (lines 49-76, 99): library code and floating-point training. `epochs` and `batch_size` are therefore not parameters.
- TrainAutoencoder: does not model an exception raised after the matrix is assigned (line 43) and before the network is (line 60), for example by the train/test split of a matrix with fewer than two rows; such an exception would leave the new matrix beside the old network. The model assumes training completes once both files are read.
- Normalisation by the maximum rating (lines 64-66, 95-96), including the `max_rating > 0` guard at line 96: it only feeds the predictor, which is abstracted away.
- The order of equal scores in `argsort` (line 102): `ArgsortDesc` picks ascending index; the properties are proved for every tie order.
- `restaurants_df.iloc[...]` and the printing of names (lines 112-123): the model returns restaurant indices instead, and does not model the `IndexError` that `iloc` raises when an index is not a row of the restaurant table.
- Console messages (lines 23-24, 78, 85, 91, 108): results are returned as `TrainResult` and `Outcome` values.
- Non-integer user indices (which numpy rejects with an `IndexError`): `user_id` is an integer.
