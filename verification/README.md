# Hybrid movie recommender — a Dafny model

This project models the pipeline of `Hybrid_Recommender.py`, a pandas script
that recommends movies to one target user on the MovieLens data. It blends
user-based and item-based collaborative filtering. The script has no
functions: it is a sequence of whole-table steps. Each step is modelled here
as a pure Dafny function over sequences of rows and finite maps. User and
movie ids are `int`, ratings and correlations are `real`, and a NaN cell is
`None`.

The steps, one module each:

- `RatingMatrix` (lines 24-37). The catalog is left-joined with the rating log.
  Rows are counted per title. Every title with at most 1000 rows is dropped
  with all of its rows. The rest is pivoted into a user -> title -> rating map.
  A missing key means "unrated", and duplicate cells are averaged as
  `pivot_table` does.
- `Cohort` (lines 47-85). The watched set is the target's non-missing
  columns. Each user's overlap count is taken over the watched titles. The
  cohort is the users whose count is strictly above `len(watched) * 65 / 100`.
  `final_df` is built from the cohort rows plus the target's row.
- `TopUsers` (lines 104-116). The target's pairs with correlation of at least
  0.65 are kept and ordered by decreasing correlation. They are inner-joined
  with the rating log, and the target's own rows are dropped.
- `Scores` (lines 122-144). Each row gets `weighted_rating = corr * rating`,
  and each movie gets the mean of its weighted ratings. The means are
  min-max rescaled onto [0, 5], where an empty range maps every score to 0.
  Movies above 4.5 are kept, sorted in descending order and titled, and the
  first five are taken.
- `Composer` (lines 168-181). The item-based top five come from a
  correlation series. The hybrid list is the user-based titles followed by
  the item-based titles.
- `Tables` holds generic helpers: boolean selection, `head`, a descending
  sort, distinct values, and the mean, minimum and maximum of a column.

Correlation coefficients are inputs, not computed values. There are two:
a `(user_id_1, user_id_2, corr)` table, and the `corrwith` series of a seed
title.

## Model

| member | source | states |
|---|---|---|
| `Tables.Filter` | Hybrid_Recommender.py:28 | boolean indexing keeps exactly the rows satisfying the condition, each with its original multiplicity, and no other row |
| `Tables.Take` | Hybrid_Recommender.py:144 | `head(k)` is the prefix of length min(k, n), drawn from the table's rows |
| `Tables.TakeTop` | Hybrid_Recommender.py:142-144 | on a descending table, a row left out by `head(k)` is outranked by all k kept rows |
| `Tables.SortDesc` | Hybrid_Recommender.py:106 | `sort_values(ascending=False)` yields the same multiset of rows in non-increasing key order |
| `Tables.Mean` | Hybrid_Recommender.py:128 | the mean of a non-empty column lies between the column's minimum and maximum |
| `Tables.MeanConstant` | Hybrid_Recommender.py:128 | the mean of a column whose values are all c is c |
| `RatingMatrix.Merge` | Hybrid_Recommender.py:24 | the left join holds a rated row for every catalog movie and each of its ratings, plus one unrated row for a catalog movie with no rating, and nothing else; a rating of an unknown movie vanishes (multiplicities in the next three rows) |
| `RatingMatrix.VotesFor` | Hybrid_Recommender.py:24 | a catalog entry gets one rated row per rating of its movie: as many rows as ratings, each (user, rating) as often as the log holds it |
| `RatingMatrix.MergeMovie` | Hybrid_Recommender.py:24 | a catalog entry yields max(1, its rating count) rows, all with its id and title, the unrated row exactly when nobody rated it |
| `RatingMatrix.MergeRatedMultiplicity` | Hybrid_Recommender.py:24 | a rated join row occurs (copies of the catalog entry) × (ratings of that movie with that user and value) times |
| `RatingMatrix.MergeUnratedMultiplicity` | Hybrid_Recommender.py:24 | an unrated join row occurs once per copy of the catalog entry when the movie has no rating, and never otherwise |
| `RatingMatrix.MergeTitleCount` | Hybrid_Recommender.py:24-26 | the count `value_counts` gives a title is, over the catalog entries with that title, the sum of their rating counts, an unrated entry counting 1 |
| `RatingMatrix.TitleCount` | Hybrid_Recommender.py:26 | the per-title row count is positive exactly when the title occurs, and never exceeds the table's length |
| `RatingMatrix.CommonMovies` | Hybrid_Recommender.py:26-28 | a row survives iff its title has more than 1000 rows; a surviving title keeps all of its rows, a rare title keeps none |
| `RatingMatrix.CellRatings` | Hybrid_Recommender.py:37 | the values averaged into a cell are exactly the ratings the user gave that title |
| `RatingMatrix.CellRatingsPerRow` | Hybrid_Recommender.py:37 | a value occurs among those averaged into a cell once per row in which the user gave that title that rating, so repeated ratings weigh in the mean |
| `RatingMatrix.Pivot` | Hybrid_Recommender.py:37 | the matrix has a row for exactly the users with a rated row, and a cell for exactly the (user, title) pairs that were rated: missing means unrated, never 0 |
| `RatingMatrix.PivotCellIsMean` | Hybrid_Recommender.py:37 | a cell is the mean of the user's ratings of that title, one value per rated row (see `CellRatingsPerRow`), as `pivot_table`'s default mean aggregation gives |
| `RatingMatrix.PivotCellBetween` | Hybrid_Recommender.py:37 | a cell lies between the smallest and largest rating the user gave that title |
| `RatingMatrix.PivotCellSingleValue` | Hybrid_Recommender.py:37 | a user who gave a title one rating value has exactly that value in the cell |
| `RatingMatrix.RatedRowHasSource` | Hybrid_Recommender.py:24 | a rated row of the join comes from a catalog movie and a rating of that movie by that user |
| `RatingMatrix.MatrixCellSound` | Hybrid_Recommender.py:24-37 | every cell of the built matrix is a popular title that the user rated |
| `RatingMatrix.MatrixCellComplete` | Hybrid_Recommender.py:24-37 | every popular title the user rated has a cell |
| `RatingMatrix.MatrixCells` | Hybrid_Recommender.py:24-37 | a cell exists iff the user rated a catalog movie with that title and the title has more than 1000 rows in the join |
| `Cohort.Watched` | Hybrid_Recommender.py:47-49 | a target outside the matrix has watched nothing |
| `Cohort.WatchedAreRatedPopularTitles` | Hybrid_Recommender.py:47-49 | `movies_watched` is exactly the set of popular catalog titles the target rated |
| `Cohort.OverlapSize` | Hybrid_Recommender.py:62 | a user's count of non-missing watched titles is at most `len(movies_watched)`, and equals it when the user rated them all |
| `Cohort.MovieCounts` | Hybrid_Recommender.py:58-67 | `user_movie_count` has one entry per user of the matrix, the number of watched titles that user rated, bounded by `len(movies_watched)` |
| `Cohort.TargetCountIsWatched` | Hybrid_Recommender.py:58-62 | the target's own count equals `len(movies_watched)` |
| `Cohort.SameMovieUsers` | Hybrid_Recommender.py:70-71 | a user is in `users_same_movies` iff `movie_count * 100 > len(movies_watched) * 65`, the integer form of the strict real comparison |
| `Cohort.TargetInOwnCohort` | Hybrid_Recommender.py:70-71 | a target that watched at least one title is in its own cohort |
| `Cohort.UnknownTargetEmptyCohort` | Hybrid_Recommender.py:47-71 | a target absent from the matrix has no watched titles and an empty cohort (no error is raised) |
| `Cohort.WatchedCells` | Hybrid_Recommender.py:58 | a user's row restricted to the watched columns keeps exactly the rated watched titles, with their values |
| `Cohort.FinalDf` | Hybrid_Recommender.py:84-85 | `final_df` holds the watched-column rows of the cohort users plus the target's watched-column row when the target is in the matrix |
| `Cohort.TargetRowTwice` | Hybrid_Recommender.py:84-85 | the target's row is both in the cohort part and appended again, so `final_df` has one row more than the cohort |
| `TopUsers.TopUserRows` | Hybrid_Recommender.py:104 | `top_user` holds exactly the (user_id_2, corr) pairs of rows with user_id_1 = target and corr >= 0.65; NaN never qualifies |
| `TopUsers.TopUserRowsPerRow` | Hybrid_Recommender.py:104 | a (user_id_2, corr) pair occurs in `top_user` once per qualifying table row carrying it, so a repeated pair stays repeated |
| `TopUsers.SelectTopUsers` | Hybrid_Recommender.py:104-107 | `top_users` is a permutation of those rows, ordered by non-increasing corr, every corr >= 0.65 |
| `TopUsers.TopUsersExact` | Hybrid_Recommender.py:104-106 | (u, c) is a top user iff the table pairs the target with u at correlation c and c >= 0.65 |
| `TopUsers.SelfPairPassesThreshold` | Hybrid_Recommender.py:104-116 | a self-pair with correlation 1.0 makes the target its own top user, so the threshold alone does not exclude it |
| `TopUsers.RatingsOfUser` | Hybrid_Recommender.py:113 | the join rows of one top user are exactly that user's ratings, each tagged with the user's correlation |
| `TopUsers.RatingsOfUserMultiplicity` | Hybrid_Recommender.py:113 | one tagged row per rating of the user: a row occurs as often as the log holds that (user, movie, rating) |
| `TopUsers.JoinRatings` | Hybrid_Recommender.py:113 | the inner join holds exactly the (top user, rating of that user) combinations |
| `TopUsers.JoinRatingsMultiplicity` | Hybrid_Recommender.py:113 | a join row occurs (occurrences of its top user) × (matching ratings) times |
| `TopUsers.ExcludeTarget` | Hybrid_Recommender.py:116 | no remaining row has userId = target, and every other row is kept with its multiplicity |
| `TopUsers.TopUsersRatings` | Hybrid_Recommender.py:104-116 | `top_users_ratings` holds exactly the joined rows of top users other than the target, each with corr >= 0.65 |
| `TopUsers.TopUsersRatingsMultiplicity` | Hybrid_Recommender.py:104-116 | the multiset the mean consumes: a row of a non-target user occurs (qualifying table rows with that user and corr) × (matching ratings) times; a target row never occurs |
| `Scores.MovieIds` | Hybrid_Recommender.py:128 | the movieId column holds exactly the movies of the rows |
| `Scores.GroupWeighted` | Hybrid_Recommender.py:122-128 | a movie's group holds exactly the `corr * rating` values of that movie's rows |
| `Scores.GroupWeightedPerRow` | Hybrid_Recommender.py:122-128 | a weight occurs in a movie's group once per row of that movie with that `corr * rating`, so equal weights from different rows stay repeated |
| `Scores.RecommendationDf` | Hybrid_Recommender.py:128-129 | `recommendation_df` has one row per distinct movie of the input and no other, and is empty iff the input is |
| `Scores.ScoreIsGroupMean` | Hybrid_Recommender.py:122-128 | each movie's score is the mean of its group's weighted ratings (one per row, by `GroupWeightedPerRow`) |
| `Scores.ScoreWithinGroup` | Hybrid_Recommender.py:122-128 | each movie's score lies between the smallest and largest weighted rating of its rows |
| `Scores.UniformGroupScore` | Hybrid_Recommender.py:122-128 | a movie whose rows all weigh w scores w; one row with corr 1.0 and rating 5 scores 5.0 |
| `Scores.Rescale` | Hybrid_Recommender.py:137-139 | a score in [min, max] is rescaled into [0, 5]: the maximum goes to 5 when the range is non-empty, and the minimum goes to 0 |
| `Scores.RescaleStrict` | Hybrid_Recommender.py:137-139 | with a non-empty range, rescaling is strictly increasing in both directions |
| `Scores.MinMaxScale` | Hybrid_Recommender.py:137-139 | fitting on an empty column is an error; otherwise every movie keeps its id and gets the closed-form `Rescale` of its score with the column's minimum and maximum, which lies in [0, 5]; order between movies is preserved |
| `Scores.MinMaxExtremes` | Hybrid_Recommender.py:137-139 | when scores differ, a largest raw score maps to exactly 5 and a smallest to exactly 0 |
| `Scores.MinMaxKeepsStrictOrder` | Hybrid_Recommender.py:137-139 | when scores differ, raw score i < raw score j iff scaled i < scaled j |
| `Scores.MinMaxAllEqual` | Hybrid_Recommender.py:137-139 | when all scores are equal, every scaled score is 0 (the zero-range guard) |
| `Scores.MoviesToRecommend` | Hybrid_Recommender.py:142 | exactly the movies scoring above 4.5 are kept, with their multiplicities, in non-increasing score order |
| `Scores.TitlesFor` | Hybrid_Recommender.py:144 | a scored movie is joined with exactly the catalog entries of its movieId |
| `Scores.WithTitles` | Hybrid_Recommender.py:144 | the inner join with the catalog pairs each ranked movie with exactly its catalog titles, and a descending ranking stays descending |
| `Scores.TitlesForMultiplicity` | Hybrid_Recommender.py:144 | a scored row yields one joined row per catalog entry of its movieId |
| `Scores.WithTitlesMultiplicity` | Hybrid_Recommender.py:144 | a joined row occurs (copies of the ranked row) × (copies of the catalog entry) times, as an inner merge gives |
| `Scores.TitledRankingMultiplicity` | Hybrid_Recommender.py:142-144 | the titled ranking holds each catalog title of a scaled movie above 4.5 once per scaled copy and per catalog copy, and nothing else |
| `Scores.UserBasedMovies` | Hybrid_Recommender.py:142-144 | `user_based_movies` has at most 5 rows, in non-increasing order, each scoring above 4.5 and each a catalog movie taken from the scaled table |
| `Scores.UserBasedCount` | Hybrid_Recommender.py:144 | `head()` keeps the first min(5, number of titled ranked rows) rows of the titled ranking |
| `Scores.UserBasedTopFive` | Hybrid_Recommender.py:142-144 | a catalog movie scoring above 4.5 is picked unless five picks already score at least as high |
| `Composer.RankItems` | Hybrid_Recommender.py:168 | the correlation series is permuted so that defined correlations come first in non-increasing order and NaN entries come last |
| `Composer.ItemBasedMovies` | Hybrid_Recommender.py:168-170 | `item_based_movies` has min(5, n) entries and is the prefix of the ranked series, with the defined correlations first and in non-increasing order |
| `Composer.ItemBasedTopFive` | Hybrid_Recommender.py:168 | an entry with a correlation that is left out is outranked by all five kept entries, each with a correlation |
| `Composer.HighestCorrelationFirst` | Hybrid_Recommender.py:166-168 | an entry holding the largest correlation heads the list; with ties it may be another entry of that correlation |
| `Composer.UniqueHighestFirst` | Hybrid_Recommender.py:166-168 | an entry that alone holds the largest correlation heads the list: the seed (self-correlation 1) heads it when no other title reaches 1; with more than five ties it can be cut |
| `Composer.TitleColumn` | Hybrid_Recommender.py:181 | the `title` column of either list, one entry per row in the rows' order |
| `Composer.HybridRecommend` | Hybrid_Recommender.py:181 | the hybrid list is the user-based titles followed by the item-based titles, with length equal to the sum of the two |
| `Composer.HybridKeepsDuplicates` | Hybrid_Recommender.py:181 | no dedup: a title occurs in the hybrid list as often as in both lists together |
| `Composer.PickedWereRated` | Hybrid_Recommender.py:128-144 | every user-based pick is a movie that occurs in the scored rows |
| `Composer.UserBasedRecommendations` | Hybrid_Recommender.py:104-144 | the user-based result is an error iff no rating of a similar user other than the target remains; otherwise it is `UserBasedMovies` of the rescaled per-movie means (so the top-five property holds), at most 5 ranked catalog movies above 4.5, each rated by such a user |
| `Composer.Recommend` | Hybrid_Recommender.py:104-181 | the pipeline succeeds iff scored rows remain, and then returns at most 10 titles: the user-based titles, then the item-based titles |
| `Composer.NoSimilarUserIsError` | Hybrid_Recommender.py:104-139 | a target with no qualifying correlation pair gets the scaler's error, not an empty list |

## Left out

- Loading the two CSV files (lines 21-22 and 112) and `pd.set_option` (18-19) are file I/O and display settings. The catalog and the rating log are input sequences. Line 112 reads `datasets/movie_lens_dataset/rating.csv` while line 22 reads `Datasets/movie_lens_dataset/rating.csv`; the model assumes both paths name one file, so the same rating log is used for the pivot and for the join at line 113. The join uses the whole log, not the popularity-filtered rows, as the script does.
- The inspection expressions whose results are discarded (`.shape`, `.head()`, `.nunique()`, `.max()`, `.count()`) are not modelled.
- The random choice of the target user (line 40) is nondeterministic. The target is a parameter.
- Pearson correlation is not modelled: `final_df.T.corr()` (line 89, whose result is discarded) and `corrwith` (line 168). They need floating point, square roots and pandas' pairwise-complete semantics. The `(user_id_1, user_id_2, corr)` table and the `corrwith` series are inputs. As written, line 92 reads `corr_df` before it is defined, so the script stops there. The model takes the table the later lines evidently expect. Correlation symmetry is therefore not stated.
- The seed title (lines 162-167) is not modelled. Line 162 binds `movie_id` to a sorted frame rather than an id, and line 163 is a separate statement that indexes a one-element list literal, which has no `.values`, so it fails when run. The title is then hard-coded. The model sees the seed only through the correlation series. The series' titles are not tied to the matrix columns, and a seed that is not a column (a `KeyError` at line 167) is not modelled.
- Floating-point rounding is not modelled: all arithmetic is exact `real`. `MinMaxScaler`'s `X * scale_ + min_` is stated in closed form as `(s - min) / (max - min) * 5`, with 0 for an empty range.
- The model assumes the pandas versions before 2.0 that the script was written for. In those, `value_counts` yields a column named `title`, which line 27 reads.
- `Tables.SortDesc`: pandas' default sort is not stable, so ties between equal keys come out in no specified order. The model uses a stable insertion sort, so its tie order is one admissible choice. `SelectTopUsers`, `MoviesToRecommend` and `RankItems` inherit this.
- `Scores.RecommendationDf`: `groupby` orders movies by ascending movieId, but the model lists them in order of first appearance. The only visible effect is the tie order after the score sort, which pandas leaves unspecified anyway.
- The script raises no error for an unknown target: it gets an empty watched set and an empty cohort (`UnknownTargetEmptyCohort`).
- The scaler's rejection of an empty score table is the only modelled error (`NoSimilarUserIsError`).
- An all-equal score column, including a single-movie column, rescales to 0 (`MinMaxAllEqual`), so such a movie is never recommended.
- The seed title is not excluded from its own item-based list (`UniqueHighestFirst`).
- `final_df` (lines 84-85) feeds only the correlation step, which is not modelled. Its duplicated target row (`TargetRowTwice`) therefore has no modelled downstream effect.
