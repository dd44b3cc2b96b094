/**
 Step 6 of the recommender: the five titles whose rating columns correlate best
 with a seed title, and the hybrid list, which puts the user-based titles first
 and the item-based titles after them.
 */
module Composer {
  import opened Tables
  import opened RatingMatrix
  import opened TopUsers
  import opened Scores

  /** An entry of the seed title's correlation series: a title and its correlation, None where NaN. */
  datatype ItemCorr = ItemCorr(title: string, corr: Option<real>)

  /** Sort key of the entries that have a correlation. */
  function ItemCorrKey(x: ItemCorr): real
  {
    if x.corr.Some? then x.corr.value else 0.0
  }

  /** Splitting on a predicate and its negation loses and invents no row. */
  lemma {:induction false} FilterSplit(series: seq<ItemCorr>)
    ensures multiset(Filter(series, (x: ItemCorr) => x.corr.Some?)) + multiset(Filter(series, (x: ItemCorr) => x.corr.None?))
            == multiset(series)
  {
    var a := Filter(series, (x: ItemCorr) => x.corr.Some?);
    var b := Filter(series, (x: ItemCorr) => x.corr.None?);
    assert forall x :: (multiset(a) + multiset(b))[x] == multiset(series)[x];
  }

  /** A permutation of entries that all have a correlation has only such entries. */
  lemma SortedAllDefined(defined: seq<ItemCorr>, sorted: seq<ItemCorr>)
    requires forall i :: 0 <= i < |defined| ==> defined[i].corr.Some?
    requires multiset(sorted) == multiset(defined)
    ensures forall i :: 0 <= i < |sorted| ==> sorted[i].corr.Some?
  {
    forall i | 0 <= i < |sorted| ensures sorted[i].corr.Some? {
      assert sorted[i] in multiset(sorted);
      var k :| 0 <= k < |defined| && defined[k] == sorted[i];
    }
  }

  /** Defined correlations in descending order followed by NaN entries satisfy the ranking order. */
  lemma DefinedThenMissing(sorted: seq<ItemCorr>, missing: seq<ItemCorr>)
    requires forall i :: 0 <= i < |sorted| ==> sorted[i].corr.Some?
    requires SortedDesc(sorted, ItemCorrKey)
    requires forall i :: 0 <= i < |missing| ==> missing[i].corr.None?
    ensures var ranked := sorted + missing;
            forall i, j :: 0 <= i < j < |ranked| && ranked[j].corr.Some? ==>
                             ranked[i].corr.Some? && ranked[i].corr.value >= ranked[j].corr.value
  {
    var ranked := sorted + missing;
    assert forall k :: |sorted| <= k < |ranked| ==> ranked[k] == missing[k - |sorted|];
    forall i, j | 0 <= i < j < |ranked| && ranked[j].corr.Some?
      ensures ranked[i].corr.Some? && ranked[i].corr.value >= ranked[j].corr.value
    {
      assert ranked[i] == sorted[i] && ranked[j] == sorted[j];
      assert ItemCorrKey(sorted[i]) >= ItemCorrKey(sorted[j]);
    }
  }

  /** The series in the order a descending sort gives it: defined correlations descending, NaN last. */
  function RankItems(series: seq<ItemCorr>): (ranked: seq<ItemCorr>)
    ensures multiset(ranked) == multiset(series) && |ranked| == |series|
    ensures forall i, j :: 0 <= i < j < |ranked| && ranked[j].corr.Some? ==>
                             ranked[i].corr.Some? && ranked[i].corr.value >= ranked[j].corr.value
  {
    var defined := Filter(series, (x: ItemCorr) => x.corr.Some?);
    var missing := Filter(series, (x: ItemCorr) => x.corr.None?);
    var sorted := SortDesc(defined, ItemCorrKey);
    FilterSplit(series);
    SortedAllDefined(defined, sorted);
    DefinedThenMissing(sorted, missing);
    var ranked := sorted + missing;
    assert multiset(ranked) == multiset(sorted) + multiset(missing);
    assert |ranked| == |multiset(ranked)|;
    ranked
  }

  /**
   `item_based_movies`: the first five entries of the ranked correlation series; the seed's own
   entry is not removed.
   */
  function ItemBasedMovies(series: seq<ItemCorr>): (r: seq<ItemCorr>)
    ensures |r| == if |series| <= TOP_K then |series| else TOP_K
    ensures r == RankItems(series)[..|r|]
    ensures multiset(r) <= multiset(series)
    ensures forall i, j :: 0 <= i < j < |r| && r[j].corr.Some? ==> r[i].corr.Some? && r[i].corr.value >= r[j].corr.value
  {
    var ranked := RankItems(series);
    var r := Take(ranked, TOP_K);
    assert forall i :: 0 <= i < |r| ==> r[i] == ranked[i];
    r
  }

  /**
   The five kept entries are the five highest: an entry with a correlation that is left out (or
   kept fewer times than it occurs) is outranked by five kept entries, all with a correlation.
   */
  lemma ItemBasedTopFive(series: seq<ItemCorr>, x: ItemCorr)
    requires x.corr.Some? && multiset(ItemBasedMovies(series))[x] < multiset(series)[x]
    ensures var r := ItemBasedMovies(series);
            |r| == TOP_K && forall i :: 0 <= i < |r| ==> r[i].corr.Some? && r[i].corr.value >= x.corr.value
  {
    var ranked := RankItems(series);
    var r := ItemBasedMovies(series);
    assert r == ranked[..|r|];
    var j := LeftOutOccursLater(ranked, |r|, x);
    KeptOutrank(series, j);
  }

  /** Every kept entry outranks a defined entry ranked after the kept prefix. */
  lemma KeptOutrank(series: seq<ItemCorr>, j: nat)
    requires |ItemBasedMovies(series)| <= j < |RankItems(series)| && RankItems(series)[j].corr.Some?
    ensures var r := ItemBasedMovies(series);
            |r| == TOP_K && forall i :: 0 <= i < |r| ==> r[i].corr.Some? && r[i].corr.value >= RankItems(series)[j].corr.value
  {
    var ranked := RankItems(series);
    var r := ItemBasedMovies(series);
    assert r == ranked[..|r|];
    forall i | 0 <= i < |r| ensures r[i].corr.Some? && r[i].corr.value >= ranked[j].corr.value {
      assert r[i] == ranked[i];
    }
  }

  /** An entry whose correlation is the largest in the series heads the list (one of them, when tied). */
  lemma HighestCorrelationFirst(series: seq<ItemCorr>, x: ItemCorr, c: real)
    requires x in series && x.corr == Some(c)
    requires forall y :: y in series && y.corr.Some? ==> y.corr.value <= c
    ensures |ItemBasedMovies(series)| > 0 && ItemBasedMovies(series)[0].corr == Some(c)
  {
    var ranked := RankItems(series);
    assert x in multiset(series);
    assert x in ranked;
    var k :| 0 <= k < |ranked| && ranked[k] == x;
    if k > 0 {
      assert ranked[0].corr.Some? && ranked[0].corr.value >= c;
      assert ranked[0] in multiset(ranked);
      assert ranked[0] in series;
    }
  }

  /**
   The seed title, whose correlation with itself is 1, heads its own list when no other entry
   reaches that correlation; with ties it may be ranked lower, or cut.
   */
  lemma UniqueHighestFirst(series: seq<ItemCorr>, x: ItemCorr, c: real)
    requires x in series && x.corr == Some(c)
    requires forall y :: y in series && y.corr.Some? ==> y.corr.value <= c
    requires forall y :: y in series && y.corr == Some(c) ==> y == x
    ensures |ItemBasedMovies(series)| > 0 && ItemBasedMovies(series)[0] == x
  {
    HighestCorrelationFirst(series, x, c);
    var ranked := RankItems(series);
    assert ItemBasedMovies(series)[0] == ranked[0];
    assert ranked[0] in multiset(ranked);
    assert ranked[0] in series;
  }

  /** The `title` column of a table, in row order. */
  function TitleColumn<T>(rows: seq<T>, title: T -> string): (titles: seq<string>)
    ensures |titles| == |rows|
    ensures forall i :: 0 <= i < |rows| ==> titles[i] == title(rows[i])
  {
    seq(|rows|, i requires 0 <= i < |rows| => title(rows[i]))
  }

  function RecommendedTitle(x: Recommended): string { x.title }

  function ItemTitle(x: ItemCorr): string { x.title }

  /** The hybrid list: the user-based title column followed by the item-based one, renumbered. */
  function HybridRecommend(userBased: seq<Recommended>, itemBased: seq<ItemCorr>): (titles: seq<string>)
    ensures |titles| == |userBased| + |itemBased|
    ensures forall i :: 0 <= i < |userBased| ==> titles[i] == userBased[i].title
    ensures forall i :: 0 <= i < |itemBased| ==> titles[|userBased| + i] == itemBased[i].title
  {
    TitleColumn(userBased, RecommendedTitle) + TitleColumn(itemBased, ItemTitle)
  }

  /** No duplicate is removed: a title in both lists occurs in the hybrid list as often as in both together. */
  lemma HybridKeepsDuplicates(userBased: seq<Recommended>, itemBased: seq<ItemCorr>, t: string)
    ensures multiset(HybridRecommend(userBased, itemBased))[t] ==
              multiset(TitleColumn(userBased, RecommendedTitle))[t] + multiset(TitleColumn(itemBased, ItemTitle))[t]
  {
    assert HybridRecommend(userBased, itemBased) == TitleColumn(userBased, RecommendedTitle) + TitleColumn(itemBased, ItemTitle);
  }

  /** A similar user other than the target rated movie `mid`. */
  ghost predicate RatedBySimilarUser(table: seq<CorrRow>, ratings: seq<Rating>, target: int, mid: int)
  {
    exists row :: row in TopUsersRatings(table, ratings, target) && row.movieId == mid
  }

  /**
   Steps 4 and 5 together: at most five catalog movies, ranked, each scoring above the cutoff and
   each rated by a similar user other than the target; an error when the similar users left no
   rating to score.
   */
  function UserBasedRecommendations(table: seq<CorrRow>, ratings: seq<Rating>, movies: seq<Movie>, target: int)
    : (r: Result<seq<Recommended>>)
    ensures r.Ok? <==> |TopUsersRatings(table, ratings, target)| > 0
    ensures r.Ok? ==> |r.value| <= TOP_K && SortedDesc(r.value, RecommendedScore)
    ensures r.Ok? ==> r.value == UserBasedMovies(MinMaxScale(RecommendationDf(TopUsersRatings(table, ratings, target))).value, movies)
    ensures r.Ok? ==> forall i :: 0 <= i < |r.value| ==>
                        && r.value[i].score > CUTOFF
                        && Movie(r.value[i].movieId, r.value[i].title) in movies
                        && RatedBySimilarUser(table, ratings, target, r.value[i].movieId)
  {
    var rows := TopUsersRatings(table, ratings, target);
    var scaled := MinMaxScale(RecommendationDf(rows));
    if scaled.Err? then Err(scaled.error)
    else
      PickedWereRated(rows, movies);
      Ok(UserBasedMovies(scaled.value, movies))
  }

  /** Every user-based pick is a movie that occurs in the rows that were scored. */
  lemma PickedWereRated(rows: seq<TopUserRating>, movies: seq<Movie>)
    requires MinMaxScale(RecommendationDf(rows)).Ok?
    ensures var picked := UserBasedMovies(MinMaxScale(RecommendationDf(rows)).value, movies);
            forall i :: 0 <= i < |picked| ==> exists row :: row in rows && row.movieId == picked[i].movieId
  {
    var scaled := MinMaxScale(RecommendationDf(rows)).value;
    var picked := UserBasedMovies(scaled, movies);
    forall i | 0 <= i < |picked| ensures exists row :: row in rows && row.movieId == picked[i].movieId {
      ScaledMovieWasRated(rows, Scored(picked[i].movieId, picked[i].score));
    }
  }

  /** Every rescaled movie is a movie of the scored rows. */
  lemma ScaledMovieWasRated(rows: seq<TopUserRating>, x: Scored)
    requires MinMaxScale(RecommendationDf(rows)).Ok? && x in MinMaxScale(RecommendationDf(rows)).value
    ensures exists row :: row in rows && row.movieId == x.movieId
  {
    var df := RecommendationDf(rows);
    var scaled := MinMaxScale(df).value;
    var k :| 0 <= k < |scaled| && scaled[k] == x;
    assert df[k].movieId == x.movieId;
  }

  /** The whole pipeline: user-based titles, then item-based titles, at most ten in all. */
  function Recommend(table: seq<CorrRow>, ratings: seq<Rating>, movies: seq<Movie>, target: int, series: seq<ItemCorr>)
    : (r: Result<seq<string>>)
    ensures r.Ok? <==> |TopUsersRatings(table, ratings, target)| > 0
    ensures r.Ok? ==> |r.value| <= 2 * TOP_K
    ensures r.Ok? ==> r.value == HybridRecommend(UserBasedRecommendations(table, ratings, movies, target).value,
                                                 ItemBasedMovies(series))
  {
    match UserBasedRecommendations(table, ratings, movies, target)
    case Err(e) => Err(e)
    case Ok(userBased) => Ok(HybridRecommend(userBased, ItemBasedMovies(series)))
  }

  /** A target with no qualifying correlation pair gets the scaler's error, not an empty list. */
  lemma NoSimilarUserIsError(table: seq<CorrRow>, ratings: seq<Rating>, movies: seq<Movie>, target: int, series: seq<ItemCorr>)
    requires forall row :: row in table ==> !Qualifies(row, target)
    ensures Recommend(table, ratings, movies, target, series) == Err(EmptyScores)
  {
    var rows := TopUsersRatings(table, ratings, target);
    if |rows| > 0 {
      assert rows[0] in rows;
      var top := SelectTopUsers(table, target);
      assert TopUser(rows[0].userId, rows[0].corr) in top;
      TopUsersExact(table, target, rows[0].userId, rows[0].corr);
      assert Qualifies(CorrRow(target, rows[0].userId, Some(rows[0].corr)), target);
    }
  }
}
