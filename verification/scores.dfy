/**
 Step 5 of the recommender: every rating of a similar user is weighted by that
 user's correlation, the weighted ratings are averaged per movie, the averages
 are min-max rescaled onto [0, 5], and the movies scoring above 4.5 are ranked
 and named.
 */
module Scores {
  import opened Tables
  import opened RatingMatrix
  import opened TopUsers

  /** Upper end of the scaler's target range; the lower end is 0. */
  const SCALE_MAX: real := 5.0
  /** A movie is recommended when its rescaled score is strictly above this. */
  const CUTOFF: real := 4.5
  /** `head()` keeps this many rows. */
  const TOP_K: nat := 5

  /** `MinMaxScaler.fit` rejects a frame without rows. */
  datatype Error = EmptyScores

  datatype Result<T> = Ok(value: T) | Err(error: Error)

  /** A row of `recommendation_df`: a movie and its score. */
  datatype Scored = Scored(movieId: int, score: real)

  /** A row of `user_based_movies`: a recommended movie with its score and catalog title. */
  datatype Recommended = Recommended(movieId: int, score: real, title: string)

  /** The `weighted_rating` column: the rating scaled by the rater's correlation with the target. */
  function WeightedRating(row: TopUserRating): real
  {
    row.corr * row.rating
  }

  function ScoreOf(x: Scored): real
  {
    x.score
  }

  function RecommendedScore(x: Recommended): real
  {
    x.score
  }

  /** The movieId column. */
  function MovieIds(rows: seq<TopUserRating>): (ids: seq<int>)
    ensures forall mid :: mid in ids <==> exists row :: row in rows && row.movieId == mid
  {
    if rows == [] then []
    else
      assert rows == [rows[0]] + rows[1..];
      [rows[0].movieId] + MovieIds(rows[1..])
  }

  /** The groupby keys: each movie of the rows once. */
  function MovieKeys(rows: seq<TopUserRating>): (ids: seq<int>)
    ensures forall mid :: mid in ids ==> exists row :: row in rows && row.movieId == mid
    ensures forall row :: row in rows ==> row.movieId in ids
    ensures forall i, j :: 0 <= i < j < |ids| ==> ids[i] != ids[j]
  {
    var ids := Distinct(MovieIds(rows));
    assert forall row :: row in rows ==> row.movieId in MovieIds(rows);
    ids
  }

  /** The weighted ratings of the rows of movie `mid`, in row order. */
  function GroupWeighted(rows: seq<TopUserRating>, mid: int): (ws: seq<real>)
    ensures forall w :: w in ws <==> exists row :: row in rows && row.movieId == mid && WeightedRating(row) == w
  {
    if rows == [] then []
    else
      var rest := GroupWeighted(rows[1..], mid);
      assert rows == [rows[0]] + rows[1..];
      if rows[0].movieId == mid then [WeightedRating(rows[0])] + rest else rest
  }

  /** Number of rows of movie `mid` whose weighted rating is `w`. */
  function WeightCount(rows: seq<TopUserRating>, mid: int, w: real): nat
  {
    if rows == [] then 0
    else (if rows[0].movieId == mid && WeightedRating(rows[0]) == w then 1 else 0) + WeightCount(rows[1..], mid, w)
  }

  /** A movie's group holds one weighted rating per row of that movie: equal weights from different rows stay repeated. */
  lemma {:induction false} GroupWeightedPerRow(rows: seq<TopUserRating>, mid: int, w: real)
    ensures multiset(GroupWeighted(rows, mid))[w] == WeightCount(rows, mid, w)
  {
    if rows != [] {
      assert rows == [rows[0]] + rows[1..];
      GroupWeightedPerRow(rows[1..], mid, w);
    }
  }

  /** The mean weighted rating of movie `mid`, which must occur in `rows`. */
  function GroupScore(rows: seq<TopUserRating>, mid: int): real
    requires exists row :: row in rows && row.movieId == mid
  {
    GroupNonEmpty(rows, mid);
    Mean(GroupWeighted(rows, mid))
  }

  /** A movie that occurs in the rows has at least one weighted rating. */
  lemma GroupNonEmpty(rows: seq<TopUserRating>, mid: int)
    requires exists row :: row in rows && row.movieId == mid
    ensures |GroupWeighted(rows, mid)| > 0
  {
    var row :| row in rows && row.movieId == mid;
    assert WeightedRating(row) in GroupWeighted(rows, mid);
  }

  /**
   The weighted ratings grouped by movie and averaged: one row per movie that occurs in
   `rows`, and no other.
   */
  function RecommendationDf(rows: seq<TopUserRating>): (table: seq<Scored>)
    ensures forall i, j :: 0 <= i < j < |table| ==> table[i].movieId != table[j].movieId
    ensures forall i :: 0 <= i < |table| ==> exists row :: row in rows && row.movieId == table[i].movieId
    ensures forall row :: row in rows ==> exists i :: 0 <= i < |table| && table[i].movieId == row.movieId
    ensures |table| == 0 <==> |rows| == 0
  {
    var ids := MovieKeys(rows);
    var table := GroupScores(rows, ids);
    KeysOccur(rows, ids, table);
    KeysCover(rows, ids, table);
    table
  }

  /** A table keyed by distinct movies of `rows` has distinct keys, each naming a movie of `rows`. */
  lemma KeysOccur(rows: seq<TopUserRating>, ids: seq<int>, table: seq<Scored>)
    requires forall mid :: mid in ids ==> exists row :: row in rows && row.movieId == mid
    requires forall i, j :: 0 <= i < j < |ids| ==> ids[i] != ids[j]
    requires |table| == |ids| && forall i :: 0 <= i < |ids| ==> table[i].movieId == ids[i]
    ensures forall i, j :: 0 <= i < j < |table| ==> table[i].movieId != table[j].movieId
    ensures forall i :: 0 <= i < |table| ==> exists row :: row in rows && row.movieId == table[i].movieId
    ensures |table| > 0 ==> |rows| > 0
  {
    forall i | 0 <= i < |table| ensures exists row :: row in rows && row.movieId == table[i].movieId {
      assert ids[i] in ids;
    }
    if ids != [] {
      assert ids[0] in ids;
    }
  }

  /** Every movie of `rows` has a row in a table keyed by a column holding all of them. */
  lemma KeysCover(rows: seq<TopUserRating>, ids: seq<int>, table: seq<Scored>)
    requires forall row :: row in rows ==> row.movieId in ids
    requires |table| == |ids| && forall i :: 0 <= i < |ids| ==> table[i].movieId == ids[i]
    ensures forall row :: row in rows ==> exists i :: 0 <= i < |table| && table[i].movieId == row.movieId
    ensures |rows| > 0 ==> |table| > 0
  {
    forall row | row in rows ensures exists i :: 0 <= i < |table| && table[i].movieId == row.movieId {
      var i :| 0 <= i < |ids| && ids[i] == row.movieId;
      assert table[i].movieId == row.movieId;
    }
    if rows != [] {
      assert rows[0].movieId in ids;
    }
  }

  /** One scored row per id of `ids`, in that order. */
  function GroupScores(rows: seq<TopUserRating>, ids: seq<int>): (table: seq<Scored>)
    requires forall mid :: mid in ids ==> exists row :: row in rows && row.movieId == mid
    ensures |table| == |ids|
    ensures forall i :: 0 <= i < |ids| ==> table[i].movieId == ids[i]
    ensures forall i :: 0 <= i < |ids| ==> ids[i] in ids && table[i].score == GroupScore(rows, ids[i])
  {
    seq(|ids|, i requires 0 <= i < |ids| => assert ids[i] in ids; Scored(ids[i], GroupScore(rows, ids[i])))
  }

  /** Each movie's score is the mean of the weighted ratings of that movie's rows. */
  lemma ScoreIsGroupMean(rows: seq<TopUserRating>, i: nat)
    requires i < |RecommendationDf(rows)|
    ensures var x := RecommendationDf(rows)[i];
            |GroupWeighted(rows, x.movieId)| > 0 && x.score == Mean(GroupWeighted(rows, x.movieId))
  {
    var ids := MovieKeys(rows);
    assert RecommendationDf(rows)[i].movieId == ids[i];
    assert RecommendationDf(rows)[i].score == GroupScore(rows, ids[i]);
  }

  /** Each score lies between the smallest and the largest weighted rating of its movie's rows. */
  lemma ScoreWithinGroup(rows: seq<TopUserRating>, i: nat)
    requires i < |RecommendationDf(rows)|
    ensures var x := RecommendationDf(rows)[i];
            exists r1, r2 ::
              && r1 in rows && r2 in rows && r1.movieId == x.movieId && r2.movieId == x.movieId
              && WeightedRating(r1) <= x.score <= WeightedRating(r2)
  {
    var x := RecommendationDf(rows)[i];
    ScoreIsGroupMean(rows, i);
    GroupMeanWithin(rows, x.movieId);
  }

  lemma GroupMeanWithin(rows: seq<TopUserRating>, mid: int)
    requires |GroupWeighted(rows, mid)| > 0
    ensures exists r1, r2 ::
              && r1 in rows && r2 in rows && r1.movieId == mid && r2.movieId == mid
              && WeightedRating(r1) <= Mean(GroupWeighted(rows, mid)) <= WeightedRating(r2)
  {
    var ws := GroupWeighted(rows, mid);
    var lo, hi := SeqMin(ws), SeqMax(ws);
    var r1 :| r1 in rows && r1.movieId == mid && WeightedRating(r1) == lo;
    var r2 :| r2 in rows && r2.movieId == mid && WeightedRating(r2) == hi;
  }

  /**
   A movie whose rows all carry the same weighted rating `w` scores exactly `w`; in particular a
   movie rated once, by a user with correlation 1.0 and rating 5, scores 5.0.
   */
  lemma UniformGroupScore(rows: seq<TopUserRating>, i: nat, w: real)
    requires i < |RecommendationDf(rows)|
    requires forall row :: row in rows && row.movieId == RecommendationDf(rows)[i].movieId ==> WeightedRating(row) == w
    ensures RecommendationDf(rows)[i].score == w
  {
    var x := RecommendationDf(rows)[i];
    ScoreIsGroupMean(rows, i);
    var ws := GroupWeighted(rows, x.movieId);
    forall k | 0 <= k < |ws| ensures ws[k] == w {
      assert ws[k] in ws;
    }
    MeanConstant(ws, w);
  }

  /** The score column. */
  function Column(table: seq<Scored>): (s: seq<real>)
    ensures |s| == |table|
    ensures forall i :: 0 <= i < |table| ==> s[i] == table[i].score
  {
    seq(|table|, i requires 0 <= i < |table| => table[i].score)
  }

  /** Quotients by a positive divisor keep the order of their dividends. */
  lemma DivMonotone(a: real, b: real, d: real)
    requires d > 0.0 && a <= b
    ensures a / d <= b / d
  {
  }

  /** The closed form of the fitted scaler: zero when the range is empty, otherwise (s - lo) / (hi - lo) * 5. */
  function Rescale(s: real, lo: real, hi: real): (r: real)
    requires lo <= s <= hi
    ensures 0.0 <= r <= SCALE_MAX
    ensures lo < hi && s == hi ==> r == SCALE_MAX
    ensures s == lo ==> r == 0.0
  {
    if hi == lo then 0.0
    else
      DivMonotone(0.0, s - lo, hi - lo);
      DivMonotone(s - lo, hi - lo, hi - lo);
      DivSelf(hi - lo);
      (s - lo) / (hi - lo) * SCALE_MAX
  }

  /** Rescaling with a non-empty range is strictly increasing. */
  lemma RescaleStrict(s1: real, s2: real, lo: real, hi: real)
    requires lo <= s1 <= hi && lo <= s2 <= hi && lo < hi
    ensures s1 < s2 <==> Rescale(s1, lo, hi) < Rescale(s2, lo, hi)
  {
    if s1 < s2 {
      assert (s2 - lo) / (hi - lo) - (s1 - lo) / (hi - lo) == (s2 - s1) / (hi - lo);
      DivPositive(s2 - s1, hi - lo);
    } else {
      DivMonotone(s2 - lo, s1 - lo, hi - lo);
    }
  }

  lemma DivSelf(d: real)
    requires d > 0.0
    ensures d / d == 1.0
  {
  }

  lemma DivPositive(a: real, d: real)
    requires a > 0.0 && d > 0.0
    ensures a / d > 0.0
  {
  }

  /**
   `scaler.fit` then `scaler.transform` on the score column: every score is mapped onto
   [0, 5] with the column's minimum and maximum, and an empty column is an error.
   */
  function MinMaxScale(table: seq<Scored>): (r: Result<seq<Scored>>)
    ensures r.Ok? <==> |table| > 0
    ensures r.Ok? ==> |r.value| == |table|
    ensures r.Ok? ==> forall i :: 0 <= i < |table| ==>
                        r.value[i].movieId == table[i].movieId && 0.0 <= r.value[i].score <= SCALE_MAX
    ensures r.Ok? ==> forall i, j :: 0 <= i < |table| && 0 <= j < |table| && table[i].score <= table[j].score ==>
                        r.value[i].score <= r.value[j].score
    ensures r.Ok? ==> forall i :: 0 <= i < |table| ==>
                        r.value[i].score == Rescale(table[i].score, SeqMin(Column(table)), SeqMax(Column(table)))
  {
    if table == [] then Err(EmptyScores)
    else
      var col := Column(table);
      var lo, hi := SeqMin(col), SeqMax(col);
      var scaled := seq(|table|, i requires 0 <= i < |table| => Scored(table[i].movieId, Rescale(table[i].score, lo, hi)));
      forall i, j | 0 <= i < |table| && 0 <= j < |table| && table[i].score <= table[j].score
        ensures scaled[i].score <= scaled[j].score
      {
        if lo < hi {
          RescaleStrict(table[i].score, table[j].score, lo, hi);
        }
      }
      Ok(scaled)
  }

  /** With scores that are not all equal, a largest score is rescaled to exactly 5 and a smallest to exactly 0. */
  lemma MinMaxExtremes(table: seq<Scored>, i: nat, j: nat)
    requires i < |table| && j < |table| && table[i].score != table[j].score
    ensures MinMaxScale(table).Ok?
    ensures (forall k :: 0 <= k < |table| ==> table[k].score <= table[i].score) ==> MinMaxScale(table).value[i].score == SCALE_MAX
    ensures (forall k :: 0 <= k < |table| ==> table[i].score <= table[k].score) ==> MinMaxScale(table).value[i].score == 0.0
  {
    var col := Column(table);
    var lo, hi := SeqMin(col), SeqMax(col);
    assert lo <= col[i] && lo <= col[j] && col[i] <= hi && col[j] <= hi;
    assert lo < hi;
    if forall k :: 0 <= k < |table| ==> table[k].score <= table[i].score {
      var k :| 0 <= k < |col| && col[k] == hi;
      assert table[i].score == hi;
    }
    if forall k :: 0 <= k < |table| ==> table[i].score <= table[k].score {
      var k :| 0 <= k < |col| && col[k] == lo;
      assert table[i].score == lo;
    }
  }

  /** With scores that are not all equal, rescaling keeps strict order in both directions. */
  lemma MinMaxKeepsStrictOrder(table: seq<Scored>, i: nat, j: nat)
    requires i < |table| && j < |table|
    requires exists a, b :: 0 <= a < |table| && 0 <= b < |table| && table[a].score != table[b].score
    ensures MinMaxScale(table).Ok?
    ensures table[i].score < table[j].score <==> MinMaxScale(table).value[i].score < MinMaxScale(table).value[j].score
  {
    var col := Column(table);
    var lo, hi := SeqMin(col), SeqMax(col);
    var a, b :| 0 <= a < |table| && 0 <= b < |table| && table[a].score != table[b].score;
    assert lo <= col[a] <= hi && lo <= col[b] <= hi;
    assert col[i] == table[i].score && col[j] == table[j].score;
    RescaleStrict(table[i].score, table[j].score, lo, hi);
  }

  /** When every score is the same, the empty range is guarded and every score becomes 0. */
  lemma MinMaxAllEqual(table: seq<Scored>, c: real)
    requires |table| > 0 && forall k :: 0 <= k < |table| ==> table[k].score == c
    ensures MinMaxScale(table).Ok?
    ensures forall k :: 0 <= k < |table| ==> MinMaxScale(table).value[k].score == 0.0
  {
    var col := Column(table);
    assert col[0] == c;
    var lo, hi := SeqMin(col), SeqMax(col);
    assert lo == c && hi == c;
  }

  /** The movies scoring above the cutoff, ranked by decreasing score. */
  function MoviesToRecommend(scaled: seq<Scored>): (r: seq<Scored>)
    ensures SortedDesc(r, ScoreOf)
    ensures forall i :: 0 <= i < |r| ==> r[i].score > CUTOFF
    ensures forall x :: multiset(r)[x] == if x.score > CUTOFF then multiset(scaled)[x] else 0
  {
    var above := Filter(scaled, (x: Scored) => x.score > CUTOFF);
    var r := SortDesc(above, ScoreOf);
    forall i | 0 <= i < |r| ensures r[i].score > CUTOFF {
      assert r[i] in multiset(r);
      assert r[i] in above;
    }
    r
  }

  /** The catalog rows of one scored movie (there may be none). */
  function TitlesFor(x: Scored, movies: seq<Movie>): (rows: seq<Recommended>)
    ensures forall y :: y in rows <==> y.movieId == x.movieId && y.score == x.score && Movie(x.movieId, y.title) in movies
  {
    if movies == [] then []
    else
      var rest := TitlesFor(x, movies[1..]);
      assert movies == [movies[0]] + movies[1..];
      if movies[0].movieId == x.movieId then [Recommended(x.movieId, x.score, movies[0].title)] + rest else rest
  }

  /** The inner join of the ranking with the catalog on movieId; the ranking order is kept. */
  function WithTitles(recs: seq<Scored>, movies: seq<Movie>): (rows: seq<Recommended>)
    ensures SortedDesc(recs, ScoreOf) ==> SortedDesc(rows, RecommendedScore)
    ensures forall y :: y in rows <==> Scored(y.movieId, y.score) in recs && Movie(y.movieId, y.title) in movies
  {
    if recs == [] then []
    else
      var head := TitlesFor(recs[0], movies);
      var rest := WithTitles(recs[1..], movies);
      assert recs == [recs[0]] + recs[1..];
      forall k | 0 <= k < |rest| && SortedDesc(recs, ScoreOf) ensures rest[k].score <= recs[0].score {
        assert rest[k] in rest;
        var j :| 0 <= j < |recs[1..]| && recs[1..][j] == Scored(rest[k].movieId, rest[k].score);
        assert recs[j + 1].score == rest[k].score;
      }
      forall k | 0 <= k < |head| ensures head[k].score == recs[0].score {
        assert head[k] in head;
      }
      head + rest
  }

  /** The join yields one row for each catalog entry of the scored movie. */
  lemma {:induction false} TitlesForMultiplicity(x: Scored, movies: seq<Movie>, y: Recommended)
    ensures multiset(TitlesFor(x, movies))[y] ==
              if Scored(y.movieId, y.score) == x then multiset(movies)[Movie(y.movieId, y.title)] else 0
  {
    if movies != [] {
      assert movies == [movies[0]] + movies[1..];
      TitlesForMultiplicity(x, movies[1..], y);
    }
  }

  lemma WithTitlesUnfold(recs: seq<Scored>, movies: seq<Movie>, y: Recommended)
    requires recs != []
    ensures multiset(WithTitles(recs, movies))[y] ==
              multiset(TitlesFor(recs[0], movies))[y] + multiset(WithTitles(recs[1..], movies))[y]
  {
    assert WithTitles(recs, movies) == TitlesFor(recs[0], movies) + WithTitles(recs[1..], movies);
  }

  lemma HeadCount(recs: seq<Scored>, x: Scored)
    requires recs != []
    ensures multiset(recs)[x] == (if recs[0] == x then 1 else 0) + multiset(recs[1..])[x]
  {
    assert recs == [recs[0]] + recs[1..];
  }

  /**
   The join yields one row for each pair of a ranked row and a catalog entry of the same movie:
   a titled row occurs (copies in the ranking) times (copies in the catalog) times.
   */
  lemma {:induction false} WithTitlesMultiplicity(recs: seq<Scored>, movies: seq<Movie>, y: Recommended)
    ensures multiset(WithTitles(recs, movies))[y] ==
              multiset(recs)[Scored(y.movieId, y.score)] * multiset(movies)[Movie(y.movieId, y.title)]
  {
    if recs != [] {
      var x := Scored(y.movieId, y.score);
      var c := multiset(movies)[Movie(y.movieId, y.title)];
      var n := multiset(recs[1..])[x];
      WithTitlesUnfold(recs, movies, y);
      HeadCount(recs, x);
      TitlesForMultiplicity(recs[0], movies, y);
      WithTitlesMultiplicity(recs[1..], movies, y);
      if recs[0] == x {
        assert multiset(recs)[x] == n + 1;
        MulSucc(n, c);
      } else {
        assert multiset(recs)[x] == n;
      }
    }
  }

  /**
   The titled ranking holds a catalog title of a scaled movie above the cutoff once per copy of
   the scaled row and per copy of the catalog entry, and nothing else.
   */
  lemma TitledRankingMultiplicity(scaled: seq<Scored>, movies: seq<Movie>, y: Recommended)
    ensures multiset(WithTitles(MoviesToRecommend(scaled), movies))[y] ==
              if y.score > CUTOFF
              then multiset(scaled)[Scored(y.movieId, y.score)] * multiset(movies)[Movie(y.movieId, y.title)]
              else 0
  {
    WithTitlesMultiplicity(MoviesToRecommend(scaled), movies, y);
  }

  /** A titled row of the ranking is a scaled movie above the cutoff paired with one of its catalog titles. */
  lemma TitledFromScaled(scaled: seq<Scored>, movies: seq<Movie>, y: Recommended)
    requires y in WithTitles(MoviesToRecommend(scaled), movies)
    ensures y.score > CUTOFF && Scored(y.movieId, y.score) in scaled && Movie(y.movieId, y.title) in movies
  {
    var ranked := MoviesToRecommend(scaled);
    var x := Scored(y.movieId, y.score);
    assert x in ranked;
    assert x in multiset(ranked);
  }

  /**
   `user_based_movies`: the first five titled rows of the ranking of the movies scoring above
   the cutoff after rescaling.
   */
  function UserBasedMovies(scaled: seq<Scored>, movies: seq<Movie>): (r: seq<Recommended>)
    ensures |r| <= TOP_K
    ensures SortedDesc(r, RecommendedScore)
    ensures forall i :: 0 <= i < |r| ==> r[i].score > CUTOFF
    ensures forall i :: 0 <= i < |r| ==> Scored(r[i].movieId, r[i].score) in scaled && Movie(r[i].movieId, r[i].title) in movies
  {
    var titled := WithTitles(MoviesToRecommend(scaled), movies);
    var r := Take(titled, TOP_K);
    forall i | 0 <= i < |r|
      ensures r[i].score > CUTOFF
      ensures Scored(r[i].movieId, r[i].score) in scaled && Movie(r[i].movieId, r[i].title) in movies
    {
      assert r[i] == titled[i];
      TitledFromScaled(scaled, movies, titled[i]);
    }
    SortedDescPrefix(titled, |r|, RecommendedScore);
    r
  }

  /** `head()` keeps five titled rows of the ranking, or all of them when there are fewer. */
  lemma UserBasedCount(scaled: seq<Scored>, movies: seq<Movie>)
    ensures var titled := WithTitles(MoviesToRecommend(scaled), movies);
            |UserBasedMovies(scaled, movies)| == if |titled| <= TOP_K then |titled| else TOP_K
    ensures var titled := WithTitles(MoviesToRecommend(scaled), movies);
            UserBasedMovies(scaled, movies) == titled[..|UserBasedMovies(scaled, movies)|]
  {
    assert UserBasedMovies(scaled, movies) == Take(WithTitles(MoviesToRecommend(scaled), movies), TOP_K);
  }

  /**
   `head()` keeps the top of the ranking: a catalog movie scoring above the cutoff is picked,
   unless five picks already score at least as high.
   */
  lemma UserBasedTopFive(scaled: seq<Scored>, movies: seq<Movie>, x: Scored, t: string)
    requires x in scaled && x.score > CUTOFF && Movie(x.movieId, t) in movies
    ensures var r := UserBasedMovies(scaled, movies);
            || Recommended(x.movieId, x.score, t) in r
            || (|r| == TOP_K && forall i :: 0 <= i < |r| ==> r[i].score >= x.score)
  {
    var ranked := MoviesToRecommend(scaled);
    assert multiset(ranked)[x] == multiset(scaled)[x];
    assert x in ranked;
    var titled := WithTitles(ranked, movies);
    var y := Recommended(x.movieId, x.score, t);
    assert Scored(y.movieId, y.score) == x;
    assert y in titled;
    assert UserBasedMovies(scaled, movies) == Take(titled, TOP_K);
    TakeTop(titled, TOP_K, RecommendedScore, y);
  }
}
