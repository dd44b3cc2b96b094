/**
 Step 4 of the recommender: from the user-user correlation table keep the
 target's pairs with correlation at least 0.65, order them by decreasing
 correlation, join them with the rating log and drop the target's own rows.
 */
module TopUsers {
  import opened Tables
  import opened RatingMatrix

  /** Minimum correlation with the target for a user to count as similar. */
  const CORR_THRESHOLD: real := 0.65

  /** A row of the correlation table `corr_df`; `corr` is None where the coefficient is NaN. */
  datatype CorrRow = CorrRow(user1: int, user2: int, corr: Option<real>)

  /** A row of `top_users` after the rename of `user_id_2` to `userId`. */
  datatype TopUser = TopUser(userId: int, corr: real)

  /** A row of `top_users_ratings`. */
  datatype TopUserRating = TopUserRating(userId: int, corr: real, movieId: int, rating: real)

  /** The row pairs the target with a user at or above the threshold; NaN never qualifies. */
  predicate Qualifies(row: CorrRow, target: int)
  {
    row.user1 == target && row.corr.Some? && row.corr.value >= CORR_THRESHOLD
  }

  function CorrOf(x: TopUser): real
  {
    x.corr
  }

  /** `top_user`: the qualifying rows projected on (user_id_2, corr), in table order. */
  function TopUserRows(table: seq<CorrRow>, target: int): (rows: seq<TopUser>)
    ensures |rows| <= |table|
    ensures forall x :: x in rows <==>
                          exists row :: row in table && Qualifies(row, target) && x == TopUser(row.user2, row.corr.value)
  {
    if table == [] then []
    else
      var rest := TopUserRows(table[1..], target);
      assert table == [table[0]] + table[1..];
      if Qualifies(table[0], target) then [TopUser(table[0].user2, table[0].corr.value)] + rest else rest
  }

  /** Number of qualifying table rows that pair the target with `x.userId` at correlation `x.corr`. */
  function PairCount(table: seq<CorrRow>, target: int, x: TopUser): nat
  {
    if table == [] then 0
    else
      var row := table[0];
      (if Qualifies(row, target) && TopUser(row.user2, row.corr.value) == x then 1 else 0) + PairCount(table[1..], target, x)
  }

  /** `top_user` has one row per qualifying table row, so a repeated pair stays repeated. */
  lemma {:induction false} TopUserRowsPerRow(table: seq<CorrRow>, target: int, x: TopUser)
    ensures multiset(TopUserRows(table, target))[x] == PairCount(table, target, x)
  {
    if table != [] {
      assert table == [table[0]] + table[1..];
      TopUserRowsPerRow(table[1..], target, x);
    }
  }

  /** `top_users`: the qualifying rows ordered by non-increasing correlation. */
  function SelectTopUsers(table: seq<CorrRow>, target: int): (top: seq<TopUser>)
    ensures SortedDesc(top, CorrOf)
    ensures multiset(top) == multiset(TopUserRows(table, target))
    ensures forall i :: 0 <= i < |top| ==> top[i].corr >= CORR_THRESHOLD
  {
    var rows := TopUserRows(table, target);
    var top := SortDesc(rows, CorrOf);
    forall i | 0 <= i < |top| ensures top[i].corr >= CORR_THRESHOLD {
      assert top[i] in multiset(top);
      assert top[i] in rows;
      var row :| row in table && Qualifies(row, target) && top[i] == TopUser(row.user2, row.corr.value);
    }
    top
  }

  /** A (user, corr) pair is a top user exactly when the table pairs the target with that user at that correlation and it reaches the threshold. */
  lemma TopUsersExact(table: seq<CorrRow>, target: int, u: int, c: real)
    ensures TopUser(u, c) in SelectTopUsers(table, target) <==>
              (CorrRow(target, u, Some(c)) in table && c >= CORR_THRESHOLD)
  {
    var rows := TopUserRows(table, target);
    var top := SelectTopUsers(table, target);
    assert TopUser(u, c) in top <==> TopUser(u, c) in multiset(top);
    assert TopUser(u, c) in rows <==> TopUser(u, c) in multiset(rows);
    if CorrRow(target, u, Some(c)) in table && c >= CORR_THRESHOLD {
      assert Qualifies(CorrRow(target, u, Some(c)), target);
    }
  }

  /**
   The threshold alone does not keep the target out: a self-pair with coefficient 1.0 (the
   diagonal of a correlation matrix) makes the target one of its own top users.
   */
  lemma SelfPairPassesThreshold(table: seq<CorrRow>, target: int)
    requires CorrRow(target, target, Some(1.0)) in table
    ensures TopUser(target, 1.0) in SelectTopUsers(table, target)
  {
    TopUsersExact(table, target, target, 1.0);
  }

  /** Number of rating-log rows by user `u` about movie `mid` with rating `v` (timestamps ignored). */
  function UserRatingCount(ratings: seq<Rating>, u: int, mid: int, v: real): nat
  {
    if ratings == [] then 0
    else
      var r := ratings[0];
      (if r.userId == u && r.movieId == mid && r.rating == v then 1 else 0) + UserRatingCount(ratings[1..], u, mid, v)
  }

  /** The rating-log rows of user `x.userId`, each tagged with `x.corr`. */
  function RatingsOfUser(x: TopUser, ratings: seq<Rating>): (rows: seq<TopUserRating>)
    ensures forall row :: row in rows <==>
                            exists r :: r in ratings && r.userId == x.userId &&
                                        row == TopUserRating(x.userId, x.corr, r.movieId, r.rating)
  {
    if ratings == [] then []
    else
      var r := ratings[0];
      var rest := RatingsOfUser(x, ratings[1..]);
      assert ratings == [r] + ratings[1..];
      if r.userId == x.userId then [TopUserRating(x.userId, x.corr, r.movieId, r.rating)] + rest else rest
  }

  /** One tagged row per rating of the user: a row occurs as often as the log holds that rating. */
  lemma {:induction false} RatingsOfUserMultiplicity(x: TopUser, ratings: seq<Rating>, row: TopUserRating)
    ensures multiset(RatingsOfUser(x, ratings))[row] ==
              if TopUser(row.userId, row.corr) == x then UserRatingCount(ratings, row.userId, row.movieId, row.rating) else 0
  {
    if ratings != [] {
      assert ratings == [ratings[0]] + ratings[1..];
      RatingsOfUserMultiplicity(x, ratings[1..], row);
    }
  }

  /** A row of the inner join on userId. */
  ghost predicate InInnerJoin(row: TopUserRating, top: seq<TopUser>, ratings: seq<Rating>)
  {
    && TopUser(row.userId, row.corr) in top
    && exists r :: r in ratings && r.userId == row.userId && r.movieId == row.movieId && r.rating == row.rating
  }

  /** The inner join of the top users with the rating log on userId, in top-user order. */
  function JoinRatings(top: seq<TopUser>, ratings: seq<Rating>): (rows: seq<TopUserRating>)
    ensures forall row :: row in rows <==> InInnerJoin(row, top, ratings)
  {
    if top == [] then []
    else
      var head := RatingsOfUser(top[0], ratings);
      var rest := JoinRatings(top[1..], ratings);
      assert top == [top[0]] + top[1..];
      head + rest
  }

  /** The inner join repeats a row once per occurrence of its top user and per matching rating. */
  lemma {:induction false} JoinRatingsMultiplicity(top: seq<TopUser>, ratings: seq<Rating>, row: TopUserRating)
    ensures multiset(JoinRatings(top, ratings))[row] ==
              multiset(top)[TopUser(row.userId, row.corr)] * UserRatingCount(ratings, row.userId, row.movieId, row.rating)
  {
    if top != [] {
      var x := TopUser(row.userId, row.corr);
      var c := UserRatingCount(ratings, row.userId, row.movieId, row.rating);
      var n := multiset(top[1..])[x];
      assert JoinRatings(top, ratings) == RatingsOfUser(top[0], ratings) + JoinRatings(top[1..], ratings);
      assert top == [top[0]] + top[1..];
      RatingsOfUserMultiplicity(top[0], ratings, row);
      JoinRatingsMultiplicity(top[1..], ratings, row);
      if top[0] == x {
        assert multiset(top)[x] == n + 1;
        MulSucc(n, c);
      } else {
        assert multiset(top)[x] == n;
      }
    }
  }

  /** The join without the target's own rows. */
  function ExcludeTarget(rows: seq<TopUserRating>, target: int): (kept: seq<TopUserRating>)
    ensures forall i :: 0 <= i < |kept| ==> kept[i].userId != target
    ensures forall row :: multiset(kept)[row] == if row.userId == target then 0 else multiset(rows)[row]
  {
    Filter(rows, (row: TopUserRating) => row.userId != target)
  }

  /** Step 4 as a whole: the target's similar users' ratings, without the target's own. */
  function TopUsersRatings(table: seq<CorrRow>, ratings: seq<Rating>, target: int): (rows: seq<TopUserRating>)
    ensures forall row :: row in rows ==> row.userId != target && row.corr >= CORR_THRESHOLD
    ensures forall row :: row in rows <==> InInnerJoin(row, SelectTopUsers(table, target), ratings) && row.userId != target
  {
    var top := SelectTopUsers(table, target);
    var joined := JoinRatings(top, ratings);
    var kept := ExcludeTarget(joined, target);
    assert forall row :: row in kept <==> row in multiset(kept);
    assert forall row :: row in joined <==> row in multiset(joined);
    forall row | row in kept ensures row.corr >= CORR_THRESHOLD {
      assert InInnerJoin(row, top, ratings);
      var i :| 0 <= i < |top| && top[i] == TopUser(row.userId, row.corr);
    }
    kept
  }

  /**
   The rows the per-movie mean consumes: a row of a user other than the target occurs once per
   qualifying table row of that user and correlation and per matching rating; the target's rows
   never occur.
   */
  lemma TopUsersRatingsMultiplicity(table: seq<CorrRow>, ratings: seq<Rating>, target: int, row: TopUserRating)
    ensures multiset(TopUsersRatings(table, ratings, target))[row] ==
              if row.userId == target then 0
              else multiset(TopUserRows(table, target))[TopUser(row.userId, row.corr)] *
                   UserRatingCount(ratings, row.userId, row.movieId, row.rating)
  {
    var top := SelectTopUsers(table, target);
    JoinRatingsMultiplicity(top, ratings, row);
    assert TopUsersRatings(table, ratings, target) == ExcludeTarget(JoinRatings(top, ratings), target);
  }
}
