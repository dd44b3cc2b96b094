/**
 Step 1 of the recommender: the movie catalog is left-joined with the rating
 log, titles with too few rows are dropped, and the rest is pivoted into a
 user -> title -> rating matrix in which a missing cell means "unrated".
 */
module RatingMatrix {
  import opened Tables

  /** A title must have more rows than this in the joined table to be kept. */
  const POPULARITY_THRESHOLD: nat := 1000

  datatype Movie = Movie(movieId: int, title: string)
  datatype Rating = Rating(userId: int, movieId: int, rating: real, timestamp: int)

  /** The rating-log columns of a joined row. */
  datatype Vote = Vote(userId: int, rating: real)

  /** A row of the catalog/rating left join; `vote` is None where the row has no rating (NaN). */
  datatype Joined = Joined(movieId: int, title: string, vote: Option<Vote>)

  /** The user -> title -> rating matrix; an absent key is an unrated cell. */
  type Matrix = map<int, map<string, real>>

  /** What a left join of the catalog with the rating log may contain. */
  ghost predicate InLeftJoin(row: Joined, movies: seq<Movie>, ratings: seq<Rating>)
  {
    && Movie(row.movieId, row.title) in movies
    && match row.vote
       case Some(v) => exists x :: x in ratings && x.movieId == row.movieId && v == Vote(x.userId, x.rating)
       case None => forall x :: x in ratings ==> x.movieId != row.movieId
  }

  /** Number of rating-log rows about movie `mid`. */
  function RatingCount(ratings: seq<Rating>, mid: int): (n: nat)
    ensures n == 0 <==> forall x :: x in ratings ==> x.movieId != mid
  {
    if ratings == [] then 0
    else
      assert ratings == [ratings[0]] + ratings[1..];
      (if ratings[0].movieId == mid then 1 else 0) + RatingCount(ratings[1..], mid)
  }

  /** Number of rating-log rows about movie `mid` that carry the user and rating of `v`. */
  function VoteCount(ratings: seq<Rating>, mid: int, v: Vote): nat
  {
    if ratings == [] then 0
    else
      var x := ratings[0];
      (if x.movieId == mid && Vote(x.userId, x.rating) == v then 1 else 0) + VoteCount(ratings[1..], mid, v)
  }

  /** The rows the ratings of movie `m` contribute: one per rating, the timestamp dropped. */
  function VotesFor(m: Movie, ratings: seq<Rating>): (rows: seq<Joined>)
    ensures forall row :: row in rows <==>
      row.movieId == m.movieId && row.title == m.title && row.vote.Some? &&
      exists x :: x in ratings && x.movieId == m.movieId && row.vote.value == Vote(x.userId, x.rating)
    ensures |rows| == RatingCount(ratings, m.movieId)
    ensures forall v :: multiset(rows)[Joined(m.movieId, m.title, Some(v))] == VoteCount(ratings, m.movieId, v)
  {
    if ratings == [] then []
    else
      var x := ratings[0];
      var rest := VotesFor(m, ratings[1..]);
      assert ratings == [x] + ratings[1..];
      if x.movieId == m.movieId then [Joined(m.movieId, m.title, Some(Vote(x.userId, x.rating)))] + rest
      else rest
  }

  /** The joined rows of one catalog entry: one per matching rating, or a single unrated row. */
  function MergeMovie(m: Movie, ratings: seq<Rating>): (rows: seq<Joined>)
    ensures |rows| == if RatingCount(ratings, m.movieId) == 0 then 1 else RatingCount(ratings, m.movieId)
    ensures forall row :: row in rows ==> row.movieId == m.movieId && row.title == m.title
    ensures forall v :: multiset(rows)[Joined(m.movieId, m.title, Some(v))] == VoteCount(ratings, m.movieId, v)
    ensures multiset(rows)[Joined(m.movieId, m.title, None)] == if RatingCount(ratings, m.movieId) == 0 then 1 else 0
  {
    var hits := VotesFor(m, ratings);
    if hits == [] then [Joined(m.movieId, m.title, None)] else hits
  }

  /**
   The left join of the catalog with the rating log on movieId, in catalog order: a catalog
   entry yields one row per rating of its movie, or one unrated row when there is none.
   */
  function Merge(movies: seq<Movie>, ratings: seq<Rating>): (rows: seq<Joined>)
    ensures forall row :: row in rows <==> InLeftJoin(row, movies, ratings)
  {
    if movies == [] then []
    else
      var head := MergeMovie(movies[0], ratings);
      var rest := Merge(movies[1..], ratings);
      assert movies == [movies[0]] + movies[1..];
      assert forall row :: row in head <==> InLeftJoin(row, movies[..1], ratings);
      head + rest
  }

  /**
   How often the left join repeats a rated row: once per catalog entry of its movie and per
   rating of that movie with the row's user and value.
   */
  lemma {:induction false} MergeRatedMultiplicity(movies: seq<Movie>, ratings: seq<Rating>, mid: int, t: string, v: Vote)
    ensures multiset(Merge(movies, ratings))[Joined(mid, t, Some(v))] ==
              multiset(movies)[Movie(mid, t)] * VoteCount(ratings, mid, v)
  {
    if movies != [] {
      var row := Joined(mid, t, Some(v));
      var head := MergeMovie(movies[0], ratings);
      var rest := Merge(movies[1..], ratings);
      assert Merge(movies, ratings) == head + rest;
      assert movies == [movies[0]] + movies[1..];
      MergeRatedMultiplicity(movies[1..], ratings, mid, t, v);
      var c := VoteCount(ratings, mid, v);
      var n := multiset(movies[1..])[Movie(mid, t)];
      assert multiset(Merge(movies, ratings))[row] == multiset(head)[row] + n * c;
      if movies[0] == Movie(mid, t) {
        assert multiset(head)[row] == c;
        assert multiset(movies)[Movie(mid, t)] == n + 1;
        MulSucc(n, c);
      } else {
        assert multiset(movies)[Movie(mid, t)] == n;
        assert row !in head;
      }
    }
  }

  /** An unrated row occurs once per catalog entry of a movie that nobody rated, and never otherwise. */
  lemma {:induction false} MergeUnratedMultiplicity(movies: seq<Movie>, ratings: seq<Rating>, mid: int, t: string)
    ensures multiset(Merge(movies, ratings))[Joined(mid, t, None)] ==
              if RatingCount(ratings, mid) == 0 then multiset(movies)[Movie(mid, t)] else 0
  {
    if movies != [] {
      var row := Joined(mid, t, None);
      var head := MergeMovie(movies[0], ratings);
      var rest := Merge(movies[1..], ratings);
      assert Merge(movies, ratings) == head + rest;
      assert movies == [movies[0]] + movies[1..];
      MergeUnratedMultiplicity(movies[1..], ratings, mid, t);
      if movies[0] != Movie(mid, t) {
        assert row !in head;
      }
    }
  }

  /** The number of joined rows a title should get: per catalog entry with that title, its rating count, or 1 when unrated. */
  function CatalogTitleRows(movies: seq<Movie>, ratings: seq<Rating>, t: string): nat
  {
    if movies == [] then 0
    else
      var n := RatingCount(ratings, movies[0].movieId);
      (if movies[0].title != t then 0 else if n == 0 then 1 else n) + CatalogTitleRows(movies[1..], ratings, t)
  }

  /** Number of joined rows with title `t` (`value_counts()` on the title column). */
  function TitleCount(rows: seq<Joined>, t: string): (n: nat)
    ensures n <= |rows|
    ensures n > 0 <==> exists row :: row in rows && row.title == t
  {
    if rows == [] then 0
    else
      assert rows == [rows[0]] + rows[1..];
      (if rows[0].title == t then 1 else 0) + TitleCount(rows[1..], t)
  }

  lemma {:induction false} TitleCountAppend(a: seq<Joined>, b: seq<Joined>, t: string)
    ensures TitleCount(a + b, t) == TitleCount(a, t) + TitleCount(b, t)
  {
    if a == [] {
      assert a + b == b;
    } else {
      assert (a + b)[0] == a[0];
      assert (a + b)[1..] == a[1..] + b;
      TitleCountAppend(a[1..], b, t);
    }
  }

  lemma {:induction false} TitleCountUniform(rows: seq<Joined>, t: string, t0: string)
    requires forall row :: row in rows ==> row.title == t0
    ensures TitleCount(rows, t) == if t0 == t then |rows| else 0
  {
    if rows != [] {
      assert rows[0] in rows;
      assert forall row :: row in rows[1..] ==> row in rows;
      TitleCountUniform(rows[1..], t, t0);
    }
  }

  /**
   What `value_counts` counts for a title: each catalog entry with that title adds one row per
   rating of its movie, and an unrated entry adds exactly one row.
   */
  lemma {:induction false} MergeTitleCount(movies: seq<Movie>, ratings: seq<Rating>, t: string)
    ensures TitleCount(Merge(movies, ratings), t) == CatalogTitleRows(movies, ratings, t)
  {
    if movies != [] {
      var head := MergeMovie(movies[0], ratings);
      var rest := Merge(movies[1..], ratings);
      assert Merge(movies, ratings) == head + rest;
      TitleCountAppend(head, rest, t);
      TitleCountUniform(head, t, movies[0].title);
      MergeTitleCount(movies[1..], ratings, t);
    }
  }

  /** Titles with at most POPULARITY_THRESHOLD rows. */
  function RareTitles(rows: seq<Joined>): set<string>
  {
    set row | row in rows && TitleCount(rows, row.title) <= POPULARITY_THRESHOLD :: row.title
  }

  /** The joined rows whose title is not rare: a title is kept with all of its rows or dropped with all of them. */
  function CommonMovies(rows: seq<Joined>): (kept: seq<Joined>)
    ensures forall row :: row in kept <==> row in rows && TitleCount(rows, row.title) > POPULARITY_THRESHOLD
    ensures forall row :: multiset(kept)[row] ==
                          (if TitleCount(rows, row.title) > POPULARITY_THRESHOLD then multiset(rows)[row] else 0)
  {
    var rare := RareTitles(rows);
    var kept := Filter(rows, (row: Joined) => row.title !in rare);
    assert forall row :: row in rows ==> (row.title in rare <==> TitleCount(rows, row.title) <= POPULARITY_THRESHOLD);
    assert forall row: Joined :: row.title in rare ==> TitleCount(rows, row.title) <= POPULARITY_THRESHOLD;
    kept
  }

  predicate RatedBy(row: Joined, u: int)
  {
    row.vote.Some? && row.vote.value.userId == u
  }

  /** Every user with at least one rated row (the pivot's index). */
  function Raters(rows: seq<Joined>): set<int>
  {
    set row | row in rows && row.vote.Some? :: row.vote.value.userId
  }

  /** The titles user `u` rated (the user's non-missing columns). */
  function TitlesRatedBy(rows: seq<Joined>, u: int): set<string>
  {
    set row | row in rows && RatedBy(row, u) :: row.title
  }

  /** The ratings user `u` gave to title `t`, in row order. */
  function CellRatings(rows: seq<Joined>, u: int, t: string): (rs: seq<real>)
    ensures forall v :: v in rs <==>
      exists row :: row in rows && RatedBy(row, u) && row.title == t && row.vote.value.rating == v
  {
    if rows == [] then []
    else
      var row := rows[0];
      var rest := CellRatings(rows[1..], u, t);
      assert rows == [row] + rows[1..];
      if RatedBy(row, u) && row.title == t then [row.vote.value.rating] + rest else rest
  }

  /** Number of rows in which user `u` gave title `t` the rating `v`. */
  function CellRowCount(rows: seq<Joined>, u: int, t: string, v: real): nat
  {
    if rows == [] then 0
    else
      var row := rows[0];
      (if RatedBy(row, u) && row.title == t && row.vote.value.rating == v then 1 else 0) + CellRowCount(rows[1..], u, t, v)
  }

  /** The values averaged into a cell are one per rated row of that (user, title): repeated ratings stay repeated. */
  lemma {:induction false} CellRatingsPerRow(rows: seq<Joined>, u: int, t: string, v: real)
    ensures multiset(CellRatings(rows, u, t))[v] == CellRowCount(rows, u, t, v)
  {
    if rows != [] {
      assert rows == [rows[0]] + rows[1..];
      CellRatingsPerRow(rows[1..], u, t, v);
    }
  }

  /** The pivot of the kept rows: users as rows, titles as columns, ratings as cells; duplicate cells are averaged. */
  function Pivot(rows: seq<Joined>): (m: Matrix)
    ensures forall u :: u in m <==> exists row :: row in rows && RatedBy(row, u)
    ensures forall u, t :: u in m ==> (t in m[u] <==> exists row :: row in rows && RatedBy(row, u) && row.title == t)
  {
    map u | u in Raters(rows) ::
      map t | t in TitlesRatedBy(rows, u) ::
        var rs := CellRatings(rows, u, t);
        assert exists row :: row in rows && RatedBy(row, u) && row.title == t;
        var row :| row in rows && RatedBy(row, u) && row.title == t;
        assert row.vote.value.rating in rs;
        Mean(rs)
  }

  /** Each cell of the pivot lies between the smallest and largest rating the user gave that title. */
  lemma PivotCellBetween(rows: seq<Joined>, u: int, t: string)
    requires u in Pivot(rows) && t in Pivot(rows)[u]
    ensures exists r1, r2 ::
              && r1 in rows && r2 in rows
              && RatedBy(r1, u) && r1.title == t && RatedBy(r2, u) && r2.title == t
              && r1.vote.value.rating <= Pivot(rows)[u][t] <= r2.vote.value.rating
  {
    var rs := CellRatings(rows, u, t);
    var lo, hi := SeqMin(rs), SeqMax(rs);
    var r1 :| r1 in rows && RatedBy(r1, u) && r1.title == t && r1.vote.value.rating == lo;
    var r2 :| r2 in rows && RatedBy(r2, u) && r2.title == t && r2.vote.value.rating == hi;
  }

  /** Each cell of the pivot is the mean of the ratings the user gave that title, one value per rated row. */
  lemma PivotCellIsMean(rows: seq<Joined>, u: int, t: string)
    requires u in Pivot(rows) && t in Pivot(rows)[u]
    ensures |CellRatings(rows, u, t)| > 0 && Pivot(rows)[u][t] == Mean(CellRatings(rows, u, t))
  {
  }

  /** A user who gave a title one rating value (once or repeatedly) has exactly that value in the cell. */
  lemma PivotCellSingleValue(rows: seq<Joined>, u: int, t: string, v: real)
    requires u in Pivot(rows) && t in Pivot(rows)[u]
    requires forall row :: row in rows && RatedBy(row, u) && row.title == t ==> row.vote.value.rating == v
    ensures Pivot(rows)[u][t] == v
  {
    var rs := CellRatings(rows, u, t);
    forall i | 0 <= i < |rs| ensures rs[i] == v {
      assert rs[i] in rs;
    }
    assert rs[0] in rs;
    MeanConstant(rs, v);
  }

  /** Step 1 as a whole: join, drop the rare titles, pivot. */
  function BuildMatrix(movies: seq<Movie>, ratings: seq<Rating>): Matrix
  {
    Pivot(CommonMovies(Merge(movies, ratings)))
  }

  /** The user rated a catalog movie whose title is `t`. */
  ghost predicate RatedTitle(movies: seq<Movie>, ratings: seq<Rating>, u: int, t: string)
  {
    exists x, mv :: x in ratings && mv in movies && x.userId == u && x.movieId == mv.movieId && mv.title == t
  }

  lemma MatrixCellSound(movies: seq<Movie>, ratings: seq<Rating>, u: int, t: string)
    requires u in BuildMatrix(movies, ratings) && t in BuildMatrix(movies, ratings)[u]
    ensures TitleCount(Merge(movies, ratings), t) > POPULARITY_THRESHOLD
    ensures RatedTitle(movies, ratings, u, t)
  {
    var joined := Merge(movies, ratings);
    var kept := CommonMovies(joined);
    var m := Pivot(kept);
    assert u in m && t in m[u];
    var row :| row in kept && RatedBy(row, u) && row.title == t;
    assert row in joined && TitleCount(joined, row.title) > POPULARITY_THRESHOLD;
    RatedRowHasSource(movies, ratings, row);
  }

  /** A rated row of the join comes from a catalog movie and a rating of that movie. */
  lemma RatedRowHasSource(movies: seq<Movie>, ratings: seq<Rating>, row: Joined)
    requires row in Merge(movies, ratings) && row.vote.Some?
    ensures RatedTitle(movies, ratings, row.vote.value.userId, row.title)
  {
    assert InLeftJoin(row, movies, ratings);
    var x :| x in ratings && x.movieId == row.movieId && row.vote.value == Vote(x.userId, x.rating);
    var mv := Movie(row.movieId, row.title);
    assert mv in movies;
  }

  lemma MatrixCellComplete(movies: seq<Movie>, ratings: seq<Rating>, u: int, t: string)
    requires TitleCount(Merge(movies, ratings), t) > POPULARITY_THRESHOLD
    requires RatedTitle(movies, ratings, u, t)
    ensures u in BuildMatrix(movies, ratings) && t in BuildMatrix(movies, ratings)[u]
  {
    var joined := Merge(movies, ratings);
    var kept := CommonMovies(joined);
    var x, mv :| x in ratings && mv in movies && x.userId == u && x.movieId == mv.movieId && mv.title == t;
    var row := Joined(mv.movieId, mv.title, Some(Vote(x.userId, x.rating)));
    assert InLeftJoin(row, movies, ratings);
    assert row in joined;
    assert row in kept;
    RatedRowInPivot(kept, row);
  }

  /** A rated row puts its (user, title) cell into the pivot. */
  lemma RatedRowInPivot(rows: seq<Joined>, row: Joined)
    requires row in rows && row.vote.Some?
    ensures row.vote.value.userId in Pivot(rows) && row.title in Pivot(rows)[row.vote.value.userId]
  {
    assert RatedBy(row, row.vote.value.userId);
  }

  /**
   A cell of the matrix exists exactly when the user rated a catalog movie with that title
   and the title has more than POPULARITY_THRESHOLD rows in the joined table.
   */
  lemma MatrixCells(movies: seq<Movie>, ratings: seq<Rating>, u: int, t: string)
    ensures (u in BuildMatrix(movies, ratings) && t in BuildMatrix(movies, ratings)[u]) <==>
              (TitleCount(Merge(movies, ratings), t) > POPULARITY_THRESHOLD && RatedTitle(movies, ratings, u, t))
  {
    if u in BuildMatrix(movies, ratings) && t in BuildMatrix(movies, ratings)[u] {
      MatrixCellSound(movies, ratings, u, t);
    }
    if TitleCount(Merge(movies, ratings), t) > POPULARITY_THRESHOLD && RatedTitle(movies, ratings, u, t) {
      MatrixCellComplete(movies, ratings, u, t);
    }
  }
}
