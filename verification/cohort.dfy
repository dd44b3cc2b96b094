/**
 Steps 2 and 3 of the recommender: the titles the target user watched, how many
 of them every other user rated, the users who share more than 65% of them, and
 the frame of watched-title rows handed to the user-user correlation.
 */
module Cohort {
  import opened Tables
  import opened RatingMatrix

  /** A user joins the cohort when they rated more than this percentage of the watched titles. */
  const OVERLAP_PERCENT: nat := 65

  /** `movies_watched`: the columns where the target's row is non-missing (none for an unknown user). */
  function Watched(m: Matrix, target: int): (w: set<string>)
    ensures target !in m ==> w == {}
  {
    if target in m then m[target].Keys else {}
  }

  /** `user_movie_count`: for every user of the matrix, the number of watched titles that user rated. */
  function MovieCounts(m: Matrix, watched: set<string>): (counts: map<int, nat>)
    ensures counts.Keys == m.Keys
    ensures forall u :: u in counts ==> counts[u] <= |watched|
    ensures forall u :: u in counts ==> counts[u] == |watched * m[u].Keys|
  {
    map u | u in m :: OverlapSize(watched, m[u].Keys)
  }

  /** The size of the intersection, which never exceeds the size of the first set. */
  function OverlapSize(watched: set<string>, rated: set<string>): (n: nat)
    ensures n <= |watched|
    ensures watched <= rated ==> n == |watched|
  {
    assert watched * rated <= watched;
    SubsetSize(watched * rated, watched);
    if watched <= rated then assert watched * rated == watched; |watched * rated| else |watched * rated|
  }

  lemma {:induction false} SubsetSize(a: set<string>, b: set<string>)
    requires a <= b
    ensures |a| <= |b|
  {
    if a != {} {
      var x :| x in a;
      SubsetSize(a - {x}, b - {x});
    }
  }

  /** The overlap threshold: 65 percent of the number of watched titles, by true (real) division. */
  function Percentage(watched: set<string>): real
  {
    ((|watched| * OVERLAP_PERCENT) as real) / 100.0
  }

  /** `users_same_movies`: the users whose count is strictly above the percentage. */
  function SameMovieUsers(m: Matrix, watched: set<string>): (cohort: set<int>)
    ensures forall u :: u in cohort <==>
                          u in m && OverlapSize(watched, m[u].Keys) * 100 > |watched| * OVERLAP_PERCENT
  {
    var counts := MovieCounts(m, watched);
    set u | u in counts && (counts[u] as real) > Percentage(watched)
  }

  /** The target's own count is the number of titles it watched. */
  lemma TargetCountIsWatched(m: Matrix, target: int)
    requires target in m
    ensures MovieCounts(m, Watched(m, target))[target] == |Watched(m, target)|
  {
  }

  /** A target that watched at least one title belongs to its own cohort. */
  lemma TargetInOwnCohort(m: Matrix, target: int)
    requires target in m && |Watched(m, target)| >= 1
    ensures target in SameMovieUsers(m, Watched(m, target))
  {
    var w := Watched(m, target);
    assert OverlapSize(w, m[target].Keys) == |w|;
  }

  /** A target outside the matrix watched nothing, and then nobody qualifies: the cohort is empty. */
  lemma UnknownTargetEmptyCohort(m: Matrix, target: int)
    requires target !in m
    ensures Watched(m, target) == {} && SameMovieUsers(m, Watched(m, target)) == {}
  {
  }

  /**
   The watched titles of a target in the built matrix are exactly the popular titles of catalog
   movies that the target rated.
   */
  lemma WatchedAreRatedPopularTitles(movies: seq<Movie>, ratings: seq<Rating>, target: int, t: string)
    ensures t in Watched(BuildMatrix(movies, ratings), target) <==>
              (TitleCount(Merge(movies, ratings), t) > POPULARITY_THRESHOLD && RatedTitle(movies, ratings, target, t))
  {
    MatrixCells(movies, ratings, target, t);
  }

  /** The cells of `row` in the watched columns (`movies_watched_df` for one user). */
  function WatchedCells(row: map<string, real>, watched: set<string>): (cells: map<string, real>)
    ensures cells.Keys == row.Keys * watched
    ensures forall t :: t in cells ==> cells[t] == row[t]
  {
    map t | t in row && t in watched :: row[t]
  }

  /**
   `final_df`: the watched-title rows of the cohort users, followed by the target's own
   watched-title row.
   */
  datatype FinalFrame = FinalFrame(cohortRows: Matrix, targetRow: Option<map<string, real>>)

  function FinalDf(m: Matrix, watched: set<string>, cohort: set<int>, target: int): (f: FinalFrame)
    ensures f.cohortRows.Keys == m.Keys * cohort
    ensures forall u :: u in f.cohortRows ==> f.cohortRows[u] == WatchedCells(m[u], watched)
    ensures f.targetRow.Some? <==> target in m
    ensures target in m ==> f.targetRow.value == WatchedCells(m[target], watched)
  {
    FinalFrame(
      map u | u in m && u in cohort :: WatchedCells(m[u], watched),
      if target in m then Some(WatchedCells(m[target], watched)) else None)
  }

  function RowCount(f: FinalFrame): nat
  {
    |f.cohortRows| + if f.targetRow.Some? then 1 else 0
  }

  /**
   Since the target always passes its own overlap test, its row is in the cohort part of
   `final_df` and is appended a second time: the frame has one row more than the cohort.
   */
  lemma TargetRowTwice(m: Matrix, target: int)
    requires target in m && |Watched(m, target)| >= 1
    ensures var w := Watched(m, target);
            var c := SameMovieUsers(m, w);
            var f := FinalDf(m, w, c, target);
            && target in f.cohortRows
            && f.targetRow == Some(f.cohortRows[target])
            && RowCount(f) == |c| + 1
  {
    var w := Watched(m, target);
    var c := SameMovieUsers(m, w);
    TargetInOwnCohort(m, target);
    assert m.Keys * c == c;
  }
}
