/**
 Generic operations on tables held as sequences of rows: selection by a row
 predicate, the first k rows, a descending sort on a numeric column, distinct
 values in order of first appearance, and the sum, mean, minimum and maximum
 of a numeric column.
 */
module Tables {

  /** A cell that may be missing (NaN in the dataframe). */
  datatype Option<+T> = None | Some(value: T)

  /** Rows of `s` satisfying `p`, in their original order (boolean indexing). */
  function Filter<T(!new)>(s: seq<T>, p: T -> bool): (r: seq<T>)
    ensures |r| <= |s|
    ensures forall i :: 0 <= i < |r| ==> p(r[i])
    ensures forall x :: x in r <==> x in s && p(x)
    ensures forall x :: multiset(r)[x] == if p(x) then multiset(s)[x] else 0
  {
    if s == [] then []
    else
      assert s == [s[0]] + s[1..];
      if p(s[0]) then [s[0]] + Filter(s[1..], p)
      else Filter(s[1..], p)
  }

  /** The first `k` rows (`head(k)`). */
  function Take<T>(s: seq<T>, k: nat): (r: seq<T>)
    ensures |r| == if |s| <= k then |s| else k
    ensures r == s[..|r|]
    ensures multiset(r) <= multiset(s)
  {
    if |s| <= k then s
    else
      assert s == s[..k] + s[k..];
      s[..k]
  }

  /** `key` does not increase along `s`. */
  predicate SortedDesc<T>(s: seq<T>, key: T -> real)
  {
    forall i, j :: 0 <= i < j < |s| ==> key(s[i]) >= key(s[j])
  }

  /** Inserts `x` into a descending table, before the first row whose key is not greater. */
  function Insert<T>(x: T, s: seq<T>, key: T -> real): (r: seq<T>)
    requires SortedDesc(s, key)
    ensures SortedDesc(r, key)
    ensures multiset(r) == multiset(s) + multiset{x}
    ensures |r| == |s| + 1 && (r[0] == x || (|s| > 0 && r[0] == s[0]))
  {
    if s == [] || key(s[0]) <= key(x) then [x] + s
    else
      var t := Insert(x, s[1..], key);
      assert s == [s[0]] + s[1..];
      [s[0]] + t
  }

  /** A descending sort: the same rows, ordered by non-increasing key. */
  function SortDesc<T>(s: seq<T>, key: T -> real): (r: seq<T>)
    ensures SortedDesc(r, key)
    ensures multiset(r) == multiset(s)
  {
    if s == [] then []
    else
      assert s == [s[0]] + s[1..];
      Insert(s[0], SortDesc(s[1..], key), key)
  }

  /** Every prefix of a descending table is descending. */
  lemma SortedDescPrefix<T>(s: seq<T>, k: nat, key: T -> real)
    requires SortedDesc(s, key) && k <= |s|
    ensures SortedDesc(s[..k], key)
  {
  }

  /** The first k rows of a descending table are its top k: a row left out is outranked by every row kept. */
  lemma TakeTop<T>(s: seq<T>, k: nat, key: T -> real, y: T)
    requires SortedDesc(s, key) && y in s
    ensures y in Take(s, k) || (|Take(s, k)| == k && forall i :: 0 <= i < k ==> key(Take(s, k)[i]) >= key(y))
  {
    var j :| 0 <= j < |s| && s[j] == y;
    if j < |Take(s, k)| {
      assert Take(s, k)[j] == y;
    }
  }

  /** A value that the first n rows hold fewer times than the whole table occurs after them. */
  lemma LeftOutOccursLater<T>(s: seq<T>, n: nat, x: T) returns (j: nat)
    requires n <= |s| && multiset(s[..n])[x] < multiset(s)[x]
    ensures n <= j < |s| && s[j] == x
  {
    assert s == s[..n] + s[n..];
    assert multiset(s) == multiset(s[..n]) + multiset(s[n..]);
    assert x in multiset(s[n..]);
    var k :| 0 <= k < |s[n..]| && s[n..][k] == x;
    j := n + k;
  }

  /** The distinct values of `s`, in order of first appearance. */
  function Distinct<T(==,!new)>(s: seq<T>): (r: seq<T>)
    ensures forall x :: x in r <==> x in s
    ensures forall i, j :: 0 <= i < j < |r| ==> r[i] != r[j]
  {
    if s == [] then []
    else
      var t := Distinct(s[..|s| - 1]);
      assert forall x :: x in s <==> x in s[..|s| - 1] || x == s[|s| - 1];
      if s[|s| - 1] in t then t else t + [s[|s| - 1]]
  }

  function Sum(s: seq<real>): real
  {
    if s == [] then 0.0 else s[0] + Sum(s[1..])
  }

  /** The smallest value of a non-empty column (`.min()`). */
  function SeqMin(s: seq<real>): (m: real)
    requires |s| > 0
    ensures m in s
    ensures forall i :: 0 <= i < |s| ==> m <= s[i]
  {
    if |s| == 1 then s[0]
    else
      var t := SeqMin(s[1..]);
      assert t in s;
      if s[0] <= t then s[0] else t
  }

  /** The largest value of a non-empty column (`.max()`). */
  function SeqMax(s: seq<real>): (m: real)
    requires |s| > 0
    ensures m in s
    ensures forall i :: 0 <= i < |s| ==> s[i] <= m
  {
    if |s| == 1 then s[0]
    else
      var t := SeqMax(s[1..]);
      assert t in s;
      if s[0] >= t then s[0] else t
  }

  /** One more copy adds one more share: the step of every count that multiplies occurrences. */
  lemma MulSucc(n: nat, c: nat)
    ensures (n + 1) * c == n * c + c
  {
  }

  /** A sum of n values in [lo, hi] lies in [n * lo, n * hi]. */
  lemma {:induction false} SumBetween(s: seq<real>, lo: real, hi: real)
    requires forall i :: 0 <= i < |s| ==> lo <= s[i] <= hi
    ensures (|s| as real) * lo <= Sum(s) <= (|s| as real) * hi
  {
    if s != [] {
      SumBetween(s[1..], lo, hi);
    }
  }

  lemma QuotientBetween(a: real, n: real, lo: real, hi: real)
    requires n > 0.0 && n * lo <= a <= n * hi
    ensures lo <= a / n <= hi
  {
  }

  /** The sum of n values in [lo, hi], divided by n, is in [lo, hi]. */
  lemma AverageBetween(s: seq<real>, lo: real, hi: real)
    requires |s| > 0 && forall i :: 0 <= i < |s| ==> lo <= s[i] <= hi
    ensures lo <= Sum(s) / (|s| as real) <= hi
  {
    SumBetween(s, lo, hi);
    QuotientBetween(Sum(s), |s| as real, lo, hi);
  }

  /** Arithmetic mean of a non-empty column; it lies between the column's extremes. */
  function Mean(s: seq<real>): (m: real)
    requires |s| > 0
    ensures SeqMin(s) <= m <= SeqMax(s)
  {
    AverageBetween(s, SeqMin(s), SeqMax(s));
    Sum(s) / (|s| as real)
  }

  /** The mean of a constant column is that constant. */
  lemma {:induction false} MeanConstant(s: seq<real>, c: real)
    requires |s| > 0 && forall i :: 0 <= i < |s| ==> s[i] == c
    ensures Mean(s) == c
  {
    SumBetween(s, c, c);
  }
}
