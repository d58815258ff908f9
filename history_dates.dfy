/**
 * The date selection of the history page: the distinct dates of a user's
 * meals, newest first, at most fourteen of them (`GROUP BY date ORDER BY
 * date DESC LIMIT 14`).
 */
module HistoryDates {
  import opened Records

  /** The LIMIT of the history query. */
  const HistoryLimit: nat := 14

  /** Strictly decreasing, so also without repetitions. */
  predicate StrictlyDesc(s: seq<int>)
  {
    forall i, j :: 0 <= i < j < |s| ==> s[i] > s[j]
  }

  /** User `u` has some meal on day `d`. */
  predicate HasMealOn(meals: seq<Meal>, u: nat, d: int)
  {
    exists i :: 0 <= i < |meals| && meals[i].userId == u && meals[i].date == d
  }

  /** Insert `d` into a strictly decreasing sequence, unless it is already there. */
  function InsertDesc(d: int, xs: seq<int>): (r: seq<int>)
    requires StrictlyDesc(xs)
    ensures StrictlyDesc(r)
    ensures forall x :: x in r <==> x == d || x in xs
  {
    if xs == [] then [d]
    else if d > xs[0] then [d] + xs
    else if d == xs[0] then xs
    else
      var rest := InsertDesc(d, xs[1..]);
      assert forall k :: 0 <= k < |rest| ==> rest[k] in rest;
      [xs[0]] + rest
  }

  /** Every distinct date on which `u` has a meal, newest first. */
  function UserDates(meals: seq<Meal>, u: nat): (r: seq<int>)
    ensures StrictlyDesc(r)
    ensures forall d :: d in r <==> HasMealOn(meals, u, d)
  {
    if meals == [] then []
    else
      var init := meals[..|meals| - 1];
      var m := meals[|meals| - 1];
      var rest := UserDates(init, u);
      assert forall d :: HasMealOn(meals, u, d) <==> HasMealOn(init, u, d) || (m.userId == u && m.date == d) by {
        forall d ensures HasMealOn(meals, u, d) ==> HasMealOn(init, u, d) || (m.userId == u && m.date == d) {
          if HasMealOn(meals, u, d) {
            var i :| 0 <= i < |meals| && meals[i].userId == u && meals[i].date == d;
            if i < |init| { assert init[i] == meals[i]; }
          }
        }
        forall d ensures HasMealOn(init, u, d) ==> HasMealOn(meals, u, d) {
          if HasMealOn(init, u, d) {
            var i :| 0 <= i < |init| && init[i].userId == u && init[i].date == d;
            assert meals[i] == init[i];
          }
        }
      }
      if m.userId == u then InsertDesc(m.date, rest) else rest
  }

  /**
   * The dates the history page shows: at most fourteen, newest first, each a
   * date of one of the user's meals, and every meal date left out is older
   * than all of those shown (and is left out only when fourteen are shown).
   */
  function RecentDates(meals: seq<Meal>, u: nat): (r: seq<int>)
    ensures IsRecentDates(r, meals, u)
  {
    var all := UserDates(meals, u);
    var r := if |all| <= HistoryLimit then all else all[..HistoryLimit];
    forall d | HasMealOn(meals, u, d) && d !in r
      ensures |r| == HistoryLimit && forall k :: 0 <= k < |r| ==> d < r[k]
    {
      assert d in all;
      var j :| 0 <= j < |all| && all[j] == d;
    }
    assert forall k :: 0 <= k < |r| ==> r[k] == all[k] && all[k] in all;
    r
  }

  /** The specification of the history dates, independent of how they are computed. */
  ghost predicate IsRecentDates(s: seq<int>, meals: seq<Meal>, u: nat)
  {
    && |s| <= HistoryLimit
    && StrictlyDesc(s)
    && (forall k :: 0 <= k < |s| ==> HasMealOn(meals, u, s[k]))
    && (forall d :: HasMealOn(meals, u, d) && d !in s ==> |s| == HistoryLimit && forall k :: 0 <= k < |s| ==> d < s[k])
  }

  /** The specification determines the dates: any sequence meeting it is `RecentDates`. */
  lemma RecentDatesUnique(s: seq<int>, meals: seq<Meal>, u: nat)
    requires IsRecentDates(s, meals, u)
    ensures s == RecentDates(meals, u)
  {
    var all := UserDates(meals, u);
    forall j | 0 <= j < |all| && all[j] !in s ensures forall k :: 0 <= k < |s| ==> all[j] < s[k] {
      assert all[j] in all;
    }
    forall k | 0 <= k < |s| ensures s[k] in all {
      assert HasMealOn(meals, u, s[k]);
    }
    PrefixOfDesc(s, all, |s|);
    assert s == all[..|s|];
    if |s| < |all| {
      var x := all[|s|];
      assert x !in s by {
        forall m | 0 <= m < |s| ensures s[m] != x {
          assert s[m] == all[m];
        }
      }
      assert x in all;
    }
  }

  /**
   * If every element of a strictly decreasing `s` occurs in a strictly
   * decreasing `x`, and every element of `x` missing from `s` is smaller than
   * all of `s`, then the first `n` elements of `s` are those of `x`.
   */
  lemma {:induction false} PrefixOfDesc(s: seq<int>, x: seq<int>, n: nat)
    requires StrictlyDesc(s) && StrictlyDesc(x) && n <= |s|
    requires forall k :: 0 <= k < |s| ==> s[k] in x
    requires forall j :: 0 <= j < |x| && x[j] !in s ==> forall k :: 0 <= k < |s| ==> x[j] < s[k]
    ensures n <= |x| && s[..n] == x[..n]
  {
    if n > 0 {
      PrefixOfDesc(s, x, n - 1);
      PrefixStep(s, x, n - 1);
      assert s[..n] == s[..n - 1] + [s[n - 1]] && x[..n] == x[..n - 1] + [x[n - 1]];
    }
  }

  /** One step of `PrefixOfDesc`: when the first `k` elements agree, so does the next. */
  lemma PrefixStep(s: seq<int>, x: seq<int>, k: nat)
    requires StrictlyDesc(s) && StrictlyDesc(x) && k < |s|
    requires forall k :: 0 <= k < |s| ==> s[k] in x
    requires forall j :: 0 <= j < |x| && x[j] !in s ==> forall k :: 0 <= k < |s| ==> x[j] < s[k]
    requires k <= |x| && s[..k] == x[..k]
    ensures k < |x| && s[k] == x[k]
  {
    assert s[k] in x;
    var j :| 0 <= j < |x| && x[j] == s[k];
  }
}
