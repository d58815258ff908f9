/**
 * Generic helpers over a table held as a sequence of rows: the lookups that
 * stand in for `.filter_by(...).first()`, the key a new row receives, and the
 * removal of one row.
 */
module Rows {
  import opened Wrappers

  /** Index of the first row that satisfies `p`, as `.filter(...).first()` finds it. */
  function FirstIndex<T>(s: seq<T>, p: T -> bool): (r: Option<nat>)
    ensures r.Some? ==> r.value < |s| && p(s[r.value])
    ensures r.Some? ==> forall j :: 0 <= j < r.value ==> !p(s[j])
    ensures r.None? <==> forall j :: 0 <= j < |s| ==> !p(s[j])
  {
    if s == [] then None
    else if p(s[0]) then Some(0)
    else match FirstIndex(s[1..], p)
      case None => None
      case Some(k) => Some(k + 1)
  }

  /** The first row that satisfies `p`, or None. */
  function First<T>(s: seq<T>, p: T -> bool): (r: Option<T>)
    ensures r.Some? <==> exists j :: 0 <= j < |s| && p(s[j])
    ensures r.Some? ==> r.value in s && p(r.value)
  {
    match FirstIndex(s, p)
    case None => None
    case Some(k) => Some(s[k])
  }

  /** A row appended at the end does not change which row a lookup that already succeeds finds. */
  lemma {:induction false} FirstAppend<T>(s: seq<T>, p: T -> bool, x: T)
    requires First(s, p).Some?
    ensures First(s + [x], p) == First(s, p)
  {
    FirstIndexAppend(s, p, x);
  }

  lemma {:induction false} FirstIndexAppend<T>(s: seq<T>, p: T -> bool, x: T)
    requires FirstIndex(s, p).Some?
    ensures FirstIndex(s + [x], p) == FirstIndex(s, p)
  {
    if !p(s[0]) {
      assert (s + [x])[1..] == s[1..] + [x];
      FirstIndexAppend(s[1..], p, x);
    }
  }

  /** Every row has its own key (a primary key or a unique column). */
  predicate UniqueKeys<T, K(==)>(s: seq<T>, key: T -> K)
  {
    forall i, j :: 0 <= i < j < |s| ==> key(s[i]) != key(s[j])
  }

  /**
   * The key a new row receives: one more than the largest key in the table,
   * and 1 for an empty table. This is SQLite's rule for an INTEGER PRIMARY KEY
   * declared without AUTOINCREMENT, so a deleted largest key is handed out again.
   */
  function NextId<T>(s: seq<T>, key: T -> nat): (r: nat)
    ensures 1 <= r
    ensures forall i :: 0 <= i < |s| ==> key(s[i]) < r
    ensures r == 1 || exists i :: 0 <= i < |s| && key(s[i]) == r - 1
  {
    if s == [] then 1
    else
      var rest := NextId(s[..|s| - 1], key);
      var last := key(s[|s| - 1]);
      assert forall i :: 0 <= i < |s| - 1 ==> s[..|s| - 1][i] == s[i];
      if last + 1 > rest then last + 1 else rest
  }

  /** The table without its row at index `k`. */
  function RemoveAt<T>(s: seq<T>, k: nat): (r: seq<T>)
    requires k < |s|
    ensures |r| == |s| - 1
    ensures forall j :: 0 <= j < k ==> r[j] == s[j]
    ensures forall j :: k <= j < |r| ==> r[j] == s[j + 1]
  {
    s[..k] + s[k + 1..]
  }

  /** Appending a row with a fresh key keeps the keys unique. */
  lemma AppendFreshKey<T>(s: seq<T>, key: T -> nat, x: T)
    requires UniqueKeys(s, key)
    requires key(x) == NextId(s, key)
    ensures UniqueKeys(s + [x], key)
  {
    var t := s + [x];
    forall i, j | 0 <= i < j < |t| ensures key(t[i]) != key(t[j]) {
      if j == |s| { assert t[i] == s[i]; } else { assert t[i] == s[i] && t[j] == s[j]; }
    }
  }

  /** Removing a row keeps the keys unique. */
  lemma RemoveAtKeepsUnique<T, K>(s: seq<T>, key: T -> K, k: nat)
    requires UniqueKeys(s, key) && k < |s|
    ensures UniqueKeys(RemoveAt(s, k), key)
  {
    var t := RemoveAt(s, k);
    forall i, j | 0 <= i < j < |t| ensures key(t[i]) != key(t[j]) {
      var i' := if i < k then i else i + 1;
      var j' := if j < k then j else j + 1;
      assert t[i] == s[i'] && t[j] == s[j'];
    }
  }
}
