/**
 * Tables are sequences of rows kept in insertion order. This module holds
 * the two shapes of query the repositories run over them: a selection
 * (`WHERE ...`) and an in-place update of the selected rows
 * (`UPDATE ... SET ... WHERE ...`).
 */
module Seqs {

  /** The rows of `s` that satisfy `p`, in their original order. */
  function Filter<T(!new)>(s: seq<T>, p: T -> bool): (r: seq<T>)
    ensures |r| <= |s|
    ensures forall x :: x in r <==> x in s && p(x)
    decreases |s|
  {
    if |s| == 0 then []
    else
      assert s == [s[0]] + s[1..];
      (if p(s[0]) then [s[0]] else []) + Filter(s[1..], p)
  }

  /** `s` with every element that satisfies `sel` replaced by its image under `f`. */
  function UpdateWhere<T>(s: seq<T>, sel: T -> bool, f: T -> T): (r: seq<T>)
    ensures |r| == |s|
    ensures forall i :: 0 <= i < |s| ==> r[i] == if sel(s[i]) then f(s[i]) else s[i]
    decreases |s|
  {
    if |s| == 0 then []
    else [if sel(s[0]) then f(s[0]) else s[0]] + UpdateWhere(s[1..], sel, f)
  }

  /**
   * Every earlier element stands in `before` to every later one: with a
   * strict order this says the sequence is sorted, with an inequality of
   * keys it says no two elements share a key.
   */
  ghost predicate Pairwise<T>(s: seq<T>, before: (T, T) -> bool)
  {
    forall i, j :: 0 <= i < j < |s| ==> before(s[i], s[j])
  }

  /** Dropping the last element keeps every pairwise relation. */
  lemma PairwisePrefix<T>(s: seq<T>, before: (T, T) -> bool)
    requires Pairwise(s, before) && |s| > 0
    ensures Pairwise(s[..|s| - 1], before)
  {
    var init := s[..|s| - 1];
    forall i, j | 0 <= i < j < |init| ensures before(init[i], init[j]) {
      assert init[i] == s[i] && init[j] == s[j];
    }
  }

  /** Selecting from a table with one more row at the end selects that row last, if at all. */
  lemma {:induction false} FilterAppend<T(!new)>(s: seq<T>, x: T, p: T -> bool)
    ensures Filter(s + [x], p) == Filter(s, p) + (if p(x) then [x] else [])
    decreases |s|
  {
    if |s| == 0 {
      assert s + [x] == [x];
    } else {
      assert (s + [x])[0] == s[0];
      assert (s + [x])[1..] == s[1..] + [x];
      FilterAppend(s[1..], x, p);
    }
  }

  /** A selection that every row satisfies returns the whole table. */
  lemma {:induction false} FilterKeepsAll<T(!new)>(s: seq<T>, p: T -> bool)
    requires forall x :: x in s ==> p(x)
    ensures Filter(s, p) == s
    decreases |s|
  {
    if |s| > 0 {
      assert s == [s[0]] + s[1..];
      FilterKeepsAll(s[1..], p);
    }
  }

  /** A selection keeps every pairwise relation of the table it selects from (its order, its unique keys). */
  lemma {:induction false} FilterPairwise<T(!new)>(s: seq<T>, p: T -> bool, before: (T, T) -> bool)
    requires Pairwise(s, before)
    ensures Pairwise(Filter(s, p), before)
    decreases |s|
  {
    if |s| > 0 {
      var tail := s[1..];
      assert Pairwise(tail, before) by {
        forall i, j | 0 <= i < j < |tail| ensures before(tail[i], tail[j]) {
          assert tail[i] == s[i + 1] && tail[j] == s[j + 1];
        }
      }
      FilterPairwise(tail, p, before);
      var rest := Filter(tail, p);
      if p(s[0]) {
        forall y | y in rest ensures before(s[0], y) {
          var k :| 0 <= k < |tail| && tail[k] == y;
          assert s[k + 1] == y;
        }
        var r := [s[0]] + rest;
        forall i, j | 0 <= i < j < |r| ensures before(r[i], r[j]) {
          if i == 0 {
            assert r[j] == rest[j - 1] && r[j] in rest;
          } else {
            assert r[i] == rest[i - 1] && r[j] == rest[j - 1];
          }
        }
      } else {
        assert Filter(s, p) == rest;
      }
    }
  }

  /** Updating rows in a way that never changes whether they are selected commutes with the selection. */
  lemma {:induction false} FilterUpdateWhere<T(!new)>(s: seq<T>, p: T -> bool, sel: T -> bool, f: T -> T)
    requires forall x :: sel(x) ==> p(f(x)) == p(x)
    ensures Filter(UpdateWhere(s, sel, f), p) == UpdateWhere(Filter(s, p), sel, f)
    decreases |s|
  {
    if |s| > 0 {
      var u := UpdateWhere(s, sel, f);
      assert u[1..] == UpdateWhere(s[1..], sel, f);
      FilterUpdateWhere(s[1..], p, sel, f);
      assert u == [u[0]] + u[1..];
      if p(s[0]) {
        assert Filter(s, p) == [s[0]] + Filter(s[1..], p);
        var fs := Filter(s, p);
        assert fs[1..] == Filter(s[1..], p);
        assert UpdateWhere(fs, sel, f) == [UpdateWhere(fs, sel, f)[0]] + UpdateWhere(fs[1..], sel, f);
      } else {
        assert Filter(s, p) == Filter(s[1..], p);
      }
    }
  }

  /** Applying the same update twice changes nothing more, when the update is idempotent and keeps rows selected. */
  lemma {:induction false} UpdateWhereTwice<T>(s: seq<T>, sel: T -> bool, f: T -> T)
    requires forall x :: sel(x) ==> sel(f(x)) && f(f(x)) == f(x)
    ensures UpdateWhere(UpdateWhere(s, sel, f), sel, f) == UpdateWhere(s, sel, f)
  {
    var once := UpdateWhere(s, sel, f);
    var twice := UpdateWhere(once, sel, f);
    forall i | 0 <= i < |s| ensures twice[i] == once[i] {
      if sel(s[i]) {
        assert once[i] == f(s[i]);
      }
    }
  }
}
