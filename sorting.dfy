/**
 * Python's `list.sort(key=...)` as a stable insertion sort over a total
 * preorder `le` ("x may stand before y"). The panel sorts its view by the
 * lower-cased user name and the key service sorts its status items by expiry,
 * latest first; both orders are instances of `le`.
 */
module Sorting {

  ghost predicate Total<T(!new)>(le: (T, T) -> bool) {
    forall a, b :: le(a, b) || le(b, a)
  }

  ghost predicate Transitive<T(!new)>(le: (T, T) -> bool) {
    forall a, b, c :: le(a, b) && le(b, c) ==> le(a, c)
  }

  /** Every element may stand before every later one. */
  ghost predicate SortedBy<T>(s: seq<T>, le: (T, T) -> bool) {
    forall i, j :: 0 <= i < j < |s| ==> le(s[i], s[j])
  }

  /**
   * Put `x` in front of the first element it may precede; an element equal
   * under `le` stays behind `x`, which keeps the sort stable.
   */
  function InsertBy<T>(x: T, s: seq<T>, le: (T, T) -> bool): (r: seq<T>)
    ensures multiset(r) == multiset(s) + multiset{x}
    ensures |r| == |s| + 1
  {
    if s == [] || le(x, s[0]) then [x] + s
    else
      var r := [s[0]] + InsertBy(x, s[1..], le);
      assert s == [s[0]] + s[1..];
      r
  }

  function SortBy<T>(s: seq<T>, le: (T, T) -> bool): (r: seq<T>)
    ensures multiset(r) == multiset(s)
    ensures |r| == |s|
  {
    if s == [] then []
    else
      assert s == [s[0]] + s[1..];
      InsertBy(s[0], SortBy(s[1..], le), le)
  }

  lemma {:induction false} InsertBySorted<T(!new)>(x: T, s: seq<T>, le: (T, T) -> bool)
    requires Total(le) && Transitive(le)
    requires SortedBy(s, le)
    ensures SortedBy(InsertBy(x, s, le), le)
  {
    if s != [] && !le(x, s[0]) {
      var t := InsertBy(x, s[1..], le);
      InsertBySorted(x, s[1..], le);
      assert multiset(t) == multiset(s[1..]) + multiset{x};
      forall j | 0 <= j < |t| ensures le(s[0], t[j]) {
        assert t[j] in multiset(t);
        if t[j] != x {
          assert t[j] in multiset(s[1..]);
          var k :| 0 <= k < |s[1..]| && s[1..][k] == t[j];
          assert s[k + 1] == t[j];
        }
      }
    }
  }

  /** The result of the sort is ordered by `le` (and, from the contract, a permutation). */
  lemma {:induction false} SortBySorted<T(!new)>(s: seq<T>, le: (T, T) -> bool)
    requires Total(le) && Transitive(le)
    ensures SortedBy(SortBy(s, le), le)
  {
    if s != [] {
      SortBySorted(s[1..], le);
      InsertBySorted(s[0], SortBy(s[1..], le), le);
    }
  }

  /** A list that is already in order is left as it is. */
  lemma {:induction false} SortByKeepsSorted<T>(s: seq<T>, le: (T, T) -> bool)
    requires SortedBy(s, le)
    ensures SortBy(s, le) == s
  {
    if s != [] {
      assert SortedBy(s[1..], le);
      SortByKeepsSorted(s[1..], le);
      if |s| > 1 {
        assert le(s[0], s[1]);
      }
    }
  }

  // ----- stability -----

  /** `le` ranks `z` level with `e`: each may stand before the other. */
  predicate Level<T>(z: T, le: (T, T) -> bool, e: T) {
    le(z, e) && le(e, z)
  }

  /** The elements of `s` that `le` ranks level with `e`, in their order in `s`. */
  function LevelWith<T>(s: seq<T>, le: (T, T) -> bool, e: T): seq<T> {
    if s == [] then []
    else (if Level(s[0], le, e) then [s[0]] else []) + LevelWith(s[1..], le, e)
  }

  lemma LevelWithCons<T>(y: T, u: seq<T>, le: (T, T) -> bool, e: T)
    ensures LevelWith([y] + u, le, e) == (if Level(y, le, e) then [y] else []) + LevelWith(u, le, e)
  {
    assert ([y] + u)[1..] == u;
  }

  lemma SwapEmpty<T>(a: seq<T>, b: seq<T>, c: seq<T>)
    requires a == [] || b == []
    ensures a + (b + c) == b + (a + c)
  {
    if a == [] {
      assert a + (b + c) == b + c == b + (a + c);
    } else {
      assert a + (b + c) == a + c == b + (a + c);
    }
  }

  /**
   * `x` goes in front of every element level with it, provided `x` may stand
   * before each of them (which transitivity gives).
   */
  lemma {:induction false} InsertByStable<T>(x: T, s: seq<T>, le: (T, T) -> bool, e: T)
    requires forall k :: 0 <= k < |s| && Level(x, le, e) && Level(s[k], le, e) ==> le(x, s[k])
    ensures LevelWith(InsertBy(x, s, le), le, e) == (if Level(x, le, e) then [x] else []) + LevelWith(s, le, e)
  {
    if s == [] || le(x, s[0]) {
      LevelWithCons(x, s, le, e);
    } else {
      var lx := if Level(x, le, e) then [x] else [];
      var l0 := if Level(s[0], le, e) then [s[0]] else [];
      var u := InsertBy(x, s[1..], le);
      assert InsertBy(x, s, le) == [s[0]] + u;
      forall k | 0 <= k < |s[1..]| && Level(x, le, e) && Level(s[1..][k], le, e) ensures le(x, s[1..][k]) {
        assert s[1..][k] == s[k + 1];
      }
      InsertByStable(x, s[1..], le, e);
      LevelWithCons(s[0], u, le, e);
      assert s == [s[0]] + s[1..];
      LevelWithCons(s[0], s[1..], le, e);
      SwapEmpty(l0, lx, LevelWith(s[1..], le, e));
    }
  }

  /**
   * The sort is stable: the elements level with any `e` come out in the
   * order they went in.
   */
  lemma {:induction false} SortByStable<T(!new)>(s: seq<T>, le: (T, T) -> bool, e: T)
    requires Transitive(le)
    ensures LevelWith(SortBy(s, le), le, e) == LevelWith(s, le, e)
  {
    if s != [] {
      var t := SortBy(s[1..], le);
      SortByStable(s[1..], le, e);
      forall k | 0 <= k < |t| && Level(s[0], le, e) && Level(t[k], le, e) ensures le(s[0], t[k]) {
        assert le(s[0], e) && le(e, t[k]);
      }
      InsertByStable(s[0], t, le, e);
      assert s == [s[0]] + s[1..];
      LevelWithCons(s[0], s[1..], le, e);
    }
  }
}
