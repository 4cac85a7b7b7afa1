/** Ordering records for the popularity and friend-list queries: a stable insertion sort over any
    "ranks ahead of" relation, with the facts the queries need about it. */
module Ranking {

  /** `ahead(a, b)` says `a` must be listed before `b`. It is a strict weak order when it is
      asymmetric and whenever `a` is ahead of `c`, any `b` is behind `a` or ahead of `c`. */
  ghost predicate StrictWeakOrder<T(!new)>(ahead: (T, T) -> bool) {
    && (forall a, b :: ahead(a, b) ==> !ahead(b, a))
    && (forall a, b, c :: ahead(a, c) ==> ahead(a, b) || ahead(b, c))
  }

  /** No element is listed after one it ranks ahead of. */
  predicate Sorted<T>(s: seq<T>, ahead: (T, T) -> bool) {
    forall i, j :: 0 <= i < j < |s| ==> !ahead(s[j], s[i])
  }

  /** Inserts `x` in front of the first element that does not rank ahead of it. */
  function Insert<T>(x: T, s: seq<T>, ahead: (T, T) -> bool): (r: seq<T>)
    ensures |r| == |s| + 1
  {
    if s == [] then [x]
    else if ahead(s[0], x) then [s[0]] + Insert(x, s[1..], ahead)
    else [x] + s
  }

  /** Inserting adds `x` and loses nothing. */
  lemma {:induction false} InsertPermutes<T>(x: T, s: seq<T>, ahead: (T, T) -> bool)
    ensures multiset(Insert(x, s, ahead)) == multiset(s) + multiset{x}
  {
    if s != [] && ahead(s[0], x) {
      InsertPermutes(x, s[1..], ahead);
      assert s == [s[0]] + s[1..];
    }
  }

  /** Stable insertion sort: of two elements neither ranks ahead of, the earlier stays earlier. */
  function Sort<T>(s: seq<T>, ahead: (T, T) -> bool): (r: seq<T>)
    ensures |r| == |s|
  {
    if s == [] then [] else Insert(s[0], Sort(s[1..], ahead), ahead)
  }

  /** Sorting rearranges: the output holds exactly the input's elements. */
  lemma {:induction false} SortPermutes<T>(s: seq<T>, ahead: (T, T) -> bool)
    ensures multiset(Sort(s, ahead)) == multiset(s)
  {
    if s != [] {
      SortPermutes(s[1..], ahead);
      InsertPermutes(s[0], Sort(s[1..], ahead), ahead);
      assert s == [s[0]] + s[1..];
    }
  }

  lemma {:induction false} InsertSorted<T(!new)>(x: T, s: seq<T>, ahead: (T, T) -> bool)
    requires StrictWeakOrder(ahead) && Sorted(s, ahead)
    ensures Sorted(Insert(x, s, ahead), ahead)
  {
    if s != [] && ahead(s[0], x) {
      var rest := s[1..];
      assert Sorted(rest, ahead);
      InsertSorted(x, rest, ahead);
      var r := Insert(x, rest, ahead);
      InsertPermutes(x, rest, ahead);
      forall j | 0 <= j < |r| ensures !ahead(r[j], s[0]) {
        assert r[j] in multiset(r);
        assert r[j] == x || r[j] in multiset(rest);
        if r[j] != x {
          var k :| 0 <= k < |rest| && rest[k] == r[j];
          assert rest[k] == s[k + 1];
        }
      }
    } else if s != [] {
      forall j | 0 <= j < |s| ensures !ahead(s[j], x) {
        if j > 0 {
          assert !ahead(s[j], s[0]);
        }
      }
    }
  }

  /** The sort's output never lists an element after one it ranks ahead of. */
  lemma {:induction false} SortSorted<T(!new)>(s: seq<T>, ahead: (T, T) -> bool)
    requires StrictWeakOrder(ahead)
    ensures Sorted(Sort(s, ahead), ahead)
  {
    if s != [] {
      SortSorted(s[1..], ahead);
      InsertSorted(s[0], Sort(s[1..], ahead), ahead);
    }
  }

  /** The elements of `s` that rank level with `e` (neither is ahead of the other), in order. */
  function LevelWith<T>(s: seq<T>, ahead: (T, T) -> bool, e: T): (r: seq<T>)
    ensures |r| <= |s|
  {
    if s == [] then []
    else (if !ahead(s[0], e) && !ahead(e, s[0]) then [s[0]] else []) + LevelWith(s[1..], ahead, e)
  }

  /** Anything `ahead` puts in order lies on opposite sides of `e`, or level with it on one side:
      the consequence of a strict weak order that stability rests on. */
  ghost predicate SplitsAt<T(!new)>(ahead: (T, T) -> bool, e: T) {
    forall a, b :: ahead(a, b) ==> ahead(a, e) || ahead(e, b)
  }

  lemma StrictWeakOrderSplits<T(!new)>(ahead: (T, T) -> bool, e: T)
    requires StrictWeakOrder(ahead)
    ensures SplitsAt(ahead, e)
  {
    forall a, b | ahead(a, b) ensures ahead(a, e) || ahead(e, b) {
      assert ahead(a, b) ==> ahead(a, e) || ahead(e, b);
    }
  }

  /** `[a]` when `a` is level with `e`, otherwise nothing. */
  function Level<T>(a: T, ahead: (T, T) -> bool, e: T): seq<T> {
    if !ahead(a, e) && !ahead(e, a) then [a] else []
  }

  lemma LevelWithCons<T>(a: T, s: seq<T>, ahead: (T, T) -> bool, e: T)
    ensures LevelWith([a] + s, ahead, e) == Level(a, ahead, e) + LevelWith(s, ahead, e)
  {
    assert ([a] + s)[0] == a && ([a] + s)[1..] == s;
  }

  /** Of two elements in order, at most one is level with `e`, so their level parts commute. */
  lemma LevelsCommute<T(!new)>(a: T, b: T, ahead: (T, T) -> bool, e: T, tail: seq<T>)
    requires SplitsAt(ahead, e) && ahead(a, b)
    ensures Level(a, ahead, e) + (Level(b, ahead, e) + tail) == Level(b, ahead, e) + (Level(a, ahead, e) + tail)
  {
    assert ahead(a, e) || ahead(e, b);
  }

  lemma {:induction false} InsertLevelWith<T(!new)>(x: T, s: seq<T>, ahead: (T, T) -> bool, e: T)
    requires SplitsAt(ahead, e)
    ensures LevelWith(Insert(x, s, ahead), ahead, e)
         == LevelWith([x], ahead, e) + LevelWith(s, ahead, e)
  {
    LevelWithCons(x, [], ahead, e);
    assert [x] + [] == [x];
    if s == [] {
    } else if ahead(s[0], x) {
      var rest := Insert(x, s[1..], ahead);
      InsertLevelWith(x, s[1..], ahead, e);
      LevelWithCons(s[0], rest, ahead, e);
      LevelWithCons(s[0], s[1..], ahead, e);
      assert s == [s[0]] + s[1..];
      LevelsCommute(s[0], x, ahead, e, LevelWith(s[1..], ahead, e));
    } else {
      LevelWithCons(x, s, ahead, e);
    }
  }

  /** Stability: sorting keeps the relative order of the elements level with any `e`. */
  lemma {:induction false} SortKeepsLevelOrder<T(!new)>(s: seq<T>, ahead: (T, T) -> bool, e: T)
    requires StrictWeakOrder(ahead)
    ensures LevelWith(Sort(s, ahead), ahead, e) == LevelWith(s, ahead, e)
  {
    if s != [] {
      SortKeepsLevelOrder(s[1..], ahead, e);
      StrictWeakOrderSplits(ahead, e);
      InsertLevelWith(s[0], Sort(s[1..], ahead), ahead, e);
    }
  }

  /** Keeping a prefix of a sequence keeps a prefix of each of its level classes. */
  lemma {:induction false} LevelWithPrefix<T>(s: seq<T>, n: nat, ahead: (T, T) -> bool, e: T)
    requires n <= |s|
    ensures LevelWith(s[..n], ahead, e) <= LevelWith(s, ahead, e)
  {
    if n > 0 {
      assert s[..n][1..] == s[1..][..n - 1];
      LevelWithPrefix(s[1..], n - 1, ahead, e);
    }
  }

  /** The first `n` elements of a sorted sequence are a top-`n`: nothing left out ranks ahead of
      anything kept. */
  lemma TopOfSorted<T>(s: seq<T>, n: nat, ahead: (T, T) -> bool, x: T)
    requires Sorted(s, ahead) && n <= |s|
    requires x in multiset(s) && x !in multiset(s[..n])
    ensures forall i :: 0 <= i < n ==> !ahead(x, s[i])
  {
    assert s == s[..n] + s[n..];
    assert x in multiset(s[n..]);
    var j :| 0 <= j < |s[n..]| && s[n..][j] == x;
    assert s[n + j] == x;
  }
}
