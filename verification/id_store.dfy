/** The storage discipline every in-memory store of the core shares: a map from id to record and
    a `lastId` counter starting at 0, from which `add` draws `++lastId`. */
module IdStore {
  import opened Outcomes

  datatype Store<V> = Store(lastId: nat, rows: map<int, V>)

  /** Every stored id was drawn from the counter, so the counter's successor is free. */
  predicate Valid<V>(s: Store<V>) {
    forall id :: id in s.rows ==> 1 <= id <= s.lastId
  }

  /** A freshly constructed store. */
  function Empty<V>(): (s: Store<V>)
    ensures Valid(s) && |s.rows| == 0
    ensures NextId(s) == 1
  {
    Store(0, map[])
  }

  /** The id `add` hands out next. */
  function NextId<V>(s: Store<V>): (id: int)
    ensures Valid(s) ==> id !in s.rows && forall k :: k in s.rows ==> k < id
  {
    s.lastId + 1
  }

  /** Stores `v` under a fresh id and advances the counter past it. */
  function Append<V>(s: Store<V>, v: V): (r: Store<V>)
    requires Valid(s)
    ensures Valid(r)
    ensures NextId(s) !in s.rows && r.rows.Keys == s.rows.Keys + {NextId(s)}
    ensures r.rows[NextId(s)] == v
    ensures forall id :: id in s.rows ==> r.rows[id] == s.rows[id]
    ensures NextId(r) > NextId(s)
  {
    Store(s.lastId + 1, s.rows[s.lastId + 1 := v])
  }

  /** Replaces the record under an id that is already present. */
  function Put<V>(s: Store<V>, id: int, v: V): (r: Store<V>)
    requires Valid(s) && id in s.rows
    ensures Valid(r) && r.lastId == s.lastId && r.rows.Keys == s.rows.Keys
    ensures r.rows[id] == v
    ensures forall k :: k in s.rows && k != id ==> r.rows[k] == s.rows[k]
  {
    s.(rows := s.rows[id := v])
  }

  function Get<V>(s: Store<V>, id: int): (r: Option<V>)
    ensures r.Some? <==> id in s.rows
    ensures r.Some? ==> r.value == s.rows[id]
  {
    if id in s.rows then Some(s.rows[id]) else None
  }

  /** `clear`: drops every record but keeps the counter, so ids handed out later stay fresh. */
  function Clear<V>(s: Store<V>): (r: Store<V>)
    requires Valid(s)
    ensures Valid(r) && |r.rows| == 0
    ensures NextId(r) == NextId(s)
  {
    s.(rows := map[])
  }

  predicate Increasing(xs: seq<int>) {
    forall i, j :: 0 <= i < j < |xs| ==> xs[i] < xs[j]
  }

  predicate Distinct<T(==)>(xs: seq<T>) {
    forall i, j :: 0 <= i < j < |xs| ==> xs[i] != xs[j]
  }

  /** No value occurs twice in a sequence without repetitions. */
  lemma {:induction false} DistinctMultiplicity<T>(xs: seq<T>, x: T)
    requires Distinct(xs)
    ensures multiset(xs)[x] <= 1
  {
    if xs != [] {
      assert xs == [xs[0]] + xs[1..];
      DistinctMultiplicity(xs[1..], x);
      if xs[0] == x {
        assert x !in xs[1..];
      }
    }
  }

  /** Reordering a sequence without repetitions cannot create one. */
  lemma PermutationKeepsDistinct<T>(a: seq<T>, b: seq<T>)
    requires Distinct(a) && multiset(a) == multiset(b)
    ensures Distinct(b)
  {
    forall i, j | 0 <= i < j < |b| ensures b[i] != b[j] {
      if b[i] == b[j] {
        var x := b[i];
        assert b == b[..j] + b[j..];
        assert x in multiset(b[..j]) by { assert b[..j][i] == x; }
        assert x in multiset(b[j..]) by { assert b[j..][0] == x; }
        assert multiset(b)[x] >= 2;
        DistinctMultiplicity(a, x);
        assert false;
      }
    }
  }

  /** The ids in `[lo, hi)` that have a record, in ascending order. */
  function IdsBetween<V>(rows: map<int, V>, lo: int, hi: int): (ids: seq<int>)
    ensures Increasing(ids)
    ensures forall k :: k in ids <==> k in rows && lo <= k < hi
    decreases hi - lo
  {
    if hi <= lo then []
    else if lo in rows then
      var rest := IdsBetween(rows, lo + 1, hi);
      assert forall j :: 0 <= j < |rest| ==> lo < rest[j] by {
        forall j | 0 <= j < |rest| ensures lo < rest[j] {
          assert rest[j] in rest;
        }
      }
      [lo] + rest
    else IdsBetween(rows, lo + 1, hi)
  }

  /** A sequence without repetitions has as many elements as the set of its elements. */
  lemma {:induction false} DistinctCardinality<T>(xs: seq<T>)
    requires Distinct(xs)
    ensures |set x | x in xs| == |xs|
  {
    if xs != [] {
      var tail := xs[1..];
      DistinctCardinality(tail);
      assert (set x | x in xs) == (set x | x in tail) + {xs[0]};
      assert xs[0] !in tail;
    }
  }

  /** Every stored id once, ascending: the iteration order this model gives the store's map. */
  function Ids<V>(s: Store<V>): (ids: seq<int>)
    requires Valid(s)
    ensures Increasing(ids) && Distinct(ids)
    ensures forall k :: k in ids <==> k in s.rows
    ensures |ids| == |s.rows|
  {
    var ids := IdsBetween(s.rows, 1, s.lastId + 1);
    assert (set k | k in ids) == s.rows.Keys;
    DistinctCardinality(ids);
    ids
  }

  /** `new ArrayList<>(map.values())`: one entry per stored id, in the order of `Ids`. */
  function Values<V>(s: Store<V>): (vs: seq<V>)
    requires Valid(s)
    ensures |vs| == |Ids(s)| == |s.rows|
    ensures forall i :: 0 <= i < |vs| ==> Ids(s)[i] in s.rows && vs[i] == s.rows[Ids(s)[i]]
  {
    var ids := Ids(s);
    seq(|ids|, i requires 0 <= i < |ids| => s.rows[ids[i]])
  }

  /** A set is empty or has an element to pick. */
  lemma EmptyOrInhabited(s: set<int>)
    ensures s == {} || exists y :: y in s
  {
    if !(exists y :: y in s) {
      assert s == {};
    }
  }

  /** Iterating over a hash set: every element exactly once, in an order the caller cannot rely on. */
  method Enumerate(xs: set<int>) returns (r: seq<int>)
    ensures Distinct(r) && |r| == |xs|
    ensures forall x :: x in r <==> x in xs
    ensures forall i :: 0 <= i < |r| ==> r[i] in xs
  {
    r := [];
    var rest := xs;
    while rest != {}
      invariant Distinct(r)
      invariant forall x :: x in xs <==> x in r || x in rest
      invariant forall x :: x in r ==> x !in rest
      invariant |r| + |rest| == |xs|
      invariant forall i :: 0 <= i < |r| ==> r[i] in xs
      decreases |rest|
    {
      EmptyOrInhabited(rest);
      var x :| x in rest;
      r := r + [x];
      rest := rest - {x};
    }
  }
}
