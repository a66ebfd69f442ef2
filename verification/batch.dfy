/**
 * Items processed in turn against a store keyed by each item: the shape of
 * a loop that extracts every entry of an archive into its own folder.
 */
module Batch {
  import opened Wrappers

  /** The keys a run of items writes. */
  function KeysOf<A, K>(key: A -> K, xs: seq<A>): set<K> {
    set i | 0 <= i < |xs| :: key(xs[i])
  }

  lemma KeysOfCons<A, K>(key: A -> K, xs: seq<A>)
    requires xs != []
    ensures KeysOf(key, xs) == {key(xs[0])} + KeysOf(key, xs[1..])
  {
    var rest := xs[1..];
    forall k | k in KeysOf(key, xs) && k != key(xs[0])
      ensures k in KeysOf(key, rest)
    {
      var i :| 0 <= i < |xs| && key(xs[i]) == k;
      assert rest[i - 1] == xs[i];
    }
    forall k | k in KeysOf(key, rest)
      ensures k in KeysOf(key, xs)
    {
      var i :| 0 <= i < |rest| && key(rest[i]) == k;
      assert xs[i + 1] == rest[i];
    }
  }

  /** What the store holds under a key, if anything. */
  function Lookup<K, V>(m: map<K, V>, k: K): (o: Option<V>)
    ensures o.Some? <==> k in m
    ensures o.Some? ==> o.value == m[k]
  {
    if k in m then Some(m[k]) else None
  }

  /**
   * Every item in turn: its attempt sees what the store holds under the
   * item's key and its value is stored there; the first failing attempt
   * stops the run with its error.
   */
  function RunAll<A, K, V, E>(attempt: (A, Option<V>) -> Result<V, E>, key: A -> K, xs: seq<A>, m: map<K, V>)
    : (r: Result<map<K, V>, E>)
    ensures r.Success? ==> r.value.Keys == m.Keys + KeysOf(key, xs)
    ensures r.Success? ==> forall k :: k in m && k !in KeysOf(key, xs) ==> r.value[k] == m[k]
    decreases |xs|
  {
    if xs == [] then Success(m)
    else
      var k := key(xs[0]);
      var v :- attempt(xs[0], Lookup(m, k));
      KeysOfCons(key, xs);
      RunAll(attempt, key, xs[1..], m[k := v])
  }

  /** Items with distinct keys, none of them already in the store. */
  predicate FreshKeys<A, K, V>(key: A -> K, xs: seq<A>, m: map<K, V>) {
    && (forall i, j :: 0 <= i < j < |xs| ==> key(xs[i]) != key(xs[j]))
    && (forall i :: 0 <= i < |xs| ==> key(xs[i]) !in m)
  }

  lemma FreshKeysTail<A, K, V>(key: A -> K, xs: seq<A>, m: map<K, V>, v: V)
    requires xs != [] && FreshKeys(key, xs, m)
    ensures FreshKeys(key, xs[1..], m[key(xs[0]) := v])
  {
    var rest := xs[1..];
    forall i | 0 <= i < |rest|
      ensures key(rest[i]) != key(xs[0])
    {
      assert rest[i] == xs[i + 1];
    }
    forall i, j | 0 <= i < j < |rest|
      ensures key(rest[i]) != key(rest[j])
    {
      assert rest[i] == xs[i + 1] && rest[j] == xs[j + 1];
    }
  }

  /**
   * With fresh keys every attempt sees an empty slot: the run succeeds
   * exactly when each item's attempt on its own succeeds, and each key then
   * holds its item's value.
   */
  lemma {:induction false} RunAllFresh<A, K, V, E>(attempt: (A, Option<V>) -> Result<V, E>, key: A -> K, xs: seq<A>, m: map<K, V>)
    requires FreshKeys(key, xs, m)
    ensures RunAll(attempt, key, xs, m).Success? <==> forall i :: 0 <= i < |xs| ==> attempt(xs[i], None).Success?
    ensures RunAll(attempt, key, xs, m).Success? ==>
              forall i :: 0 <= i < |xs| ==> RunAll(attempt, key, xs, m).value[key(xs[i])] == attempt(xs[i], None).value
    decreases |xs|
  {
    if xs != [] {
      var k := key(xs[0]);
      assert Lookup(m, k) == None;
      var x := attempt(xs[0], None);
      if x.Success? {
        var rest := xs[1..];
        var m' := m[k := x.value];
        FreshKeysTail(key, xs, m, x.value);
        RunAllFresh(attempt, key, rest, m');
        assert forall i :: 1 <= i < |xs| ==> xs[i] == rest[i - 1];
        var r := RunAll(attempt, key, rest, m');
        if r.Success? {
          assert r.value[k] == x.value by {
            assert k in m' && k !in KeysOf(key, rest);
          }
        }
      }
    }
  }

  /** With fresh keys a failing run fails with the error of the first item whose attempt fails. */
  lemma {:induction false} RunAllFreshFails<A, K, V, E>(attempt: (A, Option<V>) -> Result<V, E>, key: A -> K, xs: seq<A>, m: map<K, V>)
    requires FreshKeys(key, xs, m)
    ensures RunAll(attempt, key, xs, m).Failure? ==> exists i ::
              && 0 <= i < |xs|
              && attempt(xs[i], None) == Failure(RunAll(attempt, key, xs, m).error)
              && forall j :: 0 <= j < i ==> attempt(xs[j], None).Success?
    decreases |xs|
  {
    if xs != [] {
      var k := key(xs[0]);
      assert Lookup(m, k) == None;
      var x := attempt(xs[0], None);
      if x.Success? {
        var rest := xs[1..];
        var m' := m[k := x.value];
        FreshKeysTail(key, xs, m, x.value);
        RunAllFreshFails(attempt, key, rest, m');
        var r := RunAll(attempt, key, rest, m');
        if r.Failure? {
          var i :| && 0 <= i < |rest|
                   && attempt(rest[i], None) == Failure(r.error)
                   && forall j :: 0 <= j < i ==> attempt(rest[j], None).Success?;
          assert forall j :: 1 <= j < |xs| ==> xs[j] == rest[j - 1];
          assert attempt(xs[i + 1], None) == Failure(r.error);
        }
      }
    }
  }

  /**
   * Two items under one key: the second attempt sees the first one's value,
   * and the key ends up holding the second value.
   */
  lemma RunAllSameKey<A, K, V, E>(attempt: (A, Option<V>) -> Result<V, E>, key: A -> K, a: A, b: A, m: map<K, V>, u: V, v: V)
    requires key(a) == key(b) && key(a) !in m
    requires attempt(a, None) == Success(u) && attempt(b, Some(u)) == Success(v)
    ensures RunAll(attempt, key, [a, b], m) == Success(m[key(a) := v])
  {
    var k := key(a);
    assert Lookup(m, k) == None;
    assert RunAll(attempt, key, [a, b], m) == RunAll(attempt, key, [b], m[k := u]) by {
      assert [a, b][1..] == [b];
    }
    assert Lookup(m[k := u], k) == Some(u);
    assert RunAll(attempt, key, [b], m[k := u]) == RunAll(attempt, key, [], m[k := u][k := v]) by {
      assert [b][1..] == [];
    }
    assert m[k := u][k := v] == m[k := v];
  }
}
