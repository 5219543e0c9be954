/** The two ways the caches load rows into a container: `insert_or_assign` lets the last row of a
    key win, `insert` the first. */
module Containers {

  lemma Inhabited<T>(s: set<T>) returns (x: T)
    requires s != {}
    ensures x in s
  {
    x :| x in s;
  }

  /** `insert_or_assign` of every row under its key, in order. */
  function AssignAll<K, V>(m: map<K, V>, rows: seq<V>, key: V -> K): map<K, V>
    decreases |rows|
  {
    if rows == [] then m else AssignAll(m[key(rows[0]) := rows[0]], rows[1..], key)
  }

  /** `insert` of every row under its key, in order. */
  function InsertAll<K, V>(m: map<K, V>, rows: seq<V>, key: V -> K): map<K, V>
    decreases |rows|
  {
    if rows == [] then m
    else InsertAll(if key(rows[0]) in m then m else m[key(rows[0]) := rows[0]], rows[1..], key)
  }

  /** Several batches as one. */
  function Flatten<V>(batches: seq<seq<V>>): seq<V> {
    if batches == [] then [] else batches[0] + Flatten(batches[1..])
  }

  lemma {:induction false} AssignAllConcat<K, V>(m: map<K, V>, a: seq<V>, b: seq<V>, key: V -> K)
    ensures AssignAll(m, a + b, key) == AssignAll(AssignAll(m, a, key), b, key)
    decreases |a|
  {
    if a == [] {
      assert a + b == b;
    } else {
      assert (a + b)[1..] == a[1..] + b;
      AssignAllConcat(m[key(a[0]) := a[0]], a[1..], b, key);
    }
  }

  lemma AssignAllSnoc<K, V>(m: map<K, V>, rows: seq<V>, row: V, key: V -> K)
    ensures AssignAll(m, rows + [row], key) == AssignAll(m, rows, key)[key(row) := row]
  {
    AssignAllConcat(m, rows, [row], key);
    var loaded := AssignAll(m, rows, key);
    assert AssignAll(loaded, [row], key) == AssignAll(loaded[key(row) := row], [], key);
  }

  lemma {:induction false} InsertAllSnoc<K, V>(m: map<K, V>, rows: seq<V>, row: V, key: V -> K)
    ensures var loaded := InsertAll(m, rows, key);
      InsertAll(m, rows + [row], key) == if key(row) in loaded then loaded else loaded[key(row) := row]
    decreases |rows|
  {
    if rows == [] {
      assert ([] + [row])[1..] == [];
    } else {
      assert (rows + [row])[1..] == rows[1..] + [row];
      InsertAllSnoc(if key(rows[0]) in m then m else m[key(rows[0]) := rows[0]], rows[1..], row, key);
    }
  }

  /** The last row with key `k`, or -1. */
  function LastRow<K(==), V>(rows: seq<V>, key: V -> K, k: K): (i: int)
    ensures -1 <= i < |rows|
    ensures i >= 0 ==> key(rows[i]) == k
    ensures forall j | i < j < |rows| :: key(rows[j]) != k
  {
    if rows == [] then -1
    else if key(rows[|rows| - 1]) == k then |rows| - 1
    else LastRow(rows[..|rows| - 1], key, k)
  }

  /** What `insert_or_assign` leaves under a key: the last row with that key, else what was there. */
  lemma {:induction false} AssignedValue<K, V>(m: map<K, V>, rows: seq<V>, key: V -> K, k: K)
    ensures var loaded, i := AssignAll(m, rows, key), LastRow(rows, key, k);
      && (k in loaded <==> k in m || i >= 0)
      && (k in loaded ==> loaded[k] == if i >= 0 then rows[i] else m[k])
    decreases |rows|
  {
    if rows != [] {
      var front, row := rows[..|rows| - 1], rows[|rows| - 1];
      assert rows == front + [row];
      AssignAllSnoc(m, front, row, key);
      AssignedValue(m, front, key, k);
    }
  }

  /** What `insert` leaves under a key: what was there, else the first row with that key. */
  lemma {:induction false} InsertedValue<K, V>(m: map<K, V>, rows: seq<V>, key: V -> K, k: K)
    ensures var loaded := InsertAll(m, rows, key);
      && (k in loaded <==> k in m || exists row <- rows :: key(row) == k)
      && (k in m ==> loaded[k] == m[k])
      && (k in loaded && k !in m ==>
            exists i :: 0 <= i < |rows| && loaded[k] == rows[i] && key(rows[i]) == k
                        && forall j | 0 <= j < i :: key(rows[j]) != k)
    decreases |rows|
  {
    if rows != [] {
      var front, row := rows[..|rows| - 1], rows[|rows| - 1];
      assert rows == front + [row];
      InsertAllSnoc(m, front, row, key);
      InsertedValue(m, front, key, k);
      var before := InsertAll(m, front, key);
      if k in before && k !in m {
        var i :| 0 <= i < |front| && before[k] == front[i] && key(front[i]) == k
                 && forall j | 0 <= j < i :: key(front[j]) != k;
        assert rows[i] == front[i] && forall j | 0 <= j < i :: rows[j] == front[j];
      } else if k !in m && key(row) == k {
        assert rows[|front|] == row && forall j | 0 <= j < |front| :: rows[j] == front[j] && front[j] in front;
      }
    }
  }

  /** Whatever `older` has, `newer` has unchanged. */
  ghost predicate Submap<K, V>(older: map<K, V>, newer: map<K, V>) {
    forall k <- older :: k in newer && newer[k] == older[k]
  }

  /** Every value is stored under its own key. */
  ghost predicate Keyed<K, V>(m: map<K, V>, key: V -> K) {
    forall k <- m :: key(m[k]) == k
  }

  lemma LoadsKeepKeyed<K, V>(m: map<K, V>, rows: seq<V>, key: V -> K)
    requires Keyed(m, key)
    ensures Keyed(AssignAll(m, rows, key), key) && Keyed(InsertAll(m, rows, key), key)
  {
    forall k <- AssignAll(m, rows, key) ensures key(AssignAll(m, rows, key)[k]) == k {
      AssignedValue(m, rows, key, k);
    }
    forall k <- InsertAll(m, rows, key) ensures key(InsertAll(m, rows, key)[k]) == k {
      InsertedValue(m, rows, key, k);
    }
  }

  /** On rows with distinct keys the two ways of loading an empty container agree. */
  lemma InsertIsAssign<K(!new), V>(rows: seq<V>, key: V -> K)
    requires forall i, j | 0 <= i < j < |rows| :: key(rows[i]) != key(rows[j])
    ensures InsertAll(map[], rows, key) == AssignAll(map[], rows, key)
  {
    var a, b := InsertAll(map[], rows, key), AssignAll(map[], rows, key);
    forall k: K ensures k in a.Keys <==> k in b.Keys {
      InsertedValue(map[], rows, key, k);
      AssignedValue(map[], rows, key, k);
    }
    assert a.Keys == b.Keys;
    forall k: K | k in a ensures a[k] == b[k] {
      InsertedValue(map[], rows, key, k);
      AssignedValue(map[], rows, key, k);
    }
  }

  /** A batch laid over a container is the union of the two maps, the batch's rows winning. */
  lemma AssignIsOverlay<K(!new), V>(m: map<K, V>, rows: seq<V>, key: V -> K)
    ensures AssignAll(m, rows, key) == m + AssignAll(map[], rows, key)
  {
    var a, b := AssignAll(m, rows, key), m + AssignAll(map[], rows, key);
    forall k: K
      ensures k in a.Keys <==> k in b.Keys
      ensures k in a ==> k in b && a[k] == b[k]
    {
      AssignedValue(m, rows, key, k);
      AssignedValue(map[], rows, key, k);
    }
    assert a.Keys == b.Keys;
  }
}
