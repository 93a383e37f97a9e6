/** The two ways the splice event analyser fills a HashMap from query rows:
    `put` per row, so the last value written for a key stays; and "create
    the key's set if missing, then add", so a key collects every value it
    is paired with. */
module Tables {

  /** m maps exactly the keys of the rows, each to the value of the last row
      with that key. */
  ghost predicate KeepsLastValue<K(!new), V>(rows: seq<(K, V)>, m: map<K, V>) {
    && (forall k :: k in m <==> exists i :: 0 <= i < |rows| && rows[i].0 == k)
    && (forall k :: k in m ==> exists i :: 0 <= i < |rows| && rows[i] == (k, m[k]) && IsLastWith(rows, k, i))
  }

  /** Row i is the last row with key k. */
  ghost predicate IsLastWith<K(!new), V>(rows: seq<(K, V)>, k: K, i: nat) {
    forall j :: i < j < |rows| ==> rows[j].0 != k
  }

  /** The values the rows pair with key k. */
  ghost function ValuesOf<K(!new), V>(rows: seq<(K, V)>, k: K): set<V> {
    set i | 0 <= i < |rows| && rows[i].0 == k :: rows[i].1
  }

  /** m maps exactly the keys of the rows, each to the set of values paired
      with it in some row. */
  ghost predicate GroupsValues<K(!new), V>(rows: seq<(K, V)>, m: map<K, set<V>>) {
    && (forall k :: k in m <==> exists i :: 0 <= i < |rows| && rows[i].0 == k)
    && (forall k :: k in m ==> m[k] == ValuesOf(rows, k))
  }

  /** The `put` loop: each row's value replaces the key's earlier one. */
  method PutAll<K(!new), V>(rows: seq<(K, V)>) returns (m: map<K, V>)
    ensures KeepsLastValue(rows, m)
  {
    m := map[];
    var i := 0;
    while i < |rows|
      invariant 0 <= i <= |rows|
      invariant KeepsLastValue(rows[..i], m)
    {
      var (key, value) := rows[i];
      PutKeepsLastValue(rows[..i], m, key, value);
      assert rows[..i + 1] == rows[..i] + [(key, value)];
      m := m[key := value];
      i := i + 1;
    }
    assert rows[..i] == rows;
  }

  /** One `put` preserves KeepsLastValue for the rows extended by that row. */
  lemma PutKeepsLastValue<K(!new), V>(rows: seq<(K, V)>, m: map<K, V>, key: K, value: V)
    requires KeepsLastValue(rows, m)
    ensures KeepsLastValue(rows + [(key, value)], m[key := value])
  {
    var rows' := rows + [(key, value)];
    var m' := m[key := value];
    forall k ensures k in m' <==> exists i :: 0 <= i < |rows'| && rows'[i].0 == k {
      if k in m' && k != key {
        var i :| 0 <= i < |rows| && rows[i].0 == k;
        assert rows'[i] == rows[i];
      }
      if k == key {
        assert rows'[|rows|].0 == k;
      }
      if exists i :: 0 <= i < |rows'| && rows'[i].0 == k {
        var i :| 0 <= i < |rows'| && rows'[i].0 == k;
        if i < |rows| { assert rows[i].0 == k; }
      }
    }
    forall k | k in m' ensures exists i :: 0 <= i < |rows'| && rows'[i] == (k, m'[k]) && IsLastWith(rows', k, i) {
      if k == key {
        assert rows'[|rows|] == (k, m'[k]) && IsLastWith(rows', k, |rows|);
      } else {
        var i :| 0 <= i < |rows| && rows[i] == (k, m[k]) && IsLastWith(rows, k, i);
        assert rows'[i] == (k, m'[k]);
        assert IsLastWith(rows', k, i);
      }
    }
  }

  /** The group-by loop: a key's set is created on first sight, then every
      row adds its value to its key's set. */
  method GroupIntoSets<K(!new), V>(rows: seq<(K, V)>) returns (m: map<K, set<V>>)
    ensures GroupsValues(rows, m)
  {
    m := map[];
    var i := 0;
    while i < |rows|
      invariant 0 <= i <= |rows|
      invariant GroupsValues(rows[..i], m)
    {
      var (key, value) := rows[i];
      AddKeepsGroups(rows[..i], m, key, value);
      assert rows[..i + 1] == rows[..i] + [(key, value)];
      if key !in m {
        m := m[key := {}];
      }
      m := m[key := m[key] + {value}];
      i := i + 1;
    }
    assert rows[..i] == rows;
  }

  /** Adding the row's value to its key's set (created empty if missing)
      preserves GroupsValues for the rows extended by that row. */
  lemma AddKeepsGroups<K(!new), V>(rows: seq<(K, V)>, m: map<K, set<V>>, key: K, value: V)
    requires GroupsValues(rows, m)
    ensures GroupsValues(rows + [(key, value)], m[key := (if key in m then m[key] else {}) + {value}])
  {
    var rows' := rows + [(key, value)];
    var m' := m[key := (if key in m then m[key] else {}) + {value}];
    forall k ensures k in m' <==> exists i :: 0 <= i < |rows'| && rows'[i].0 == k {
      if k in m' && k != key {
        var i :| 0 <= i < |rows| && rows[i].0 == k;
        assert rows'[i] == rows[i];
      }
      if k == key {
        assert rows'[|rows|].0 == k;
      }
      if exists i :: 0 <= i < |rows'| && rows'[i].0 == k {
        var i :| 0 <= i < |rows'| && rows'[i].0 == k;
        if i < |rows| { assert rows[i].0 == k; }
      }
    }
    forall k | k in m' ensures m'[k] == ValuesOf(rows', k) {
      assert forall i :: 0 <= i < |rows| ==> rows'[i] == rows[i];
      if k == key {
        assert ValuesOf(rows', k) == ValuesOf(rows, k) + {value} by {
          forall v | v in ValuesOf(rows', k) ensures v in ValuesOf(rows, k) + {value} {
            var i :| 0 <= i < |rows'| && rows'[i].0 == k && rows'[i].1 == v;
            if i < |rows| { assert rows[i].0 == k && rows[i].1 == v; }
          }
          assert rows'[|rows|].0 == k;
        }
        if key !in m {
          assert forall i :: 0 <= i < |rows| ==> rows[i].0 != k;
        }
      } else {
        assert ValuesOf(rows', k) == ValuesOf(rows, k) by {
          forall v | v in ValuesOf(rows', k) ensures v in ValuesOf(rows, k) {
            var i :| 0 <= i < |rows'| && rows'[i].0 == k && rows'[i].1 == v;
            assert i < |rows|;
            assert rows[i].0 == k && rows[i].1 == v;
          }
        }
      }
    }
  }
}
