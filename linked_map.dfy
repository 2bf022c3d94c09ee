/**
 * Kotlin's `mutableMapOf()` is a `LinkedHashMap`: a map that remembers the
 * order in which keys were first inserted. It is modelled as a list of
 * entries with distinct keys; `Put` overwrites an existing key where it
 * stands and appends a new key at the end.
 */
module LinkedMap {
  import opened Wrappers

  type LinkedMap<K, V> = seq<(K, V)>

  ghost predicate NoDupKeys<K, V>(m: LinkedMap<K, V>) {
    forall i, j :: 0 <= i < j < |m| ==> m[i].0 != m[j].0
  }

  function Keys<K, V>(m: LinkedMap<K, V>): set<K> {
    set i | 0 <= i < |m| :: m[i].0
  }

  /** Position of the first entry with key `k`, or `|m|` when there is none. */
  function Find<K(==), V>(m: LinkedMap<K, V>, k: K): (i: nat)
    ensures i <= |m|
    ensures i < |m| ==> m[i].0 == k
    ensures forall j :: 0 <= j < i ==> m[j].0 != k
  {
    if m == [] then 0 else if m[0].0 == k then 0 else 1 + Find(m[1..], k)
  }

  /** `m[k]`: the value stored under `k`, if any. */
  function Get<K(==), V>(m: LinkedMap<K, V>, k: K): Option<V>
  {
    var i := Find(m, k);
    if i < |m| then Some(m[i].1) else None
  }

  /** `m[k] = v`. */
  function Put<K(==), V>(m: LinkedMap<K, V>, k: K, v: V): LinkedMap<K, V>
  {
    var i := Find(m, k);
    if i < |m| then m[i := (k, v)] else m + [(k, v)]
  }

  lemma KeysFind<K, V>(m: LinkedMap<K, V>, k: K)
    ensures k in Keys(m) <==> Find(m, k) < |m|
  {
    if Find(m, k) < |m| {
      assert m[Find(m, k)].0 == k;
    }
  }

  /** Two entry lists with the same keys in the same places find keys alike. */
  lemma FindSameKeys<K, V>(m: LinkedMap<K, V>, m': LinkedMap<K, V>, k: K)
    requires |m| == |m'| && forall j :: 0 <= j < |m| ==> m[j].0 == m'[j].0
    ensures Find(m, k) == Find(m', k)
  {
  }

  /** After `m[k] = v`, `k` maps to `v` and every other key is untouched. */
  lemma PutGet<K, V>(m: LinkedMap<K, V>, k: K, v: V)
    ensures Get(Put(m, k, v), k) == Some(v)
    ensures forall k' :: k' != k ==> Get(Put(m, k, v), k') == Get(m, k')
  {
    var i := Find(m, k);
    var r := Put(m, k, v);
    if i < |m| {
      forall k' ensures Find(r, k') == Find(m, k') {
        FindSameKeys(r, m, k');
      }
    } else {
      assert Find(r, k) == |m| by {
        assert r[|m|].0 == k;
        assert forall j :: 0 <= j < |m| ==> r[j].0 == m[j].0;
      }
      forall k' | k' != k ensures Get(r, k') == Get(m, k') {
        var j := Find(m, k');
        var j' := Find(r, k');
        assert forall x :: 0 <= x < |m| ==> r[x] == m[x];
        if j < |m| {
          assert r[j].0 == k';
        }
      }
    }
  }

  /**
   * A key already present keeps its place (every key stays where it is);
   * a new key is appended at the end.
   */
  lemma PutOrder<K, V>(m: LinkedMap<K, V>, k: K, v: V)
    ensures k in Keys(m) ==> |Put(m, k, v)| == |m| && forall j :: 0 <= j < |m| ==> Put(m, k, v)[j].0 == m[j].0
    ensures k !in Keys(m) ==> Put(m, k, v) == m + [(k, v)]
    ensures Keys(Put(m, k, v)) == Keys(m) + {k}
  {
    KeysFind(m, k);
    var r := Put(m, k, v);
    if k in Keys(m) {
      assert forall j :: 0 <= j < |m| ==> r[j].0 == m[j].0;
      assert Keys(r) == Keys(m);
    } else {
      assert Keys(r) == Keys(m) + {k} by {
        forall x | x in Keys(r) ensures x in Keys(m) + {k} {
          var j :| 0 <= j < |r| && r[j].0 == x;
          if j < |m| { assert r[j] == m[j]; }
        }
        forall x | x in Keys(m) ensures x in Keys(r) {
          var j :| 0 <= j < |m| && m[j].0 == x;
          assert r[j] == m[j];
        }
        assert r[|m|].0 == k;
      }
    }
  }

  /** Every entry after `m[k] = v` is `(k, v)` or the entry of `m` in the same place. */
  lemma PutEntries<K, V>(m: LinkedMap<K, V>, k: K, v: V)
    ensures forall j :: 0 <= j < |Put(m, k, v)| ==> Put(m, k, v)[j] == (k, v) || (j < |m| && Put(m, k, v)[j] == m[j])
  {
  }

  /** Keys stay distinct under `Put`. */
  lemma PutNoDupKeys<K, V>(m: LinkedMap<K, V>, k: K, v: V)
    requires NoDupKeys(m)
    ensures NoDupKeys(Put(m, k, v))
  {
    PutOrder(m, k, v);
    var r := Put(m, k, v);
    if k !in Keys(m) {
      forall i, j | 0 <= i < j < |r| ensures r[i].0 != r[j].0 {
        if j == |m| {
          assert r[i] == m[i];
          assert m[i].0 in Keys(m);
        } else {
          assert r[i] == m[i] && r[j] == m[j];
        }
      }
    }
  }
}
