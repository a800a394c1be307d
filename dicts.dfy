/**
 * A Python `dict` with string keys: its entries in insertion order. The
 * reader builds one and the writer walks one in key order.
 */
module Dicts {
  import opened Wrappers
  import opened Tables

  type Dict<V> = seq<(string, V)>

  function Keys<V>(d: Dict<V>): (ks: seq<string>)
    ensures |ks| == |d| && forall i :: 0 <= i < |d| ==> ks[i] == d[i].0
  {
    seq(|d|, i requires 0 <= i < |d| => d[i].0)
  }

  /** `d.get(k)`. */
  function Lookup<V>(d: Dict<V>, k: string): (r: Option<V>)
    ensures r.None? <==> k !in Keys(d)
    ensures Distinct(Keys(d)) ==> forall i :: 0 <= i < |d| && d[i].0 == k ==> r == Some(d[i].1)
  {
    if d == [] then None
    else if d[0].0 == k then Some(d[0].1)
    else
      var r := Lookup(d[1..], k);
      assert Keys(d[1..]) == Keys(d)[1..];
      assert Distinct(Keys(d)) ==> Distinct(Keys(d[1..])) by {
        if Distinct(Keys(d)) {
          forall i, j | 0 <= i < j < |d| - 1 ensures Keys(d[1..])[i] != Keys(d[1..])[j] {
            assert Keys(d)[i + 1] != Keys(d)[j + 1];
          }
        }
      }
      r
  }

  /**
   * `d[k] = v`: an existing key keeps its place and takes the new value,
   * a new key goes at the end.
   */
  function Insert<V>(d: Dict<V>, k: string, v: V): (r: Dict<V>)
    ensures k in Keys(d) ==> |r| == |d| && forall i :: 0 <= i < |d| ==> r[i] == (if d[i].0 == k then (k, v) else d[i])
    ensures k !in Keys(d) ==> r == d + [(k, v)]
  {
    if k in Keys(d) then seq(|d|, i requires 0 <= i < |d| => if d[i].0 == k then (k, v) else d[i])
    else d + [(k, v)]
  }

  /** Inserting keeps the keys distinct and adds exactly the new key. */
  lemma InsertKeys<V>(d: Dict<V>, k: string, v: V)
    requires Distinct(Keys(d))
    ensures Distinct(Keys(Insert(d, k, v)))
    ensures forall x :: x in Keys(Insert(d, k, v)) <==> x in Keys(d) || x == k
    ensures Lookup(Insert(d, k, v), k) == Some(v)
    ensures forall x :: x != k ==> Lookup(Insert(d, k, v), x) == Lookup(d, x)
  {
    var r := Insert(d, k, v);
    assert Keys(r) == (if k in Keys(d) then Keys(d) else Keys(d) + [k]);
    forall x | x != k ensures Lookup(r, x) == Lookup(d, x) {
      if x in Keys(d) {
        var i :| 0 <= i < |d| && d[i].0 == x;
        assert r[i] == d[i];
      }
    }
    var i :| 0 <= i < |r| && r[i].0 == k;
    assert r[i] == (k, v);
  }

  /** `dict(zip(keys, values))` for lists of the same length. */
  function FromPairs<V>(keys: seq<string>, values: seq<V>): Dict<V>
    requires |keys| == |values|
    decreases |keys|
  {
    if keys == [] then []
    else
      var n := |keys| - 1;
      Insert(FromPairs(keys[..n], values[..n]), keys[n], values[n])
  }

  /** The dictionary has exactly the given keys, each once. */
  lemma {:induction false} FromPairsKeys<V>(keys: seq<string>, values: seq<V>)
    requires |keys| == |values|
    ensures Distinct(Keys(FromPairs(keys, values)))
    ensures forall k :: k in Keys(FromPairs(keys, values)) <==> k in keys
    decreases |keys|
  {
    if keys != [] {
      var n := |keys| - 1;
      FromPairsKeys(keys[..n], values[..n]);
      InsertKeys(FromPairs(keys[..n], values[..n]), keys[n], values[n]);
      assert keys == keys[..n] + [keys[n]];
    }
  }

  /** An occurrence that is the last of its key, seen from the prefix before the last pair. */
  lemma LastOccurrenceInPrefix(keys: seq<string>, i: nat)
    requires i < |keys| - 1 && keys[i] !in keys[i + 1..]
    ensures keys[i] != keys[|keys| - 1]
    ensures keys[..|keys| - 1][i] == keys[i] && keys[i] !in keys[..|keys| - 1][i + 1..]
  {
    var n := |keys| - 1;
    assert keys[n] == keys[i + 1..][n - i - 1];
    var u := keys[..n][i + 1..];
    var v := keys[i + 1..];
    forall j | 0 <= j < |u| ensures u[j] != keys[i] {
      assert u[j] == v[j];
    }
  }

  /** Inserting one key leaves what another key finds unchanged. */
  lemma LookupAfterInsert<V>(d: Dict<V>, k: string, v: V, x: string, w: V)
    requires Distinct(Keys(d)) && x != k && Lookup(d, x) == Some(w)
    ensures Lookup(Insert(d, k, v), x) == Some(w)
  {
    InsertKeys(d, k, v);
  }

  /**
   * The dictionary has exactly the given keys, each once, and a key given
   * more than once takes the value paired with its last occurrence.
   */
  lemma {:induction false} FromPairsLastWins<V>(keys: seq<string>, values: seq<V>)
    requires |keys| == |values|
    ensures Distinct(Keys(FromPairs(keys, values)))
    ensures forall k :: k in Keys(FromPairs(keys, values)) <==> k in keys
    ensures forall i :: 0 <= i < |keys| && keys[i] !in keys[i + 1..] ==> Lookup(FromPairs(keys, values), keys[i]) == Some(values[i])
    decreases |keys|
  {
    FromPairsKeys(keys, values);
    if keys != [] {
      var n := |keys| - 1;
      var d := FromPairs(keys[..n], values[..n]);
      assert FromPairs(keys, values) == Insert(d, keys[n], values[n]);
      FromPairsLastWins(keys[..n], values[..n]);
      forall i | 0 <= i < |keys| && keys[i] !in keys[i + 1..]
        ensures Lookup(FromPairs(keys, values), keys[i]) == Some(values[i])
      {
        if i < n {
          LastOccurrenceInPrefix(keys, i);
          assert values[..n][i] == values[i];
          assert Lookup(d, keys[i]) == Some(values[i]);
          LookupAfterInsert(d, keys[n], values[n], keys[i], values[i]);
        } else {
          InsertKeys(d, keys[n], values[n]);
        }
      }
    }
  }
}
