/**
  An insertion-ordered map (the `LinkedHashMap` both the parser's `Hash` and
  the converter's `Node` are built on), represented by its entries in
  iteration order.
 */
module LinkedMap {
  import opened Wrappers

  /** One entry of the map. */
  datatype Pair<K, V> = Pair(key: K, value: V)

  /** The keys of an entry list, in iteration order. */
  function Keys<K, V>(m: seq<Pair<K, V>>): (ks: seq<K>)
    ensures |ks| == |m|
    ensures forall i :: 0 <= i < |m| ==> ks[i] == m[i].key
  {
    if m == [] then [] else [m[0].key] + Keys(m[1..])
  }

  /** No key occurs in two entries: the invariant of every map. */
  predicate DistinctKeys<K(==,!new), V>(m: seq<Pair<K, V>>)
  {
    forall i, j :: 0 <= i < j < |m| ==> m[i].key != m[j].key
  }

  /** Appending an entry appends its key. */
  lemma KeysSnoc<K, V>(m: seq<Pair<K, V>>, p: Pair<K, V>)
    ensures Keys(m + [p]) == Keys(m) + [p.key]
  {
  }

  /** A list has distinct keys exactly when its tail does and its head key is not in the tail. */
  lemma DistinctCons<K(!new), V>(m: seq<Pair<K, V>>)
    requires m != []
    ensures DistinctKeys(m) <==> DistinctKeys(m[1..]) && m[0].key !in Keys(m[1..])
  {
    var t := m[1..];
    assert forall i :: 0 < i < |m| ==> m[i] == t[i - 1];
    if DistinctKeys(t) && m[0].key !in Keys(t) {
      forall i, j | 0 <= i < j < |m| ensures m[i].key != m[j].key {
        if i == 0 {
          assert Keys(t)[j - 1] == m[j].key;
        }
      }
    }
  }

  /** `map.get(&k)`. */
  function Lookup<K(==,!new), V>(m: seq<Pair<K, V>>, k: K): (r: Option<V>)
    ensures r.Some? <==> k in Keys(m)
    ensures r.Some? ==> Pair(k, r.value) in m
    ensures DistinctKeys(m) ==> forall i :: 0 <= i < |m| && m[i].key == k ==> r == Some(m[i].value)
  {
    if m == [] then None
    else if m[0].key == k then Some(m[0].value)
    else
      var r := Lookup(m[1..], k);
      assert forall i :: 0 < i < |m| ==> m[i] == m[1..][i - 1];
      r
  }

  /**
    `map.insert(k, v)`: a key not yet present is appended after all others;
    for a key already present the value is replaced. Where that entry then
    sits is this model's choice: it stays where it was. The crate may instead
    move it to the back; no property below depends on the choice.
   */
  function Insert<K(==,!new), V>(m: seq<Pair<K, V>>, k: K, v: V): (r: seq<Pair<K, V>>)
    ensures k !in Keys(m) ==> r == m + [Pair(k, v)]
    ensures k in Keys(m) ==> |r| == |m|
  {
    if m == [] then [Pair(k, v)]
    else if m[0].key == k then [Pair(k, v)] + m[1..]
    else [m[0]] + Insert(m[1..], k, v)
  }

  /** After an insert, `k` maps to `v` and every other key to what it mapped to before. */
  lemma {:induction false} InsertLookup<K(!new), V>(m: seq<Pair<K, V>>, k: K, v: V, k': K)
    ensures Lookup(Insert(m, k, v), k) == Some(v)
    ensures k' != k ==> Lookup(Insert(m, k, v), k') == Lookup(m, k')
  {
    if m == [] {
    } else if m[0].key == k {
      var r := Insert(m, k, v);
      assert r[0] == Pair(k, v) && r[1..] == m[1..];
    } else {
      var r := Insert(m, k, v);
      assert r[0] == m[0] && r[1..] == Insert(m[1..], k, v);
      InsertLookup(m[1..], k, v, k');
    }
  }

  /** An insert adds `k` to the keys and the pair `(k, v)` to the entries, and nothing else. */
  lemma {:induction false} InsertEntries<K(!new), V>(m: seq<Pair<K, V>>, k: K, v: V)
    ensures forall k' :: k' in Keys(Insert(m, k, v)) <==> k' == k || k' in Keys(m)
    ensures forall p :: p in Insert(m, k, v) ==> p == Pair(k, v) || p in m
    ensures Pair(k, v) in Insert(m, k, v)
    ensures forall p :: p in m && p.key != k ==> p in Insert(m, k, v)
  {
    if m != [] {
      var r := Insert(m, k, v);
      assert Keys(m) == [m[0].key] + Keys(m[1..]);
      if m[0].key == k {
        assert r[1..] == m[1..];
        assert Keys(r) == [k] + Keys(m[1..]);
      } else {
        InsertEntries(m[1..], k, v);
        assert r == [m[0]] + Insert(m[1..], k, v);
        assert Keys(r) == [m[0].key] + Keys(Insert(m[1..], k, v));
      }
    }
  }

  /** An insert keeps the keys distinct. */
  lemma {:induction false} InsertKeepsDistinct<K(!new), V>(m: seq<Pair<K, V>>, k: K, v: V)
    requires DistinctKeys(m)
    ensures DistinctKeys(Insert(m, k, v))
  {
    if m != [] {
      var r := Insert(m, k, v);
      DistinctCons(m);
      DistinctCons(r);
      if m[0].key == k {
        assert r[1..] == m[1..];
      } else {
        InsertKeepsDistinct(m[1..], k, v);
        InsertEntries(m[1..], k, v);
        assert r[0] == m[0] && r[1..] == Insert(m[1..], k, v);
      }
    }
  }

  /** A fresh map into which the entries of `ps` are inserted in order. */
  function FromPairs<K(==,!new), V>(ps: seq<Pair<K, V>>): (m: seq<Pair<K, V>>)
    ensures DistinctKeys(m)
    ensures forall k :: k in Keys(m) <==> k in Keys(ps)
    ensures |m| <= |ps|
  {
    if ps == [] then []
    else
      var init, last := ps[..|ps| - 1], ps[|ps| - 1];
      var acc := FromPairs(init);
      assert ps == init + [last];
      KeysSnoc(init, last);
      InsertEntries(acc, last.key, last.value);
      InsertKeepsDistinct(acc, last.key, last.value);
      Insert(acc, last.key, last.value)
  }

  /** Building from a longer prefix is one more insert. */
  lemma FromPairsPrefix<K(!new), V>(ps: seq<Pair<K, V>>, m: nat)
    requires m < |ps|
    ensures FromPairs(ps[..m + 1]) == Insert(FromPairs(ps[..m]), ps[m].key, ps[m].value)
  {
    assert ps[..m + 1][..m] == ps[..m];
  }

  /**
    Last write wins: the value stored for a key is the value of the last
    entry of `ps` carrying that key.
   */
  lemma {:induction false} LastWriteWins<K(!new), V>(ps: seq<Pair<K, V>>, i: nat)
    requires i < |ps|
    requires forall j :: i < j < |ps| ==> ps[j].key != ps[i].key
    ensures Lookup(FromPairs(ps), ps[i].key) == Some(ps[i].value)
  {
    var init, last := ps[..|ps| - 1], ps[|ps| - 1];
    InsertLookup(FromPairs(init), last.key, last.value, ps[i].key);
    if i < |ps| - 1 {
      LastWriteWins(init, i);
    }
  }

  /** Every entry of the built map is one of the inserted entries. */
  lemma {:induction false} FromPairsEntries<K(!new), V>(ps: seq<Pair<K, V>>)
    ensures forall p :: p in FromPairs(ps) ==> p in ps
  {
    if ps != [] {
      var init, last := ps[..|ps| - 1], ps[|ps| - 1];
      var acc := FromPairs(init);
      FromPairsEntries(init);
      InsertEntries(acc, last.key, last.value);
      assert FromPairs(ps) == Insert(acc, last.key, last.value);
      forall p | p in FromPairs(ps) ensures p in ps {
        if p != last {
          assert p in init;
          var j :| 0 <= j < |init| && init[j] == p;
          assert ps[j] == p;
        }
      }
    }
  }

  /** Inserting entries whose keys are all different keeps every entry, in order. */
  lemma {:induction false} FromPairsOfDistinct<K(!new), V>(ps: seq<Pair<K, V>>)
    requires DistinctKeys(ps)
    ensures FromPairs(ps) == ps
  {
    if ps != [] {
      var init, last := ps[..|ps| - 1], ps[|ps| - 1];
      assert DistinctKeys(init);
      FromPairsOfDistinct(init);
      forall j | 0 <= j < |init| ensures Keys(init)[j] != last.key {
        assert init[j] == ps[j];
      }
      assert ps == init + [last];
    }
  }

  /** A repeated key always costs an entry: no entry is lost only when all keys differ. */
  lemma {:induction false} FromPairsKeepsAll<K(!new), V>(ps: seq<Pair<K, V>>)
    ensures |FromPairs(ps)| == |ps| <==> DistinctKeys(ps)
  {
    if DistinctKeys(ps) {
      FromPairsOfDistinct(ps);
    } else {
      var init, last := ps[..|ps| - 1], ps[|ps| - 1];
      var acc := FromPairs(init);
      if DistinctKeys(init) {
        var i, j :| 0 <= i < j < |ps| && ps[i].key == ps[j].key;
        assert j == |ps| - 1;
        assert Keys(init)[i] == last.key;
        assert last.key in Keys(acc);
      } else {
        FromPairsKeepsAll(init);
      }
    }
  }
}
