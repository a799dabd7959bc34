/** The dictionary library. A `HashMap` is a Dafny `map`; its iteration
    order is a hash order the model does not fix, so `keys`, `values` and
    `entries` may list the entries in any order, each entry once. */
module StdDict {
  import opened Prelude
  import StdMod

  /** `ks` lists every key of `d` exactly once. */
  predicate KeyOrder<K(==), V>(d: map<K, V>, ks: seq<K>)
  {
    && |ks| == |d|
    && (forall i, j :: 0 <= i < j < |ks| ==> ks[i] != ks[j])
    && (forall i :: 0 <= i < |ks| ==> ks[i] in d)
    && (forall k :: k in d ==> k in ks)
  }

  /** The length of a map is the length of any list of its keys without
      repeats: the count `KeyOrder` demands follows from the rest. */
  lemma LenMapCountsKeys<K, V>(d: map<K, V>, ks: seq<K>)
    requires forall i, j :: 0 <= i < j < |ks| ==> ks[i] != ks[j]
    requires forall i :: 0 <= i < |ks| ==> ks[i] in d
    requires forall k :: k in d ==> k in ks
    ensures StdMod.LenVec(ks) == StdMod.LenMap(d)
    ensures KeyOrder(d, ks)
  {
    StdMod.LenSetOfDistinct(ks);
    assert (set x | x in ks) == d.Keys;
  }

  /** `keys`: walks the map, taking each key once, in some order. */
  method Keys<K(==), V>(d: map<K, V>) returns (ks: seq<K>)
    ensures KeyOrder(d, ks)
  {
    ks := [];
    var rest := d.Keys;
    while rest != {}
      invariant rest <= d.Keys
      invariant forall i :: 0 <= i < |ks| ==> ks[i] in d && ks[i] !in rest
      invariant forall i, j :: 0 <= i < j < |ks| ==> ks[i] != ks[j]
      invariant forall k :: k in d ==> k in rest || k in ks
      invariant |ks| + |rest| == |d|
      decreases |rest|
    {
      var k :| k in rest;
      ks := ks + [k];
      rest := rest - {k};
    }
  }

  /** `entries`: every `(key, value)` pair once, in the order of a walk. */
  method Entries<K(==), V>(d: map<K, V>) returns (es: seq<(K, V)>)
    ensures KeyOrder(d, seq(|es|, i requires 0 <= i < |es| => es[i].0))
    ensures forall i :: 0 <= i < |es| ==> es[i].0 in d && es[i].1 == d[es[i].0]
  {
    var ks := Keys(d);
    es := seq(|ks|, i requires 0 <= i < |ks| => (ks[i], d[ks[i]]));
    assert seq(|es|, i requires 0 <= i < |es| => es[i].0) == ks;
  }

  /** `values`: the value of every key once, in the order of a walk. */
  method Values<K(==), V>(d: map<K, V>) returns (vs: seq<V>)
    ensures |vs| == |d|
    ensures exists ks ::
      && KeyOrder(d, ks)
      && |ks| == |vs|
      && (forall i :: 0 <= i < |vs| ==> vs[i] == d[ks[i]])
  {
    var ks := Keys(d);
    vs := seq(|ks|, i requires 0 <= i < |ks| => d[ks[i]]);
    assert KeyOrder(d, ks) && |ks| == |vs| && forall i :: 0 <= i < |vs| ==> vs[i] == d[ks[i]];
  }

  /** A `HashMap` passed as `&mut`. */
  class Dict<K(==), V> {
    var m: map<K, V>

    constructor (init: map<K, V>)
      ensures m == init
    {
      m := init;
    }

    /** `insert`: `key` now maps to `val`, replacing any old value; no
        other key changes. */
    method Insert(key: K, val: V)
      modifies this
      ensures m == old(m)[key := val]
      ensures key in m && m[key] == val
      ensures forall k :: k != key ==> (k in m <==> k in old(m))
      ensures forall k :: k != key && k in m ==> m[k] == old(m)[k]
    {
      m := m[key := val];
    }

    /** `remove_key`: the old value of a present key, which is removed;
        `None` and no change for an absent one. */
    method RemoveKey(key: K) returns (r: Option<V>)
      modifies this
      ensures key in old(m) ==> r == Some(old(m)[key]) && m == old(m) - {key}
      ensures key !in old(m) ==> r == None && m == old(m)
      ensures key !in m
    {
      if key in m {
        r := Some(m[key]);
        m := m - {key};
      } else {
        r := None;
      }
    }
  }

  /** Inserting then removing a key that was absent restores the map. */
  method InsertThenRemove(d: Dict<string, int>, key: string, val: int) returns (r: Option<int>)
    requires key !in d.m
    modifies d
    ensures r == Some(val) && d.m == old(d.m)
  {
    d.Insert(key, val);
    r := d.RemoveKey(key);
  }

  /** Every key of the map is listed by `keys`, and nothing else is. */
  lemma KeyOrderIsKeys<K, V>(d: map<K, V>, ks: seq<K>)
    requires KeyOrder(d, ks)
    ensures (set i | 0 <= i < |ks| :: ks[i]) == d.Keys
  {
    forall k | k in d
      ensures k in set i | 0 <= i < |ks| :: ks[i]
    {
      var i :| 0 <= i < |ks| && ks[i] == k;
    }
  }
}
