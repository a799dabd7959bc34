/** Map builders: a map from a list of pairs, a map from two parallel lists,
    and a clone. Rust's `HashMap` is a Dafny `map`; the hash order plays no
    part in what the builders compute. */
module DictBuild {
  import opened RustLib

  /** The keys occurring in `ps`. */
  function KeysOf<K(==), V>(ps: seq<(K, V)>): set<K>
  {
    set i | 0 <= i < |ps| :: ps[i].0
  }

  /** `ps[i]` is the last pair in `ps` with its key. */
  predicate LastWith<K(==), V>(ps: seq<(K, V)>, i: int)
  {
    0 <= i < |ps| && forall j :: i < j < |ps| ==> ps[j].0 != ps[i].0
  }

  /** Splitting off the last pair splits off its key. */
  lemma KeysOfSnoc<K, V>(ps: seq<(K, V)>)
    requires ps != []
    ensures KeysOf(ps) == KeysOf(ps[..|ps| - 1]) + {ps[|ps| - 1].0}
  {
    var init := ps[..|ps| - 1];
    assert forall i :: 0 <= i < |init| ==> init[i] == ps[i];
  }

  /** `dict_from_pairs`: `collect` inserts the pairs front to back, so a
      later pair overwrites an earlier one with the same key. */
  function FromPairs<K(==), V>(ps: seq<(K, V)>): (d: map<K, V>)
    ensures d.Keys == KeysOf(ps)
  {
    if ps == [] then map[]
    else
      KeysOfSnoc(ps);
      var last := ps[|ps| - 1];
      FromPairs(ps[..|ps| - 1])[last.0 := last.1]
  }

  /** The last pair with a key decides its value. */
  lemma {:induction false} LastPairWins<K, V>(ps: seq<(K, V)>, i: int)
    requires LastWith(ps, i)
    ensures ps[i].0 in FromPairs(ps) && FromPairs(ps)[ps[i].0] == ps[i].1
    decreases |ps|
  {
    if i < |ps| - 1 {
      var init := ps[..|ps| - 1];
      assert init[i] == ps[i];
      assert LastWith(init, i);
      LastPairWins(init, i);
    }
  }

  /** Every entry of the map is the last pair in the list with its key. */
  lemma {:induction false} FromPairsEntries<K, V>(ps: seq<(K, V)>, k: K)
    requires k in FromPairs(ps)
    ensures exists i :: LastWith(ps, i) && ps[i] == (k, FromPairs(ps)[k])
    decreases |ps|
  {
    var last := ps[|ps| - 1];
    if last.0 == k {
      assert LastWith(ps, |ps| - 1);
    } else {
      var init := ps[..|ps| - 1];
      assert FromPairs(ps) == FromPairs(init)[last.0 := last.1];
      FromPairsEntries(init, k);
      var i :| LastWith(init, i) && init[i] == (k, FromPairs(init)[k]);
      LastWithExtends(ps, i);
      assert ps[i] == (k, FromPairs(ps)[k]);
    }
  }

  /** A last pair of the prefix stays last when the appended pair has
      another key. */
  lemma LastWithExtends<K, V>(ps: seq<(K, V)>, i: int)
    requires ps != [] && LastWith(ps[..|ps| - 1], i) && ps[|ps| - 1].0 != ps[i].0
    ensures LastWith(ps, i) && ps[i] == ps[..|ps| - 1][i]
  {
    var init := ps[..|ps| - 1];
    forall j | i < j < |ps|
      ensures ps[j].0 != ps[i].0
    {
      if j < |ps| - 1 {
        assert ps[j] == init[j];
      }
    }
  }

  /** An empty list makes an empty map. */
  lemma FromPairsEmpty<K, V>()
    ensures FromPairs<K, V>([]) == map[]
  {
  }

  /** No two positions of `ks` hold the same key. */
  predicate Distinct<K(==)>(ks: seq<K>)
  {
    forall i, j :: 0 <= i < j < |ks| ==> ks[i] != ks[j]
  }

  /** With distinct keys every pair makes its own entry. */
  lemma {:induction false} FromPairsSize<K, V>(ps: seq<(K, V)>)
    requires forall i, j :: 0 <= i < j < |ps| ==> ps[i].0 != ps[j].0
    ensures |FromPairs(ps)| == |ps|
  {
    if ps != [] {
      var init := ps[..|ps| - 1];
      var last := ps[|ps| - 1];
      FromPairsSize(init);
      assert forall i :: 0 <= i < |init| ==> init[i] == ps[i];
      assert last.0 !in FromPairs(init);
      assert FromPairs(ps) == FromPairs(init)[last.0 := last.1];
    }
  }

  /** `dict_zip`: the pairs of `zip`, which stops at the shorter list. */
  function DictZip<K(==), V>(ks: seq<K>, vs: seq<V>): (d: map<K, V>)
    ensures d == FromPairs(Zip(ks, vs))
    ensures d.Keys == set i | 0 <= i < |ks| && i < |vs| :: ks[i]
  {
    var ps := Zip(ks, vs);
    assert KeysOf(ps) == set i | 0 <= i < |ks| && i < |vs| :: ks[i] by {
      forall k | k in KeysOf(ps)
        ensures k in set i | 0 <= i < |ks| && i < |vs| :: ks[i]
      {
        var i :| 0 <= i < |ps| && ps[i].0 == k;
        assert ks[i] == k;
      }
    }
    FromPairs(ps)
  }

  /** Excess values or keys are dropped: zipping against a longer list is
      zipping against its prefix. */
  lemma ZipIgnoresExcess<K, V>(ks: seq<K>, vs: seq<V>)
    requires |ks| <= |vs|
    ensures DictZip(ks, vs) == DictZip(ks, vs[..|ks|])
  {
    assert Zip(ks, vs) == Zip(ks, vs[..|ks|]);
  }

  /** Distinct keys give exactly one entry per zipped pair. */
  lemma DictZipSize<K, V>(ks: seq<K>, vs: seq<V>)
    requires Distinct(ks)
    ensures |DictZip(ks, vs)| == if |ks| <= |vs| then |ks| else |vs|
  {
    FromPairsSize(Zip(ks, vs));
  }

  /** With distinct keys, key `ks[i]` maps to `vs[i]`. */
  lemma DictZipLookup<K, V>(ks: seq<K>, vs: seq<V>, i: int)
    requires Distinct(ks) && 0 <= i < |ks| && i < |vs|
    ensures ks[i] in DictZip(ks, vs) && DictZip(ks, vs)[ks[i]] == vs[i]
  {
    var ps := Zip(ks, vs);
    assert LastWith(ps, i);
    LastPairWins(ps, i);
  }

  /** `dict_clone` takes its argument by value and hands it back. */
  function DictClone<K(==), V>(d: map<K, V>): (r: map<K, V>)
    ensures r.Keys == d.Keys && forall k :: k in d ==> r[k] == d[k]
  {
    d
  }

  /** A repeated key keeps its last value. */
  lemma DuplicateKeyExample()
    ensures FromPairs([("x", 10), ("x", 20)]) == map["x" := 20]
  {
    var ps := [("x", 10), ("x", 20)];
    assert FromPairs(ps[..1]) == map["x" := 10];
  }
}
