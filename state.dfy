/**
 The two Go maps a BiMap holds, as one value, and the effect of each mutating
 operation on them. The class in module BiMaps is specified by these functions;
 the lemmas here say when the forward and inverse maps stay exact transposes of
 each other and when the operations' overwrite semantics break that.
 */
module BiMapState {

  /** forward maps keys to values, inverse maps values back to keys. */
  datatype State<K, V> = State(forward: map<K, V>, inverse: map<V, K>)

  function Empty<K, V>(): State<K, V>
  {
    State(map[], map[])
  }

  /** Go's index expression `m[x]`: the stored value, or the zero value when x is absent. */
  function At<X, Y>(m: map<X, Y>, x: X, zero: Y): Y
  {
    if x in m then m[x] else zero
  }

  /** The bijection invariant: forward[k] == v exactly when inverse[v] == k. */
  ghost predicate Consistent<K, V>(s: State<K, V>)
  {
    && (forall k :: k in s.forward ==> s.forward[k] in s.inverse && s.inverse[s.forward[k]] == k)
    && (forall v :: v in s.inverse ==> s.inverse[v] in s.forward && s.forward[s.inverse[v]] == v)
  }

  /** No two keys of m share a value. */
  ghost predicate Injective<K, V>(m: map<K, V>)
  {
    forall k, k' :: k in m && k' in m && m[k] == m[k'] ==> k == k'
  }

  /** Set(key, val): writes forward[key] and inverse[val] and removes nothing. */
  function Put<K, V>(s: State<K, V>, k: K, v: V): State<K, V>
  {
    State(s.forward[k := v], s.inverse[v := k])
  }

  /** Delete(key): removes key from forward and forward[key] (zeroV when absent) from inverse. */
  function Remove<K, V>(s: State<K, V>, k: K, zeroV: V): State<K, V>
  {
    State(s.forward - {k}, s.inverse - {At(s.forward, k, zeroV)})
  }

  /** DeleteInverse(val): removes inverse[val] (zeroK when absent) from forward and val from inverse. */
  function RemoveInverse<K, V>(s: State<K, V>, v: V, zeroK: K): State<K, V>
  {
    State(s.forward - {At(s.inverse, v, zeroK)}, s.inverse - {v})
  }

  /** The pairs of forward that the predicate selects for deletion. */
  ghost function Doomed<K, V>(m: map<K, V>, del: (K, V) -> bool): set<K>
  {
    set k | k in m && del(k, m[k])
  }

  /** The values of m at the keys ks (the keys of ks that m lacks add nothing). */
  ghost function ValuesAt<K, V>(m: map<K, V>, ks: set<K>): set<V>
  {
    set k | k in ks && k in m :: m[k]
  }

  /** DeleteFunc(del): every selected key leaves forward, and its value leaves inverse. */
  ghost function RemoveWhere<K, V>(s: State<K, V>, del: (K, V) -> bool): State<K, V>
  {
    State(s.forward - Doomed(s.forward, del),
          s.inverse - ValuesAt(s.forward, Doomed(s.forward, del)))
  }

  /** Insert(seq): Set applied to each pair, from the first to the last. */
  function PutAll<K, V>(s: State<K, V>, items: seq<(K, V)>): State<K, V>
    decreases |items|
  {
    if items == [] then s
    else
      var last := items[|items| - 1];
      Put(PutAll(s, items[..|items| - 1]), last.0, last.1)
  }

  /** Reverse(): the inverse becomes the forward map and the forward map the inverse. */
  function Reversed<K, V>(s: State<K, V>): State<V, K>
  {
    State(s.inverse, s.forward)
  }

  /** Some key of a non-empty map, fixed once and for all. */
  ghost function Pick<K, V>(m: map<K, V>): K
    requires |m| > 0
  {
    assert m.Keys != {} by { assert |m.Keys| == |m|; }
    var k :| k in m; k
  }

  /** What Values() produces: every value of m, once per key that holds it. */
  ghost function ValuesOf<K, V>(m: map<K, V>): multiset<V>
    decreases |m|
  {
    if |m| == 0 then multiset{}
    else
      var k := Pick(m);
      multiset{m[k]} + ValuesOf(m - {k})
  }

  /** The keys of m that hold the value v. */
  ghost function KeysHolding<K, V>(m: map<K, V>, v: V): set<K>
  {
    set k | k in m && m[k] == v
  }

  // ---------------------------------------------------------------------------
  // Set

  /** From a consistent state, Set keeps the maps transposed exactly when it
      neither rebinds the key to another value nor the value to another key. */
  lemma PutConsistentIff<K, V>(s: State<K, V>, k: K, v: V)
    requires Consistent(s)
    ensures Consistent(Put(s, k, v)) <==>
              (k in s.forward ==> s.forward[k] == v) && (v in s.inverse ==> s.inverse[v] == k)
  {
    var t := Put(s, k, v);
    if k in s.forward && s.forward[k] != v {
      var old_v := s.forward[k];
      assert t.inverse[old_v] == k && t.forward[k] == v;
    } else if v in s.inverse && s.inverse[v] != k {
      var old_k := s.inverse[v];
      assert t.forward[old_k] == v && t.inverse[v] == k;
    }
  }

  /** A fresh pair keeps the maps transposed and grows both by one entry. */
  lemma PutFresh<K, V>(s: State<K, V>, k: K, v: V)
    requires Consistent(s) && k !in s.forward && v !in s.inverse
    ensures Consistent(Put(s, k, v))
    ensures |Put(s, k, v).forward| == |s.forward| + 1
    ensures |Put(s, k, v).inverse| == |s.inverse| + 1
  {
    PutConsistentIff(s, k, v);
  }

  /** Rebinding a key leaves its old value's inverse entry pointing at it. */
  lemma PutRebindKeyOrphans<K, V>(s: State<K, V>, k: K, v: V)
    requires Consistent(s) && k in s.forward && s.forward[k] != v
    ensures var t := Put(s, k, v);
            && t.forward[k] == v
            && s.forward[k] in t.inverse && t.inverse[s.forward[k]] == k
            && !Consistent(t)
  {
    PutConsistentIff(s, k, v);
  }

  /** Rebinding a value leaves its old key's forward entry pointing at it. */
  lemma PutRebindValueOrphans<K, V>(s: State<K, V>, k: K, v: V)
    requires Consistent(s) && v in s.inverse && s.inverse[v] != k
    ensures var t := Put(s, k, v);
            && t.inverse[v] == k
            && s.inverse[v] in t.forward && t.forward[s.inverse[v]] == v
            && !Consistent(t)
  {
    PutConsistentIff(s, k, v);
  }

  /** Setting a pair that is already stored changes nothing. */
  lemma PutStoredPair<K, V>(s: State<K, V>, k: K, v: V)
    requires Consistent(s) && k in s.forward && s.forward[k] == v
    ensures Put(s, k, v) == s
  {
    assert s.inverse[v] == k;
    assert s.forward[k := v] == s.forward;
    assert s.inverse[v := k] == s.inverse;
  }

  // ---------------------------------------------------------------------------
  // Delete and DeleteInverse

  /** Deleting a present key removes exactly that pair from both maps. */
  lemma RemovePresent<K, V>(s: State<K, V>, k: K, zeroV: V)
    requires Consistent(s) && k in s.forward
    ensures var t := Remove(s, k, zeroV);
            && Consistent(t)
            && t.forward == s.forward - {k}
            && t.inverse == s.inverse - {s.forward[k]}
            && |t.forward| == |s.forward| - 1
            && |t.inverse| == |s.inverse| - 1
            && k !in t.forward && s.forward[k] !in t.inverse
  {
    var t := Remove(s, k, zeroV);
    var v := s.forward[k];
    assert v in s.inverse;
    forall k' | k' in t.forward
      ensures t.forward[k'] in t.inverse && t.inverse[t.forward[k']] == k'
    {
      assert s.forward[k'] != v;
    }
  }

  /** Deleting an absent key removes the zero value's inverse entry, which can be live. */
  lemma RemoveAbsent<K, V>(s: State<K, V>, k: K, zeroV: V)
    requires k !in s.forward
    ensures Remove(s, k, zeroV).forward == s.forward
    ensures Remove(s, k, zeroV).inverse == s.inverse - {zeroV}
    ensures Consistent(s) && zeroV in s.inverse ==> !Consistent(Remove(s, k, zeroV))
  {
    assert s.forward - {k} == s.forward;
    if Consistent(s) && zeroV in s.inverse {
      var live := s.inverse[zeroV];
      assert live in Remove(s, k, zeroV).forward && s.forward[live] == zeroV;
    }
  }

  /** DeleteInverse is Delete performed on the reversed maps. */
  lemma RemoveInverseMirrors<K, V>(s: State<K, V>, v: V, zeroK: K)
    ensures RemoveInverse(s, v, zeroK) == Reversed(Remove(Reversed(s), v, zeroK))
  {
  }

  /** Reversing keeps the maps transposed, and reversing twice gives the same maps. */
  lemma ReversedConsistent<K, V>(s: State<K, V>)
    ensures Consistent(Reversed(s)) <==> Consistent(s)
    ensures Reversed(Reversed(s)) == s
  {
  }

  /** Deleting a present value removes exactly that pair from both maps. */
  lemma {:induction false} RemoveInversePresent<K, V>(s: State<K, V>, v: V, zeroK: K)
    requires Consistent(s) && v in s.inverse
    ensures var t := RemoveInverse(s, v, zeroK);
            && Consistent(t)
            && t.inverse == s.inverse - {v}
            && t.forward == s.forward - {s.inverse[v]}
            && |t.inverse| == |s.inverse| - 1
            && |t.forward| == |s.forward| - 1
  {
    ReversedConsistent(s);
    RemovePresent(Reversed(s), v, zeroK);
    RemoveInverseMirrors(s, v, zeroK);
    ReversedConsistent(Remove(Reversed(s), v, zeroK));
  }

  /** Deleting an absent value removes the zero key's forward entry, which can be live. */
  lemma {:induction false} RemoveInverseAbsent<K, V>(s: State<K, V>, v: V, zeroK: K)
    requires v !in s.inverse
    ensures RemoveInverse(s, v, zeroK).inverse == s.inverse
    ensures RemoveInverse(s, v, zeroK).forward == s.forward - {zeroK}
    ensures Consistent(s) && zeroK in s.forward ==> !Consistent(RemoveInverse(s, v, zeroK))
  {
    RemoveAbsent(Reversed(s), v, zeroK);
    RemoveInverseMirrors(s, v, zeroK);
    ReversedConsistent(s);
    ReversedConsistent(Remove(Reversed(s), v, zeroK));
  }

  // ---------------------------------------------------------------------------
  // Sizes

  /** Transposed maps have the same number of entries, so Size counts both directions. */
  lemma {:induction false} ConsistentSameSize<K, V>(s: State<K, V>)
    requires Consistent(s)
    ensures |s.inverse| == |s.forward|
    decreases |s.forward|
  {
    if |s.forward| == 0 {
      assert s.inverse.Keys == {} by {
        forall v | v in s.inverse ensures s.inverse[v] in s.forward.Keys { }
      }
    } else {
      var k := Pick(s.forward);
      var zeroV := s.forward[k];
      RemovePresent(s, k, zeroV);
      ConsistentSameSize(Remove(s, k, zeroV));
    }
  }

  /** Under the invariant neither map has two keys sharing a value. */
  lemma ConsistentInjective<K, V>(s: State<K, V>)
    requires Consistent(s)
    ensures Injective(s.forward) && Injective(s.inverse)
  {
    forall k, k' | k in s.forward && k' in s.forward && s.forward[k] == s.forward[k']
      ensures k == k'
    {
      assert s.inverse[s.forward[k]] == k;
    }
  }

  // ---------------------------------------------------------------------------
  // DeleteFunc

  /** DeleteFunc keeps exactly the unselected pairs, and keeps a consistent state consistent. */
  lemma RemoveWhereKeeps<K, V>(s: State<K, V>, del: (K, V) -> bool)
    ensures var t := RemoveWhere(s, del);
            forall k :: k in t.forward <==> k in s.forward && !del(k, s.forward[k])
    ensures var t := RemoveWhere(s, del);
            forall k :: k in t.forward ==> t.forward[k] == s.forward[k]
    ensures Consistent(s) ==> Consistent(RemoveWhere(s, del))
  {
    var t := RemoveWhere(s, del);
    if Consistent(s) {
      forall k | k in t.forward
        ensures t.forward[k] in t.inverse && t.inverse[t.forward[k]] == k
      {
        var v := s.forward[k];
        forall k' | k' in Doomed(s.forward, del) ensures s.forward[k'] != v {
          assert s.inverse[s.forward[k']] == k';
        }
      }
      forall v | v in t.inverse
        ensures t.inverse[v] in t.forward && t.forward[t.inverse[v]] == v
      {
        assert s.forward[s.inverse[v]] == v;
      }
    }
  }

  // ---------------------------------------------------------------------------
  // Insert, Collect and From

  /** The keys Insert(items) writes. */
  ghost function KeysOf<K, V>(items: seq<(K, V)>): set<K>
  {
    set i | 0 <= i < |items| :: items[i].0
  }

  /** The values Insert(items) writes. */
  ghost function ValuesIn<K, V>(items: seq<(K, V)>): set<V>
  {
    set i | 0 <= i < |items| :: items[i].1
  }

  /** Inserting one more pair is one more Set after the earlier ones. */
  lemma PutAllSnoc<K, V>(s: State<K, V>, items: seq<(K, V)>, k: K, v: V)
    ensures PutAll(s, items + [(k, v)]) == Put(PutAll(s, items), k, v)
  {
    assert (items + [(k, v)])[..|items|] == items;
  }

  /** Insert writes the keys and values of the pairs, and never removes anything. */
  lemma {:induction false} PutAllDomains<K, V>(s: State<K, V>, items: seq<(K, V)>)
    ensures PutAll(s, items).forward.Keys == s.forward.Keys + KeysOf(items)
    ensures PutAll(s, items).inverse.Keys == s.inverse.Keys + ValuesIn(items)
    decreases |items|
  {
    if items != [] {
      var init := items[..|items| - 1];
      PutAllDomains(s, init);
      assert KeysOf(items) == KeysOf(init) + {items[|items| - 1].0} by {
        forall x | x in KeysOf(items) ensures x in KeysOf(init) + {items[|items| - 1].0} {
          var i :| 0 <= i < |items| && items[i].0 == x;
          if i < |items| - 1 { assert init[i] == items[i]; }
        }
        forall x | x in KeysOf(init) ensures x in KeysOf(items) {
          var i :| 0 <= i < |init| && init[i].0 == x;
          assert items[i] == init[i];
        }
      }
      assert ValuesIn(items) == ValuesIn(init) + {items[|items| - 1].1} by {
        forall x | x in ValuesIn(items) ensures x in ValuesIn(init) + {items[|items| - 1].1} {
          var i :| 0 <= i < |items| && items[i].1 == x;
          if i < |items| - 1 { assert init[i] == items[i]; }
        }
        forall x | x in ValuesIn(init) ensures x in ValuesIn(items) {
          var i :| 0 <= i < |init| && init[i].1 == x;
          assert items[i] == init[i];
        }
      }
    }
  }

  /** Last write wins: the last pair with a given key decides that key's forward entry. */
  lemma {:induction false} PutAllLastKey<K, V>(s: State<K, V>, items: seq<(K, V)>, i: nat)
    requires i < |items|
    requires forall j :: i < j < |items| ==> items[j].0 != items[i].0
    ensures items[i].0 in PutAll(s, items).forward
    ensures PutAll(s, items).forward[items[i].0] == items[i].1
    decreases |items|
  {
    if i < |items| - 1 {
      var init := items[..|items| - 1];
      assert init[i] == items[i];
      forall j | i < j < |init| ensures init[j].0 != init[i].0 {
        assert init[j] == items[j];
      }
      PutAllLastKey(s, init, i);
    }
  }

  /** Last write wins: the last pair with a given value decides that value's inverse entry. */
  lemma {:induction false} PutAllLastValue<K, V>(s: State<K, V>, items: seq<(K, V)>, i: nat)
    requires i < |items|
    requires forall j :: i < j < |items| ==> items[j].1 != items[i].1
    ensures items[i].1 in PutAll(s, items).inverse
    ensures PutAll(s, items).inverse[items[i].1] == items[i].0
    decreases |items|
  {
    if i < |items| - 1 {
      var init := items[..|items| - 1];
      assert init[i] == items[i];
      forall j | i < j < |init| ensures init[j].1 != init[i].1 {
        assert init[j] == items[j];
      }
      PutAllLastValue(s, init, i);
    }
  }

  /** The pairs use distinct keys and distinct values, none of them already stored. */
  ghost predicate FreshPairs<K, V>(s: State<K, V>, items: seq<(K, V)>)
  {
    && (forall i, j :: 0 <= i < j < |items| ==> items[i].0 != items[j].0 && items[i].1 != items[j].1)
    && (forall i :: 0 <= i < |items| ==> items[i].0 !in s.forward && items[i].1 !in s.inverse)
  }

  /** Dropping the last pair keeps the rest fresh, and the last pair is fresh after the rest. */
  lemma FreshPairsInit<K, V>(s: State<K, V>, items: seq<(K, V)>)
    requires FreshPairs(s, items) && items != []
    ensures FreshPairs(s, items[..|items| - 1])
    ensures var last := items[|items| - 1];
            last.0 !in s.forward.Keys + KeysOf(items[..|items| - 1]) &&
            last.1 !in s.inverse.Keys + ValuesIn(items[..|items| - 1])
  {
    var n := |items| - 1;
    var init := items[..n];
    forall i | 0 <= i < |init| ensures init[i].0 != items[n].0 && init[i].1 != items[n].1 {
      assert init[i] == items[i];
    }
  }

  /** Pairs whose keys and values are all fresh keep the maps transposed and add one entry each. */
  lemma {:induction false} PutAllFresh<K, V>(s: State<K, V>, items: seq<(K, V)>)
    requires Consistent(s) && FreshPairs(s, items)
    ensures Consistent(PutAll(s, items))
    ensures |PutAll(s, items).forward| == |s.forward| + |items|
    decreases |items|
  {
    if items != [] {
      var n := |items| - 1;
      var init := items[..n];
      FreshPairsInit(s, items);
      PutAllFresh(s, init);
      PutAllDomains(s, init);
      PutFresh(PutAll(s, init), items[n].0, items[n].1);
    }
  }

  // ---------------------------------------------------------------------------
  // Values

  /** Values() yields one value per forward entry: each value as often as keys hold it,
      so exactly the values the map holds. */
  lemma {:induction false} ValuesOfCount<K, V>(m: map<K, V>)
    ensures |ValuesOf(m)| == |m|
    ensures forall v :: ValuesOf(m)[v] == |KeysHolding(m, v)|
    ensures forall v :: v in ValuesOf(m) ==> v in m.Values
    ensures forall v :: v in m.Values ==> v in ValuesOf(m)
    decreases |m|
  {
    if |m| > 0 {
      var k := Pick(m);
      var rest := m - {k};
      ValuesOfCount(rest);
      forall v ensures ValuesOf(m)[v] == |KeysHolding(m, v)| {
        if m[k] == v {
          assert KeysHolding(m, v) == KeysHolding(rest, v) + {k};
        } else {
          assert KeysHolding(m, v) == KeysHolding(rest, v);
        }
      }
      forall v ensures v in ValuesOf(m) <==> v in m.Values {
        if v in m.Values {
          var k' :| k' in m && m[k'] == v;
          assert k' in KeysHolding(m, v);
        } else {
          assert KeysHolding(m, v) == {};
        }
      }
    }
  }

  /** Under the invariant Values() repeats no value. */
  lemma {:induction false} ValuesOfInjective<K, V>(m: map<K, V>)
    requires Injective(m)
    ensures ValuesOf(m) == multiset(m.Values)
    decreases |m|
  {
    if |m| > 0 {
      var k := Pick(m);
      var rest := m - {k};
      assert Injective(rest);
      ValuesOfInjective(rest);
      assert m.Values == rest.Values + {m[k]} by {
        forall v | v in m.Values ensures v in rest.Values + {m[k]} {
          var k' :| k' in m && m[k'] == v;
          if k' != k { assert k' in rest; }
        }
      }
      assert m[k] !in rest.Values;
    }
  }

  /** Under the invariant Values() yields each value of the map exactly once. */
  lemma ConsistentValuesOf<K, V>(s: State<K, V>)
    ensures Consistent(s) ==> ValuesOf(s.forward) == multiset(s.forward.Values)
  {
    if Consistent(s) {
      ConsistentInjective(s);
      ValuesOfInjective(s.forward);
    }
  }
}
