/**
 The BiMap container of bimap.go. A Go BiMap value holds two map references, so
 every copy of it shares storage and its value-receiver methods mutate that
 storage in place: it is modelled by a class whose two fields are the maps.
 The zero values Go substitutes for absent keys are the constants zeroK and zeroV.
 */
module BiMaps {
  import opened BiMapState

  class BiMap<K(==), V(==)> {
    var forward: map<K, V>
    var inverse: map<V, K>
    const zeroK: K
    const zeroV: V

    /** The two maps as one value. */
    function Model(): State<K, V>
      reads this
    {
      State(forward, inverse)
    }

    /** The bijection invariant: the two maps are exact transposes. */
    ghost predicate Valid()
      reads this
    {
      Consistent(Model())
    }

    // -------------------------------------------------------------------------
    // Construction

    /** New: an empty BiMap. */
    constructor New(zeroK: K, zeroV: V)
      ensures Model() == Empty() && Valid()
      ensures this.zeroK == zeroK && this.zeroV == zeroV
    {
      forward, inverse := map[], map[];
      this.zeroK, this.zeroV := zeroK, zeroV;
    }

    /** The composite literal BiMap{forward: f, inverse: i} that Clone and Reverse build. */
    constructor Literal(f: map<K, V>, i: map<V, K>, zeroK: K, zeroV: V)
      ensures Model() == State(f, i)
      ensures this.zeroK == zeroK && this.zeroV == zeroV
    {
      forward, inverse := f, i;
      this.zeroK, this.zeroV := zeroK, zeroV;
    }

    /** From: Set for every pair of items, visited in an unspecified order. */
    constructor From(items: map<K, V>, zeroK: K, zeroV: V)
      ensures forward == items
      ensures inverse.Keys == items.Values
      ensures forall v :: v in inverse ==> inverse[v] in items && items[inverse[v]] == v
      ensures Valid() <==> Injective(items)
      ensures this.zeroK == zeroK && this.zeroV == zeroV
    {
      forward, inverse := map[], map[];
      this.zeroK, this.zeroV := zeroK, zeroV;
      new;
      var todo := items.Keys;
      while todo != {}
        invariant todo <= items.Keys
        invariant forward.Keys == items.Keys - todo
        invariant forall k :: k in forward ==> forward[k] == items[k]
        invariant inverse.Keys == ValuesAt(items, items.Keys - todo)
        invariant forall v :: v in inverse ==> inverse[v] in forward && items[inverse[v]] == v
        decreases todo
      {
        var k :| k in todo;
        Set(k, items[k]);
        todo := todo - {k};
      }
      assert ValuesAt(items, items.Keys) == items.Values;
      if Valid() {
        ConsistentInjective(Model());
      }
    }

    /** Collect: a new BiMap filled by Insert. */
    constructor Collect(items: seq<(K, V)>, zeroK: K, zeroV: V)
      ensures Model() == PutAll(Empty(), items)
      ensures FreshPairs(Empty(), items) ==> Valid() && Size() == |items|
      ensures this.zeroK == zeroK && this.zeroV == zeroV
    {
      forward, inverse := map[], map[];
      this.zeroK, this.zeroV := zeroK, zeroV;
      new;
      Insert(items);
    }

    // -------------------------------------------------------------------------
    // Lookups

    /** Get: the stored value, or the zero value when the key is absent. */
    function Get(key: K): (v: V)
      reads this
      ensures key in forward ==> v == forward[key]
      ensures key !in forward ==> v == zeroV
    {
      At(forward, key, zeroV)
    }

    /** Has: whether the key is stored. */
    function Has(key: K): (b: bool)
      reads this
      ensures b <==> key in Model().forward
    {
      key in forward
    }

    /** Lookup: the checked form of Get, which tells a stored zero value from an absent key. */
    function Lookup(key: K): (r: (V, bool))
      reads this
      ensures r == (Get(key), Has(key))
      ensures !r.1 ==> r.0 == zeroV
    {
      if key in forward then (forward[key], true) else (zeroV, false)
    }

    /** GetInverse: the key stored for the value, or the zero key when the value is absent. */
    function GetInverse(val: V): (k: K)
      reads this
      ensures val in inverse ==> k == inverse[val]
      ensures val !in inverse ==> k == zeroK
    {
      At(inverse, val, zeroK)
    }

    /** HasInverse: whether the value is stored. */
    function HasInverse(val: V): (b: bool)
      reads this
      ensures b <==> val in Model().inverse
    {
      val in inverse
    }

    /** LookupInverse: the checked form of GetInverse. */
    function LookupInverse(val: V): (r: (K, bool))
      reads this
      ensures r == (GetInverse(val), HasInverse(val))
      ensures !r.1 ==> r.0 == zeroK
    {
      if val in inverse then (inverse[val], true) else (zeroK, false)
    }

    /** Size: the number of forward entries; under the invariant also that of inverse entries. */
    function Size(): (n: nat)
      reads this
      ensures n == |Model().forward|
    {
      |forward|
    }

    // -------------------------------------------------------------------------
    // Mutation

    /** Set: overwrites both directions and cleans up neither old pointer. */
    method Set(key: K, val: V)
      modifies this
      ensures Model() == Put(old(Model()), key, val)
      ensures old(Valid()) ==>
                (Valid() <==> (key in old(forward) ==> old(forward)[key] == val) &&
                              (val in old(inverse) ==> old(inverse)[val] == key))
      ensures key !in old(forward) ==> Size() == old(Size()) + 1
    {
      forward := forward[key := val];
      inverse := inverse[val := key];
      if old(Valid()) {
        PutConsistentIff(old(Model()), key, val);
      }
    }

    /** Delete: removes forward[key] from inverse (the zero value's entry when key is
        absent) and key from forward. */
    method Delete(key: K)
      modifies this
      ensures Model() == Remove(old(Model()), key, zeroV)
      ensures old(Valid()) && key in old(forward) ==>
                Valid() && Size() == old(Size()) - 1 && !Has(key) && !HasInverse(old(forward)[key])
    {
      inverse := inverse - {At(forward, key, zeroV)};
      forward := forward - {key};
      if old(Valid()) && key in old(forward) {
        RemovePresent(old(Model()), key, zeroV);
      }
    }

    /** DeleteInverse: the mirror image of Delete. */
    method DeleteInverse(val: V)
      modifies this
      ensures Model() == RemoveInverse(old(Model()), val, zeroK)
      ensures old(Valid()) && val in old(inverse) ==>
                Valid() && Size() == old(Size()) - 1 && !HasInverse(val) && !Has(old(inverse)[val])
    {
      forward := forward - {At(inverse, val, zeroK)};
      inverse := inverse - {val};
      if old(Valid()) && val in old(inverse) {
        RemoveInversePresent(old(Model()), val, zeroK);
      }
    }

    /** DeleteFunc: Delete for every pair the predicate selects, visited in an
        unspecified order; each pair is seen once, with its original value. */
    method DeleteFunc(del: (K, V) -> bool)
      modifies this
      ensures Model() == RemoveWhere(old(Model()), del)
      ensures old(Valid()) ==> Valid()
    {
      ghost var f0, i0 := forward, inverse;
      var todo := forward.Keys;
      while todo != {}
        invariant todo <= f0.Keys
        invariant forward == f0 - (Doomed(f0, del) - todo)
        invariant inverse == i0 - ValuesAt(f0, Doomed(f0, del) - todo)
        decreases todo
      {
        var k :| k in todo;
        var v := forward[k];
        if del(k, v) {
          Delete(k);
          assert ValuesAt(f0, Doomed(f0, del) - (todo - {k}))
              == ValuesAt(f0, Doomed(f0, del) - todo) + {v};
        } else {
          assert Doomed(f0, del) - (todo - {k}) == Doomed(f0, del) - todo;
        }
        todo := todo - {k};
      }
      RemoveWhereKeeps(old(Model()), del);
    }

    /** Clear: both maps become empty. */
    method Clear()
      modifies this
      ensures Model() == Empty() && Valid() && Size() == 0
    {
      forward, inverse := map[], map[];
    }

    /** Insert: Set for each pair, in sequence order. */
    method Insert(items: seq<(K, V)>)
      modifies this
      ensures Model() == PutAll(old(Model()), items)
      ensures old(Valid()) && FreshPairs(old(Model()), items) ==>
                Valid() && Size() == old(Size()) + |items|
    {
      var i := 0;
      while i < |items|
        invariant 0 <= i <= |items|
        invariant Model() == PutAll(old(Model()), items[..i])
      {
        assert items[..i + 1][..i] == items[..i];
        Set(items[i].0, items[i].1);
        i := i + 1;
      }
      assert items[..i] == items;
      if old(Valid()) && FreshPairs(old(Model()), items) {
        PutAllFresh(old(Model()), items);
      }
    }

    /** Copy: Set into dst for every forward pair of this BiMap, visited in an
        unspecified order; dst is not cleared first. */
    method Copy(dst: BiMap<K, V>)
      modifies dst
      ensures dst.forward == old(dst.forward) + old(forward)
      ensures dst.inverse.Keys == old(dst.inverse).Keys + old(forward).Values
      ensures forall v :: v in old(forward).Values ==>
                dst.inverse[v] in old(forward) && old(forward)[dst.inverse[v]] == v
      ensures forall v :: v in old(dst.inverse) && v !in old(forward).Values ==>
                dst.inverse[v] == old(dst.inverse)[v]
      ensures dst != this ==> Model() == old(Model())
    {
      var src := forward;
      ghost var done: set<K> := {};
      var todo := src.Keys;
      while todo != {}
        invariant todo == src.Keys - done
        invariant CopiedSoFar(src, done, old(dst.forward), old(dst.inverse), dst.forward, dst.inverse)
        invariant dst != this ==> Model() == old(Model())
        decreases todo
      {
        var k :| k in todo;
        CopyStep(src, done, old(dst.forward), old(dst.inverse), dst.forward, dst.inverse, k);
        dst.Set(k, src[k]);
        done, todo := done + {k}, todo - {k};
      }
      CopyDone(src, old(dst.forward), old(dst.inverse), dst.forward, dst.inverse);
    }

    // -------------------------------------------------------------------------
    // Comparison and structural operations

    /** Equal: the forward maps hold the same pairs. */
    function Equal(other: BiMap<K, V>): (r: bool)
      reads this, other
      ensures r ==> Size() == other.Size()
      ensures r <==> forall k :: k in Keys() + other.Keys() ==> Lookup(k) == other.Lookup(k)
    {
      assert (forall k :: k in Keys() + other.Keys() ==> Lookup(k) == other.Lookup(k))
             ==> forward == other.forward by {
        if forall k :: k in Keys() + other.Keys() ==> Lookup(k) == other.Lookup(k) {
          forall k | k in forward ensures k in other.forward && forward[k] == other.forward[k] {
            assert Lookup(k) == other.Lookup(k);
          }
          forall k | k in other.forward ensures k in forward {
            assert Lookup(k) == other.Lookup(k);
          }
        }
      }
      forward == other.forward
    }

    /** EqualFunc: the forward maps have the same keys and eq holds of the paired values. */
    function EqualFunc(other: BiMap<K, V>, eq: (V, V) -> bool): (r: bool)
      reads this, other
      ensures r ==> Size() == other.Size()
      ensures r <==> Keys() == other.Keys() && forall k :: k in Keys() ==> eq(Get(k), other.Get(k))
    {
      && forward.Keys == other.forward.Keys
      && forall k :: k in forward ==> eq(forward[k], other.forward[k])
    }

    /** Clone: a new BiMap with copies of both maps. */
    method Clone() returns (c: BiMap<K, V>)
      ensures fresh(c)
      ensures c.Model() == Model() && c.Equal(this)
      ensures c.zeroK == zeroK && c.zeroV == zeroV
    {
      c := new BiMap.Literal(forward, inverse, zeroK, zeroV);
    }

    /** Reverse: a new BiMap whose forward map is a copy of the inverse and vice versa. */
    method Reverse() returns (r: BiMap<V, K>)
      ensures fresh(r)
      ensures r.Model() == Reversed(Model())
      ensures r.Valid() <==> Valid()
      ensures r.zeroK == zeroV && r.zeroV == zeroK
    {
      r := new BiMap.Literal(inverse, forward, zeroV, zeroK);
      ReversedConsistent(Model());
    }

    // -------------------------------------------------------------------------
    // Iteration, as the collections the sequences range over

    /** All: the pairs of the forward map. */
    function All(): (m: map<K, V>)
      reads this
      ensures |m| == Size()
      ensures forall k :: k in m ==> Has(k) && m[k] == Get(k)
    {
      forward
    }

    /** Keys: the keys of the forward map. */
    function Keys(): (ks: set<K>)
      reads this
      ensures |ks| == Size()
      ensures forall k :: k in ks ==> Has(k)
    {
      forward.Keys
    }

    /** Values: the values of the forward map, one per key. */
    ghost function Values(): (vs: multiset<V>)
      reads this
      ensures |vs| == Size()
      ensures forall v :: v in vs ==> v in forward.Values && vs[v] == |KeysHolding(forward, v)|
      ensures forall v :: v in forward.Values ==> v in vs
      ensures Valid() ==> vs == multiset(forward.Values)
    {
      ValuesOfCount(forward);
      ConsistentValuesOf(Model());
      ValuesOf(forward)
    }
  }

  // ---------------------------------------------------------------------------
  // Copy, one visited key at a time

  /** After Copy has visited the keys in done of src, starting from dst maps f0 and i0:
      the forward map holds every visited pair over f0, and the inverse map points each
      visited value at a visited key that holds it and keeps i0 for the other values. */
  ghost predicate CopiedSoFar<K, V>(src: map<K, V>, done: set<K>, f0: map<K, V>, i0: map<V, K>,
                                    f: map<K, V>, i: map<V, K>)
  {
    && done <= src.Keys
    && f == f0 + (map k | k in done :: src[k])
    && i.Keys == i0.Keys + ValuesAt(src, done)
    && (forall v :: v in ValuesAt(src, done) ==> i[v] in done && src[i[v]] == v)
    && (forall v :: v in i0 && v !in ValuesAt(src, done) ==> i[v] == i0[v])
  }

  /** Setting one more pair of src keeps CopiedSoFar, whichever key comes next. */
  lemma CopyStep<K, V>(src: map<K, V>, done: set<K>, f0: map<K, V>, i0: map<V, K>,
                       f: map<K, V>, i: map<V, K>, k: K)
    requires CopiedSoFar(src, done, f0, i0, f, i) && k in src && k !in done
    ensures CopiedSoFar(src, done + {k}, f0, i0, f[k := src[k]], i[src[k] := k])
  {
    var done' := done + {k};
    assert ValuesAt(src, done') == ValuesAt(src, done) + {src[k]};
    assert f[k := src[k]] == f0 + (map k' | k' in done' :: src[k']);
  }

  /** Once every key of src is visited, CopiedSoFar is what Copy promises. */
  lemma CopyDone<K, V>(src: map<K, V>, f0: map<K, V>, i0: map<V, K>, f: map<K, V>, i: map<V, K>)
    requires CopiedSoFar(src, src.Keys, f0, i0, f, i)
    ensures f == f0 + src
    ensures i.Keys == i0.Keys + src.Values
    ensures forall v :: v in src.Values ==> i[v] in src && src[i[v]] == v
    ensures forall v :: v in i0 && v !in src.Values ==> i[v] == i0[v]
  {
    assert (map k | k in src.Keys :: src[k]) == src;
    assert ValuesAt(src, src.Keys) == src.Values;
  }

  // ---------------------------------------------------------------------------
  // Properties of the lookups and comparisons

  /** Under the invariant the two lookups agree: k finds v exactly when v finds k. */
  lemma LookupBothWays<K, V>(bm: BiMap<K, V>, k: K, v: V)
    requires bm.Valid()
    ensures bm.Lookup(k) == (v, true) <==> bm.LookupInverse(v) == (k, true)
  {
  }

  /** Under the invariant Size also counts the inverse entries. */
  lemma SizeCountsInverse<K, V>(bm: BiMap<K, V>)
    requires bm.Valid()
    ensures |bm.inverse| == bm.Size()
  {
    ConsistentSameSize(bm.Model());
  }

  /** Two BiMaps that satisfy the invariant and are Equal also have equal inverse maps. */
  lemma EqualSameInverse<K, V>(a: BiMap<K, V>, b: BiMap<K, V>)
    requires a.Valid() && b.Valid() && a.Equal(b)
    ensures a.inverse == b.inverse
  {
    forall v | v in a.inverse
      ensures v in b.inverse && b.inverse[v] == a.inverse[v]
    {
      assert b.forward[a.inverse[v]] == v;
    }
    forall v | v in b.inverse
      ensures v in a.inverse
    {
      assert a.forward[b.inverse[v]] == v;
    }
  }

  /** EqualFunc with equality as the comparison is Equal. */
  lemma EqualFuncWithEquality<K, V>(a: BiMap<K, V>, b: BiMap<K, V>)
    ensures a.EqualFunc(b, (x, y) => x == y) == a.Equal(b)
  {
    if a.EqualFunc(b, (x, y) => x == y) {
      assert forall k :: k in a.forward ==> a.forward[k] == b.forward[k];
    }
  }

  // ---------------------------------------------------------------------------
  // Clients

  /** Setting into a clone leaves the original untouched. */
  method CloneIsIndependent<K, V>(bm: BiMap<K, V>, k: K, v: V) returns (c: BiMap<K, V>)
    ensures fresh(c)
    ensures c.Model() == Put(bm.Model(), k, v)
    ensures bm.Model() == old(bm.Model())
  {
    c := bm.Clone();
    c.Set(k, v);
  }

  /** Reversing twice gives a new BiMap equal to the original. */
  method ReverseTwice<K, V>(bm: BiMap<K, V>) returns (r: BiMap<K, V>)
    ensures fresh(r)
    ensures r.Model() == bm.Model() && r.Equal(bm)
    ensures r.zeroK == bm.zeroK && r.zeroV == bm.zeroV
  {
    var rev := bm.Reverse();
    r := rev.Reverse();
  }
}
