# bimap-go in Dafny

A model of `BiMap[K, V]`, the generic bidirectional map of `bimap.go`. A BiMap
holds two Go maps: `forward` (K to V) and `inverse` (V to K). Every Go copy of a
BiMap shares these two maps, and the value-receiver mutators write into them. So
the model is a class `BiMaps.BiMap<K, V>` whose two fields are the maps. Go's zero
values, which are returned for absent keys and used by `Delete`, are the
constants `zeroK` and `zeroV` that every constructor takes.

The project has three modules:

- `BiMapState` (`state.dfy`) holds the two maps as one value, `State(forward, inverse)`.
  It defines one function for each of five mutators: `Put` (Set), `Remove` (Delete),
  `RemoveInverse` (DeleteInverse), `RemoveWhere` (DeleteFunc) and `PutAll` (Insert).
  It also defines `Reversed`, the state that `Reverse` builds into a new BiMap.
  `At` is Go's `m[x]` with the zero value.
  `Consistent` is the bijection invariant: the two maps are exact transposes.
  The lemmas say when each operation keeps that invariant and when it breaks it.
- `BiMaps` (`bimap.dfy`) holds the class. The postconditions of `Set`, `Delete`,
  `DeleteInverse`, `DeleteFunc` and `Insert` equate `Model()` with the matching
  `BiMapState` function of `old(Model())`. `Clear` ends with `Model() == Empty()`.
  `Copy` writes into another BiMap, so its postcondition describes `dst.forward` and
  `dst.inverse` entry by entry. The mutators also state what the lemmas give them:
  the invariant kept, the size change, and the lookups that now fail. The loops over
  a Go map (`From`, `DeleteFunc`, `Copy`) pick an arbitrary remaining key with `:|`.
  Only order-independent facts are proved about them.
- `BiMapScenarios` (`scenarios.dfy`) holds concrete call sequences on
  `BiMap[string, int]`, with `""` and `0` as the zero values.

The code keeps the overwrite semantics as written. `Set` cleans up neither the
old value's inverse entry nor the old key's forward entry. `Delete` of an
absent key removes the zero value's inverse entry. The model reproduces both,
and lemmas show the states in which they break the invariant. `Collect([("x",1), ("y",2), ("x",3)])`
keeps the stale entry `1 -> "x"`, so `HasInverse(1)` is true
(`BiMapScenarios.CollectRebind`).

## Model

| member | source | states |
|---|---|---|
| BiMaps.BiMap.New | bimap.go:19-24 | a new BiMap is empty, satisfies the invariant, and keeps the given zero values |
| BiMaps.BiMap.Literal | bimap.go:105-108 | the struct literal holds exactly the two given maps |
| BiMaps.BiMap.From | bimap.go:26-32 | whatever the visit order: forward equals items; inverse's keys are exactly the values of items; each inverse entry v -> k has items[k] == v; the invariant holds iff items is injective |
| BiMaps.BiMap.Collect | bimap.go:34-38 | the maps are Insert's fold over an empty BiMap; with fresh distinct pairs the invariant holds and Size is the number of pairs |
| BiMaps.BiMap.Get | bimap.go:40-42 | the stored value for a present key, the zero value for an absent one |
| BiMaps.BiMap.Lookup | bimap.go:44-47 | the result is (Get(key), Has(key)); when not found the value is the zero value |
| BiMaps.BiMap.Has | bimap.go:49-52 | true exactly when the key is in forward |
| BiMaps.BiMap.GetInverse | bimap.go:54-56 | the stored key for a present value, the zero key for an absent one |
| BiMaps.BiMap.LookupInverse | bimap.go:58-61 | the result is (GetInverse(val), HasInverse(val)); when not found the key is the zero key |
| BiMaps.BiMap.HasInverse | bimap.go:63-66 | true exactly when the value is in inverse |
| BiMaps.LookupBothWays | bimap.go:44-61 | under the invariant, Lookup(k) finds v exactly when LookupInverse(v) finds k |
| BiMaps.BiMap.Set | bimap.go:68-71 | the new maps are Put of the old ones; from a consistent state the invariant survives iff neither the key nor the value is rebound; a key not yet stored grows Size by one, in any state |
| BiMaps.BiMap.Delete | bimap.go:73-76 | the new maps are Remove of the old ones; deleting a present key of a consistent BiMap keeps the invariant, shrinks Size by one, and leaves both Has(key) and HasInverse(old value) false |
| BiMaps.BiMap.DeleteInverse | bimap.go:78-81 | the mirror of Delete: the maps are RemoveInverse of the old ones; deleting a present value keeps the invariant and shrinks Size by one |
| BiMaps.BiMap.DeleteFunc | bimap.go:83-89 | whatever the visit order, the maps are RemoveWhere of the old ones (each pair visited once with its original value); the invariant is kept |
| BiMaps.BiMap.Clear | bimap.go:91-94 | both maps are empty, the invariant holds and Size is 0 |
| BiMaps.BiMap.Equal | bimap.go:96-98 | true exactly when every key of either BiMap looks up the same in both; equal BiMaps have equal Size |
| BiMaps.BiMap.EqualFunc | bimap.go:100-102 | true exactly when the key sets agree and eq holds of each key's two values |
| BiMaps.EqualFuncWithEquality | bimap.go:96-102 | EqualFunc with equality as the comparison is Equal |
| BiMaps.EqualSameInverse | bimap.go:96-98 | two Equal BiMaps that satisfy the invariant have equal inverse maps too |
| BiMaps.BiMap.Clone | bimap.go:104-109 | a fresh object with the same two maps and zero values, Equal to the original |
| BiMaps.CloneIsIndependent | bimap.go:104-109 | a Set on a clone changes the clone only; the original's maps are unchanged |
| BiMaps.BiMap.Reverse | bimap.go:111-116 | a fresh object whose forward is the old inverse and whose inverse is the old forward, with the zero values swapped; it satisfies the invariant iff the original does |
| BiMaps.ReverseTwice | bimap.go:111-116 | Reverse().Reverse() is a fresh object with the original's maps and zero values, Equal to it |
| BiMaps.BiMap.Copy | bimap.go:118-122 | whatever the visit order: dst.forward is the old dst.forward overwritten by this forward; dst's inverse gains exactly this BiMap's values, each pointing at a key that holds it; dst's other inverse entries are kept; this BiMap is unchanged unless it is dst |
| BiMaps.CopyStep | bimap.go:119-121 | one more Set into dst keeps the Copy loop's invariant, whichever key comes next |
| BiMaps.CopyDone | bimap.go:118-122 | once every key is visited, the loop invariant gives Copy's postcondition |
| BiMaps.BiMap.Size | bimap.go:124-126 | the number of forward entries |
| BiMaps.SizeCountsInverse | bimap.go:124-126 | under the invariant Size also counts the inverse entries |
| BiMaps.BiMap.All | bimap.go:128-130 | a map with Size entries, each a stored key with its Get value |
| BiMaps.BiMap.Keys | bimap.go:132-134 | Size distinct keys, each one a stored key |
| BiMaps.BiMap.Values | bimap.go:136-138 | Size values in all; each stored value appears once for every key that holds it, and no other value appears; under the invariant no value repeats |
| BiMaps.BiMap.Insert | bimap.go:140-144 | the maps are PutAll (Set folded left to right) of the old ones; fresh distinct pairs keep the invariant and grow Size by their number |
| BiMapState.PutConsistentIff | bimap.go:68-71 | from a consistent state, Set keeps the maps transposed iff it neither rebinds the key to another value nor the value to another key |
| BiMapState.PutFresh | bimap.go:68-71 | a fresh key and value keep the invariant and grow both maps by one |
| BiMapState.PutRebindKeyOrphans | bimap.go:68-71 | rebinding a key leaves inverse[old value] == key while forward[key] is the new value, which breaks the invariant |
| BiMapState.PutRebindValueOrphans | bimap.go:68-71 | rebinding a value leaves forward[old key] == value while inverse[value] is the new key, which breaks the invariant |
| BiMapState.PutStoredPair | bimap.go:68-71 | setting a pair already stored changes nothing |
| BiMapState.RemovePresent | bimap.go:73-76 | deleting a present key of a consistent state removes exactly that pair from both maps, keeps the invariant, and shrinks both by one |
| BiMapState.RemoveAbsent | bimap.go:73-76 | deleting an absent key leaves forward alone and removes the zero value from inverse; when that entry was live the invariant breaks |
| BiMapState.RemoveInverseMirrors | bimap.go:73-81 | DeleteInverse is Delete applied to the reversed maps |
| BiMapState.RemoveInversePresent | bimap.go:78-81 | deleting a present value of a consistent state removes exactly that pair, keeps the invariant, and shrinks both maps by one |
| BiMapState.RemoveInverseAbsent | bimap.go:78-81 | deleting an absent value leaves inverse alone and removes the zero key from forward; when that entry was live the invariant breaks |
| BiMapState.ReversedConsistent | bimap.go:111-116 | reversing keeps the invariant both ways, and reversing twice gives back the same maps |
| BiMapState.ConsistentSameSize | bimap.go:124-126 | transposed maps have equally many entries |
| BiMapState.ConsistentInjective | bimap.go:14-17 | under the invariant no two keys share a value and no two values share a key |
| BiMapState.RemoveWhereKeeps | bimap.go:83-89 | after DeleteFunc a key remains iff it was present and not selected, with its old value; a consistent state stays consistent |
| BiMapState.PutAllSnoc | bimap.go:140-144 | inserting one more pair is one more Set after the earlier ones |
| BiMapState.PutAllDomains | bimap.go:140-144 | Insert adds exactly the pairs' keys to forward and the pairs' values to inverse, and removes nothing |
| BiMapState.PutAllLastKey | bimap.go:140-144 | the last pair with a given key decides that key's forward entry |
| BiMapState.PutAllLastValue | bimap.go:140-144 | the last pair with a given value decides that value's inverse entry, which keeps stale entries of rebound keys |
| BiMapState.FreshPairsInit | bimap.go:140-144 | when all pairs are fresh, so are all but the last, and the last is fresh after the others |
| BiMapState.PutAllFresh | bimap.go:140-144 | pairs whose keys and values are all fresh keep the invariant and grow forward by their number |
| BiMapState.ValuesOfCount | bimap.go:136-138 | the values sequence has one element per key: each value appears as often as keys hold it, so exactly the map's values appear |
| BiMapState.ValuesOfInjective | bimap.go:136-138 | for an injective map the values sequence repeats no value |
| BiMapState.ConsistentValuesOf | bimap.go:136-138 | under the invariant the values sequence holds each stored value exactly once |
| BiMapScenarios.SetSamePairTwice | bimap.go:68-71 | Set("a",1) twice leaves a -> 1 and 1 -> a only, with Size 1 |
| BiMapScenarios.SetSetDelete | bimap.go:68-76 | Set("a",1); Set("b",2); Delete("a") leaves only b -> 2 and 2 -> b |
| BiMapScenarios.RebindOrphan | bimap.go:68-71 | Set("a",1); Set("a",2) leaves forward {a: 2} and inverse {1: a, 2: a} |
| BiMapScenarios.CollectRebind | bimap.go:34-38 | Collect of (x,1),(y,2),(x,3) gives forward {x: 3, y: 2} and Size 2; inverse keeps 1 -> x, and GetInverse(3) is x |
| BiMapScenarios.DeleteAbsentKeyErasesZero | bimap.go:73-76 | with a -> 0 stored, Delete("b") erases the inverse entry 0 -> a and keeps a -> 0 |

## Left out

- The capacity hint of `New` (`max(0, size)`): it only sizes the allocation, so the constructor takes no size.
- `iter.Seq` and `iter.Seq2` laziness, the yield protocol and early termination in `All`, `Keys`, `Values` and `Insert`. Input sequences are `seq<(K, V)>`. `All`, `Keys` and `Values` are the forward map, its key set and the multiset of its values.
- BiMaps.BiMap.Values: a ghost function, because the multiset is built by choosing keys one at a time.
- Go's randomised map iteration order. `From`, `DeleteFunc` and `Copy` choose the next key nondeterministically.
- BiMaps.BiMap.From: when two keys share a value, only "some key holding v" is stated for inverse[v], because the winner depends on the unspecified visit order.
- BiMaps.BiMap.Copy: the same holds for dst's inverse entry of a value that several source keys share.
- A zero-value `BiMap{}` built without `New`: its maps are nil and `Set` would panic. Only constructed instances are modelled.
- Predicates given to `DeleteFunc` and `EqualFunc` are total pure functions. Side effects or mutation of the BiMap from inside them are not modelled.
- `maps.Equal` uses Go's `==` on values, which is not reflexive for floating-point NaN. Dafny's equality is reflexive. Floating point is not modelled.
- `maps.Clone` and `maps.EqualFunc` internals: modelled by meaning (a fresh copy; equal key sets with `eq` on paired values).
- Concurrency: the code has none and does no locking.
