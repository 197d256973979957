# Consistent-hashing ring

This project models the class `ConsistentHashing` of `ConsistentHashing/index.js` in Dafny and proves what its
operations do to its state.

The ring keeps two pieces of state side by side:

- `ring` maps a 32-bit hash to the node name placed there.
- `sortedHashes` is an ascending array of every placed hash. Duplicates are kept when two virtual nodes collide.

The class has three operations:

- `addNode(node)` places `replicas` virtual nodes. Each is labelled `node-i`. Its hash is set to `node` in the map and
  pushed onto the array, and the array is then sorted numerically.
- `removeNode(node)` recomputes the same hashes. It deletes each one from the map and splices the first occurrence of
  each out of the array.
- `getNode(key)` returns `null` on an empty array. Otherwise it returns the map entry of the first placed hash at or
  after the key's hash, wrapping around to element 0.

## Files

- `hash_space.dfy`, module `HashSpace`. It holds the ring positions (`Hash32`, the integers in [0, 2^32)) and the
  array operations the class uses:
  - the numeric sort (`SortAscending`, an insertion sort);
  - `indexOf` (`IndexOf`, a loop, and `FirstIndexOf`);
  - splicing out a first occurrence (`RemoveFirst`, `RemoveEach`);
  - the clockwise search (`FirstAtLeast`).
- `ring_spec.dfy`, module `RingSpec`. The ring's state as a value, and the specification functions the class is proved
  against:
  - `AddSpec`, `RemoveSpec` and `LookupSpec`;
  - `Run`, which replays a history of `addNode`/`removeNode` calls from the empty ring;
  - the reference definition `Successor` of the clockwise owner.
- `ring_properties.dfy`, module `RingProperties`. What holds of those functions and of every reachable state:
  - the map/array invariant;
  - the lookup rule;
  - removal of an absent node;
  - the churn property under distinct hashes;
  - coverage after additions alone, and `addNode` followed by `removeNode` giving back the array;
  - distinct labels for distinct replica indices;
  - a concrete collision that breaks the churn property and the exact agreement of the array and the map.
- `consistent_hashing.dfy`, module `HashRing`. The class `ConsistentHashing`:
  - its fields `replicas`, `ring` and `sortedHashes`, and the hash function fixed at construction;
  - a ghost history of calls, with `Valid()` stating that the state is `Run` of that history;
  - `AddNode`, `RemoveNode` and `GetNode`, written as the source's loops, each proved equal to its specification
    function.

## Modelling choices

- The hash is a parameter of the constructor of type `string -> Hash32`. A Dafny function is deterministic and its
  range is the 32-bit interval, so both are given. Nothing assumes it is injective. Every lemma that needs distinct
  hashes says so in its `requires`: with `Distinct(...)` over the added hashes, or with a hypothesis on who owns the
  removed hashes.
- The label `${node}-${i}` is modelled concretely, as `node + "-" + Decimal(i)`.
- `replicas` is any integer. For `replicas <= 0` the loops do not run (`ReplicaCount`).
- The JavaScript `null` and `undefined` returned by `getNode` are the constructors `Null` and `Undefined` of
  `NodeLookup`.
- `Array.prototype.sort` with comparator `(a, b) => a - b` is modelled by one particular sort, `SortAscending`.
  `SortedPermutationUnique` shows that any sort producing an ascending permutation gives the same array.

What the code does at its edges, which the model keeps as written:

- `removeNode` deletes key `h` whichever node owns it (index.js:32), and so does `RemoveSpec`.
- Every key of the map is in the array (`RunConsistent`). The converse can fail: when two nodes' virtual hashes
  collide, the second `set` overwrites the shared key (index.js:22), and removing either node deletes that key while
  only one copy leaves the array (index.js:32-35). After colliding nodes are removed, a placed hash can have no map
  entry, and `getNode` then returns `undefined` (`CollisionLeavesUndefined`).
- If all hashes ever added are pairwise distinct, the array and the map's keys agree exactly, each hash once
  (`DistinctHistoryExact`). After additions alone they agree as sets, collisions or not (`AddOnlyPlacedAreKeys`).
- Removing a node that was never added changes nothing when none of its recomputed hashes is placed
  (`RemoveAbsentIsNoop`). When one is, its splice shortens the array (`RemoveFirstCount`), and the delete at
  index.js:32 can remove another node's entry.
- Nothing rejects `replicas <= 0` (index.js:4-5). The loops at index.js:20 and index.js:30 then do not run.
- `getNode` scans the array linearly (index.js:48-52), and so does `GetNode`.

## Model

| member | source | states |
|---|---|---|
| HashRing.ConsistentHashing.constructor | ConsistentHashing/index.js:4-8 | a new ring has the given replica count (default 3), an empty map, an empty array and an empty history, and is `Valid` |
| HashRing.ConsistentHashing.AddNode | ConsistentHashing/index.js:19-26 | the new state is `AddSpec` of the old one and the history grows by this call. The array is ascending, grows by exactly `ReplicaCount(replicas)` and gains exactly the multiset of virtual hashes. Every `hash(node-i)` maps to `node`, and every other key keeps its entry |
| HashRing.ConsistentHashing.RemoveNode | ConsistentHashing/index.js:29-38 | the new state is `RemoveSpec` of the old one (the loop of `delete`, `indexOf` and `splice`) and the history grows by this call |
| HashRing.ConsistentHashing.GetNode | ConsistentHashing/index.js:41-55 | the scan returns `LookupSpec` of the state for the key's hash, and returns `null` exactly when the array is empty |
| HashRing.ConsistentHashing.ValidIsConsistent | ConsistentHashing/index.js:3-38 | every object the constructor and the methods leave behind keeps the ring's invariant: the array is ascending, every key is in the array, and every key is a virtual hash of its owner |
| HashSpace.IndexOf | ConsistentHashing/index.js:33 | `indexOf` returns -1 exactly when `x` is absent; otherwise it returns the first index holding `x` |
| HashSpace.FirstIndexOf | ConsistentHashing/index.js:33 | the index is the first occurrence of `x`, or the length when `x` is absent |
| HashSpace.SortAscending | ConsistentHashing/index.js:25 | the numeric sort as a function of the array; `SortAscendingCorrect` proves its result ascending and a permutation, and `SortedPermutationUnique` proves it equal to any other ascending permutation |
| HashSpace.InsertSorted | ConsistentHashing/index.js:25 | inserting into an ascending sequence keeps it ascending and adds exactly one occurrence of the value |
| HashSpace.SortAscendingCorrect | ConsistentHashing/index.js:25 | the numeric sort yields an ascending permutation of its input |
| HashSpace.SortedPermutationUnique | ConsistentHashing/index.js:25 | two ascending permutations of each other are equal, so every correct sort gives `SortAscending`'s result |
| HashSpace.RemoveFirst | ConsistentHashing/index.js:33-35 | `indexOf` and `splice(index, 1)` as a function of the array; `RemoveFirstCount`, `RemoveFirstAt` and `RemoveFirstSorted` state what it does |
| HashSpace.RemoveEach | ConsistentHashing/index.js:30-37 | the array after the whole removal loop; `RemoveEachCount`, `RemoveEachLength`, `RemoveEachSorted` and `RemoveEachAbsent` state what it does |
| HashSpace.RemoveFirstAt | ConsistentHashing/index.js:33-35 | `splice(indexOf(h), 1)` at the first occurrence is `RemoveFirst` |
| HashSpace.RemoveFirstCount | ConsistentHashing/index.js:33-35 | splicing removes one occurrence of `h` when there is one, changes nothing when there is none, and removes nothing else |
| HashSpace.RemoveFirstSorted | ConsistentHashing/index.js:33-35 | splicing keeps the array ascending |
| HashSpace.RemoveEachSnoc | ConsistentHashing/index.js:30-37 | proof helper for `RemoveNode`'s loop: one more loop iteration splices out one more first occurrence |
| HashSpace.RemoveEachCount | ConsistentHashing/index.js:30-37 | the removal loop takes away exactly the multiset of recomputed hashes, so no other value loses an occurrence |
| HashSpace.RemoveEachLength | ConsistentHashing/index.js:30-37 | the removal loop shortens the array by at most the number of recomputed hashes, and by exactly that number when the array holds each recomputed hash at least as often as it is recomputed (`multiset(hs) <= multiset(s)`); with colliding recomputed hashes and a single placed copy it shortens by less |
| HashSpace.RemoveEachSorted | ConsistentHashing/index.js:30-37 | the removal loop keeps the array ascending |
| HashSpace.RemoveEachAbsent | ConsistentHashing/index.js:33-35 | when no recomputed hash is in the array, the array is unchanged |
| HashSpace.FirstAtLeast | ConsistentHashing/index.js:48-52 | the scan stops at the first element not smaller than the key's hash, and every element before it is smaller |
| RingSpec.Label | ConsistentHashing/index.js:21 | the label `${node}-${i}` of a virtual node, written out with the decimal digits of `i`; `LabelInjective` proves that distinct indices give distinct labels |
| RingProperties.LabelInjective | ConsistentHashing/index.js:21 | two labels of the same node are equal only for the same replica index, so a node's virtual nodes collide only through the hash |
| RingProperties.DecimalInjective | ConsistentHashing/index.js:21 | different indices print as different decimal strings in the template literal |
| RingSpec.ReplicaCount | ConsistentHashing/index.js:20 | how many times the loops `for (let i = 0; i < this.replicas; i++)` run: `replicas` when positive, otherwise 0; `AddNode`'s ensures grow the array by exactly this count |
| RingSpec.VirtualHashes | ConsistentHashing/index.js:20-21 | the hashes of the labels `${node}-0` .. `${node}-(n-1)` in replica order, which `addNode` writes and `removeNode` recomputes (index.js:30-31); distinct indices give distinct labels (`LabelInjective`) but not necessarily distinct hashes |
| RingSpec.SetAll | ConsistentHashing/index.js:20-22 | the map after the `set` loop; `SetAllEntries` states what it holds |
| RingSpec.DeleteAll | ConsistentHashing/index.js:30-32 | the map after the `delete` loop; `DeleteAllEntries` states what it holds |
| RingSpec.AddSpec | ConsistentHashing/index.js:19-26 | the state after `addNode`; `AddSpecProperties` states its array and map |
| RingSpec.RemoveSpec | ConsistentHashing/index.js:29-38 | the state after `removeNode`; `RemoveSpecProperties` states its array and map |
| RingSpec.MapGet | ConsistentHashing/index.js:50-54 | `ring.get(h)`: the node mapped at `h`, or `undefined` when `h` is not a key; `LookupBySuccessor` and `CollisionLeavesUndefined` use both outcomes |
| RingSpec.ClockwisePoint | ConsistentHashing/index.js:47-54 | the hash the scan settles on; `ClockwiseIsSuccessor` proves it equal to the reference owner `Successor` |
| RingSpec.LookupSpec | ConsistentHashing/index.js:41-55 | `getNode` for a key's hash; `LookupBySuccessor` ties it to the reference owner, and `GetNode` is proved equal to it |
| RingSpec.Run | ConsistentHashing/index.js:3-38 | the state reached from the constructor by a history of calls; `RunConsistent` proves the invariant of every such state |
| RingProperties.SetAllEntries | ConsistentHashing/index.js:20-22 | after the `set` loop every virtual hash maps to the node, overwriting any earlier owner (last write wins), and every other key keeps its entry |
| RingProperties.DeleteAllEntries | ConsistentHashing/index.js:30-32 | after the `delete` loop no recomputed hash is a key, whoever owned it, and every other key keeps its entry |
| RingProperties.AddSpecProperties | ConsistentHashing/index.js:19-26 | `addNode` leaves the array ascending, grown by exactly the virtual hashes as a multiset and in length; they map to the node and other keys are untouched |
| RingProperties.RemoveSpecProperties | ConsistentHashing/index.js:29-38 | `removeNode` keeps an ascending array ascending. The array loses exactly the recomputed hashes as a multiset, and at most their number in length. No other value loses an occurrence. The map loses exactly those keys, and the other entries keep their values |
| RingProperties.AddPreservesConsistent | ConsistentHashing/index.js:19-26 | `addNode` preserves the invariant: the array is ascending, every key is in the array, and every key is a virtual hash of its owner |
| RingProperties.RemovePreservesConsistent | ConsistentHashing/index.js:29-38 | `removeNode` preserves the same invariant |
| RingProperties.RunAppend | ConsistentHashing/index.js:19-38 | proof helper: replaying one more call applies that call's specification to the state reached so far |
| RingProperties.RunConsistent | ConsistentHashing/index.js:3-38 | the invariant holds in every state reachable from the constructor |
| RingProperties.RemoveAbsentIsNoop | ConsistentHashing/index.js:32-35 | removing a node none of whose hashes is placed leaves the map and the array unchanged |
| RingProperties.ClockwiseIsSuccessor | ConsistentHashing/index.js:47-54 | on an ascending array the scan's choice is exactly the reference owner: the smallest placed hash at or after the key's hash, else the smallest placed hash |
| RingProperties.LookupBySuccessor | ConsistentHashing/index.js:41-55 | `getNode` returns the map entry of the reference owner and is never `null` when an owner exists |
| RingProperties.RemovedNodeUnreachable | ConsistentHashing/index.js:29-55 | after `removeNode(x)` on a state whose keys sit at their owners' virtual hashes, no key looks up `x` |
| RingProperties.RemovedNodeUnreachableAfterRun | ConsistentHashing/index.js:29-55 | after `removeNode(x)` in any reachable state, no key looks up `x`, collisions or not |
| RingProperties.RemoveKeepsOtherOwners | ConsistentHashing/index.js:29-55 | removing hashes held only by `x` leaves every key owned by another node `y` with `y` |
| RingProperties.RunWithinAdded | ConsistentHashing/index.js:19-38 | the array holds only hashes placed by some `addNode`, with multiplicity |
| RingProperties.AddedHashesCover | ConsistentHashing/index.js:19-26 | every virtual hash of an added node is among the hashes ever placed |
| RingProperties.AddKeepsExact | ConsistentHashing/index.js:19-26 | adding fresh, pairwise distinct hashes keeps the array duplicate-free and equal, as a set, to the map's keys |
| RingProperties.RemoveKeepsExact | ConsistentHashing/index.js:29-38 | removal keeps the array duplicate-free and equal, as a set, to the map's keys |
| RingProperties.DistinctHistoryExact | ConsistentHashing/index.js:19-38 | when all hashes ever added are pairwise distinct, the array equals the map's keys as a set, each hash once |
| RingProperties.DistinctHistoryOwner | ConsistentHashing/index.js:19-38 | under distinct hashes, a virtual hash of an added node that is still a key maps to that node |
| RingProperties.ChurnAfterRemove | ConsistentHashing/index.js:29-55 | under distinct hashes, after `removeNode(x)` for an added `x`, every key owned by another node keeps that owner |
| RingProperties.OwnersWereAdded | ConsistentHashing/index.js:19-38 | every node in the map was added by some earlier `addNode` |
| RingProperties.DistinctHistoryCoverage | ConsistentHashing/index.js:41-55 | under distinct hashes, a lookup on a non-empty array returns a node that was added, never `null` or `undefined` |
| RingProperties.AddOnlyPlacedAreKeys | ConsistentHashing/index.js:19-26 | after additions alone, collisions or not, a hash is in the array exactly when it is a key of the map |
| RingProperties.AddOnlyCoverage | ConsistentHashing/index.js:19-55 | after additions alone, collisions or not, a lookup on a non-empty array returns a node that was added, never `null` or `undefined` |
| RingProperties.AddThenRemoveArray | ConsistentHashing/index.js:19-38 | on an ascending array, removing the hashes just added gives back the same array |
| RingProperties.AddThenRemoveRestoresArray | ConsistentHashing/index.js:19-38 | in any reachable state, `addNode(x)` followed by `removeNode(x)` gives back the array as it was, collisions or not |
| RingProperties.CollidingAdds | ConsistentHashing/index.js:20-25 | with one replica and all labels hashing to 7, adding `a` then `b` leaves `[7, 7]` with 7 mapped to `b` |
| RingProperties.CollidingRemove | ConsistentHashing/index.js:30-36 | removing `a` then deletes the entry 7 that `b` owned, and one of the two copies |
| RingProperties.CollisionLeavesUndefined | ConsistentHashing/index.js:29-55 | that history makes every lookup `undefined` after `removeNode(a)` although `b` owned every key before, so the distinct-hashes hypothesis cannot be dropped |

## Left out

- The SHA-256 digest from Node's `crypto` module, the hex slicing and `parseInt` (index.js:1, 11-16) are foreign
  code. They are replaced by the abstract `hash` parameter with range [0, 2^32).
- The example usage and `console.log` output (index.js:58-71) are demo code with I/O.
- JavaScript `Map` iteration order is not observed by the class and is not modelled.
- `Array.prototype.sort` is modelled by its result, not by its algorithm.
- The JavaScript semantics of a non-integer or non-numeric `replicas` are not modelled: `replicas` is an integer.
- HashRing.ConsistentHashing.RemoveNode: its postcondition states the new state as `RemoveSpec` of the old one.
  The facts about the array and the map are proved about `RemoveSpec` in `RingProperties.RemoveSpecProperties`.
  They are not repeated in the method's own contract, which keeps the method's proof small.
