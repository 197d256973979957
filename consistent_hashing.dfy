/**
 * The consistent-hashing ring as the object the program builds: a replica
 * count and a hash function fixed at construction, and two pieces of state
 * updated in place, `ring` (hash -> node) and `sortedHashes` (the placed
 * hashes in ascending order).
 */
module HashRing {
  import opened HashSpace
  import opened RingSpec
  import opened RingProperties

  class ConsistentHashing {
    /** Virtual nodes per real node. Nothing checks that it is positive. */
    const replicas: int
    /** The first 32 bits of a digest of a string: deterministic, any value in [0, 2^32). */
    const hash: string -> Hash32
    var ring: map<Hash32, string>
    var sortedHashes: seq<Hash32>
    /** The membership changes applied so far, oldest first. */
    ghost var history: seq<Op>

    function State(): RingState
      reads this
    {
      RingState(ring, sortedHashes)
    }

    /** The state is the one the recorded history leads to from an empty ring. */
    ghost predicate Valid()
      reads this
    {
      State() == Run(hash, replicas, history)
    }

    /**
     * Every object the methods below leave behind keeps the ring's invariant:
     * the array ascending, each key of `ring` placed in it, and each entry at
     * a virtual hash of the node it names.
     */
    lemma ValidIsConsistent()
      requires Valid()
      ensures Consistent(hash, replicas, State())
    {
      RunConsistent(hash, replicas, history);
    }

    /** An empty ring; the replica count defaults to 3 and is taken as given. */
    constructor (hash: string -> Hash32, replicas: int := 3)
      ensures this.hash == hash && this.replicas == replicas
      ensures ring == map[] && sortedHashes == [] && history == []
      ensures Valid()
    {
      this.hash := hash;
      this.replicas := replicas;
      ring := map[];
      sortedHashes := [];
      history := [];
    }

    /**
     * Places the virtual nodes `${node}-0` .. `${node}-(replicas-1)`: each hash is
     * set to `node` in `ring` and pushed onto the array, which is then sorted.
     */
    method AddNode(node: string)
      requires Valid()
      modifies this
      ensures Valid() && history == old(history) + [AddOp(node)]
      ensures State() == AddSpec(old(State()), VirtualHashes(hash, replicas, node), node)
      ensures Sorted(sortedHashes)
      ensures |sortedHashes| == |old(sortedHashes)| + ReplicaCount(replicas)
      ensures multiset(sortedHashes) == multiset(old(sortedHashes)) + multiset(VirtualHashes(hash, replicas, node))
      ensures forall i :: 0 <= i < ReplicaCount(replicas) ==> hash(Label(node, i)) in ring && ring[hash(Label(node, i))] == node
      ensures forall h :: h !in VirtualHashes(hash, replicas, node) ==>
                (h in ring <==> h in old(ring)) && (h in old(ring) ==> ring[h] == old(ring)[h])
    {
      ghost var vh := VirtualHashes(hash, replicas, node);
      var i := 0;
      while i < replicas
        invariant 0 <= i <= ReplicaCount(replicas)
        invariant ring == SetAll(old(ring), vh[..i], node)
        invariant sortedHashes == old(sortedHashes) + vh[..i]
        invariant history == old(history)
      {
        var h := hash(Label(node, i));
        assert vh[..i + 1] == vh[..i] + [h];
        ring := ring[h := node];
        sortedHashes := sortedHashes + [h];
        i := i + 1;
      }
      assert vh[..i] == vh;
      sortedHashes := SortAscending(sortedHashes);
      assert State() == AddSpec(old(State()), vh, node);
      history := history + [AddOp(node)];
      RunAppend(hash, replicas, old(history), AddOp(node));
      AddSpecProperties(old(State()), vh, node);
      forall j | 0 <= j < ReplicaCount(replicas)
        ensures hash(Label(node, j)) in vh
      {
        assert vh[j] == hash(Label(node, j));
      }
    }

    /**
     * Recomputes the virtual hashes of `node`; each is deleted from `ring`
     * whichever node it maps to, and its first occurrence, if any, is spliced
     * out of the array. What this does to the array and the map is stated by
     * `RingProperties.RemoveSpecProperties` about `RemoveSpec`.
     */
    method RemoveNode(node: string)
      requires Valid()
      modifies this
      ensures Valid() && history == old(history) + [RemoveOp(node)]
      ensures State() == RemoveSpec(old(State()), VirtualHashes(hash, replicas, node))
    {
      ghost var vh := VirtualHashes(hash, replicas, node);
      var i := 0;
      while i < replicas
        invariant 0 <= i <= ReplicaCount(replicas)
        invariant ring == DeleteAll(old(ring), vh[..i])
        invariant sortedHashes == RemoveEach(old(sortedHashes), vh[..i])
        invariant history == old(history)
      {
        var h := hash(Label(node, i));
        assert vh[..i + 1] == vh[..i] + [h];
        assert DeleteAll(old(ring), vh[..i + 1]) == DeleteAll(old(ring), vh[..i]) - {h};
        RemoveEachSnoc(old(sortedHashes), vh[..i], h);
        ring := ring - {h};
        var index := IndexOf(sortedHashes, h);
        if index != -1 {
          RemoveFirstAt(sortedHashes, h, index);
          sortedHashes := sortedHashes[..index] + sortedHashes[index + 1..];
        }
        i := i + 1;
      }
      assert vh[..i] == vh;
      assert State() == RemoveSpec(old(State()), vh);
      history := history + [RemoveOp(node)];
      RunAppend(hash, replicas, old(history), RemoveOp(node));
    }

    /**
     * The node for `key`: `null` on an empty array; otherwise the entry of the
     * first hash at or after the key's hash, wrapping around to element 0.
     */
    method GetNode(key: string) returns (r: NodeLookup)
      ensures r == LookupSpec(State(), hash(key))
      ensures r == Null <==> sortedHashes == []
    {
      if |sortedHashes| == 0 {
        return Null;
      }
      var h := hash(key);
      var i := 0;
      while i < |sortedHashes|
        invariant 0 <= i <= |sortedHashes|
        invariant forall j :: 0 <= j < i ==> sortedHashes[j] < h
      {
        if h <= sortedHashes[i] {
          return MapGet(ring, sortedHashes[i]);
        }
        i := i + 1;
      }
      return MapGet(ring, sortedHashes[0]);
    }
  }
}
