/**
 * What holds of the ring's states and lookups: the invariants every reachable
 * state keeps, the clockwise-lookup rule against its reference definition,
 * removal of an absent node, and the churn property of consistent hashing
 * together with the collision case that breaks it.
 */
module RingProperties {
  import opened HashSpace
  import opened RingSpec

  /**
   * The invariant of every reachable state: the array is ascending, every key
   * of `ring` occurs in the array, and every entry `h -> n` sits at one of the
   * virtual hashes of `n`.
   */
  ghost predicate Consistent(hash: string -> Hash32, replicas: int, st: RingState) {
    && Sorted(st.sortedHashes)
    && (forall h :: h in st.ring ==> h in st.sortedHashes)
    && (forall h :: h in st.ring ==> h in VirtualHashes(hash, replicas, st.ring[h]))
  }

  /**
   * After the writes of `addNode` every hash of `vh` maps to `node`, whatever
   * it mapped to before (last write wins), and every other key keeps its entry.
   */
  lemma {:induction false} SetAllEntries(ring: map<Hash32, string>, vh: seq<Hash32>, node: string)
    ensures forall k :: k in SetAll(ring, vh, node) <==> k in ring || k in vh
    ensures forall k :: k in vh ==> SetAll(ring, vh, node)[k] == node
    ensures forall k :: k in ring && k !in vh ==> SetAll(ring, vh, node)[k] == ring[k]
  {
    if vh != [] {
      var init := vh[..|vh| - 1];
      assert vh == init + [vh[|vh| - 1]];
      SetAllEntries(ring, init, node);
    }
  }

  /**
   * After the deletions of `removeNode` no hash of `vh` is a key, whichever
   * node it mapped to, and every other key keeps its entry.
   */
  lemma {:induction false} DeleteAllEntries(ring: map<Hash32, string>, vh: seq<Hash32>)
    ensures forall k :: k in DeleteAll(ring, vh) <==> k in ring && k !in vh
    ensures forall k :: k in DeleteAll(ring, vh) ==> DeleteAll(ring, vh)[k] == ring[k]
  {
    if vh != [] {
      var init := vh[..|vh| - 1];
      assert vh == init + [vh[|vh| - 1]];
      DeleteAllEntries(ring, init);
    }
  }

  /**
   * `addNode`: the array grows by exactly the virtual hashes of `node` and is
   * ascending; each of them maps to `node` (last write wins); every other key
   * keeps its entry.
   */
  lemma AddSpecProperties(st: RingState, vh: seq<Hash32>, node: string)
    ensures Sorted(AddSpec(st, vh, node).sortedHashes)
    ensures multiset(AddSpec(st, vh, node).sortedHashes) == multiset(st.sortedHashes) + multiset(vh)
    ensures |AddSpec(st, vh, node).sortedHashes| == |st.sortedHashes| + |vh|
    ensures forall k :: k in vh ==> k in AddSpec(st, vh, node).ring && AddSpec(st, vh, node).ring[k] == node
    ensures forall k :: k !in vh ==>
              (k in AddSpec(st, vh, node).ring <==> k in st.ring) &&
              (k in st.ring ==> AddSpec(st, vh, node).ring[k] == st.ring[k])
  {
    var all := st.sortedHashes + vh;
    SetAllEntries(st.ring, vh, node);
    SortAscendingCorrect(all);
    assert multiset(all) == multiset(st.sortedHashes) + multiset(vh);
    assert |multiset(SortAscending(all))| == |multiset(all)|;
  }

  /**
   * `removeNode` on an ascending array: the array stays ascending, loses
   * exactly the multiset of recomputed hashes (at most `|vh|` elements, no
   * occurrence of any other value), and `ring` loses exactly those keys,
   * whichever node they map to.
   */
  lemma RemoveSpecProperties(st: RingState, vh: seq<Hash32>)
    requires Sorted(st.sortedHashes)
    ensures Sorted(RemoveSpec(st, vh).sortedHashes)
    ensures multiset(RemoveSpec(st, vh).sortedHashes) == multiset(st.sortedHashes) - multiset(vh)
    ensures |st.sortedHashes| - |vh| <= |RemoveSpec(st, vh).sortedHashes| <= |st.sortedHashes|
    ensures forall k :: k !in vh ==> multiset(RemoveSpec(st, vh).sortedHashes)[k] == multiset(st.sortedHashes)[k]
    ensures forall k :: k in RemoveSpec(st, vh).ring <==> k in st.ring && k !in vh
    ensures forall k :: k in RemoveSpec(st, vh).ring ==> RemoveSpec(st, vh).ring[k] == st.ring[k]
  {
    RemoveEachSorted(st.sortedHashes, vh);
    RemoveEachCount(st.sortedHashes, vh);
    RemoveEachLength(st.sortedHashes, vh);
    DeleteAllEntries(st.ring, vh);
  }

  lemma AddPreservesConsistent(hash: string -> Hash32, replicas: int, st: RingState, node: string)
    requires Consistent(hash, replicas, st)
    ensures Consistent(hash, replicas, AddSpec(st, VirtualHashes(hash, replicas, node), node))
  {
    var vh := VirtualHashes(hash, replicas, node);
    var st' := AddSpec(st, vh, node);
    AddSpecProperties(st, vh, node);
    forall h | h in st'.ring ensures h in st'.sortedHashes {
      assert h in multiset(st.sortedHashes + vh);
    }
  }

  lemma RemovePreservesConsistent(hash: string -> Hash32, replicas: int, st: RingState, node: string)
    requires Consistent(hash, replicas, st)
    ensures Consistent(hash, replicas, RemoveSpec(st, VirtualHashes(hash, replicas, node)))
  {
    var vh := VirtualHashes(hash, replicas, node);
    var st' := RemoveSpec(st, vh);
    RemoveSpecProperties(st, vh);
    forall h | h in st'.ring ensures h in st'.sortedHashes {
      assert h !in vh;
      assert multiset(st'.sortedHashes)[h] == multiset(st.sortedHashes)[h];
    }
  }

  /** Replaying one more change applies it to the state replayed so far. */
  lemma RunAppend(hash: string -> Hash32, replicas: int, ops: seq<Op>, op: Op)
    ensures Run(hash, replicas, ops + [op]) == Step(hash, replicas, Run(hash, replicas, ops), op)
  {
  }

  /** The invariant holds on the empty ring and after any sequence of `addNode` and `removeNode`. */
  lemma {:induction false} RunConsistent(hash: string -> Hash32, replicas: int, ops: seq<Op>)
    ensures Consistent(hash, replicas, Run(hash, replicas, ops))
  {
    if ops != [] {
      var pre := ops[..|ops| - 1];
      RunConsistent(hash, replicas, pre);
      match ops[|ops| - 1]
      case AddOp(node) => AddPreservesConsistent(hash, replicas, Run(hash, replicas, pre), node);
      case RemoveOp(node) => RemovePreservesConsistent(hash, replicas, Run(hash, replicas, pre), node);
    }
  }

  /**
   * Removing a node none of whose virtual hashes is in the array changes
   * neither `ring` nor the array, and needs no error path.
   */
  lemma RemoveAbsentIsNoop(st: RingState, vh: seq<Hash32>)
    requires forall h :: h in st.ring ==> h in st.sortedHashes
    requires forall h :: h in vh ==> h !in st.sortedHashes
    ensures RemoveSpec(st, vh) == st
  {
    RemoveEachAbsent(st.sortedHashes, vh);
    DeleteAllEntries(st.ring, vh);
    assert DeleteAll(st.ring, vh) == st.ring;
  }

  /**
   * On an ascending array the scan of `getNode` stops exactly at the
   * reference position: the smallest placed hash at or after the key's hash,
   * else the smallest placed hash.
   */
  lemma ClockwiseIsSuccessor(s: seq<Hash32>, h: Hash32, p: Hash32)
    requires Sorted(s) && s != []
    ensures Successor(s, h, p) <==> p == ClockwisePoint(s, h)
  {
    var i := FirstAtLeast(s, h);
    var c := ClockwisePoint(s, h);
    if i < |s| {
      assert c in s && h <= c;
      forall q | q in s && h <= q ensures c <= q {
        var j :| 0 <= j < |s| && s[j] == q;
      }
    } else {
      assert forall q :: q in s ==> q < h;
      forall q | q in s ensures c <= q {
        var j :| 0 <= j < |s| && s[j] == q;
      }
    }
    assert Successor(s, h, c);
  }

  /** `getNode` returns `ring.get` of the reference position, and `null` only on an empty array. */
  lemma LookupBySuccessor(st: RingState, h: Hash32, p: Hash32)
    requires Sorted(st.sortedHashes)
    requires Successor(st.sortedHashes, h, p)
    ensures LookupSpec(st, h) == MapGet(st.ring, p)
    ensures LookupSpec(st, h) != Null
  {
    ClockwiseIsSuccessor(st.sortedHashes, h, p);
  }

  /**
   * After `removeNode(x)` no key is sent to `x`: every entry naming `x` sat at
   * one of the recomputed hashes and was deleted.
   */
  lemma RemovedNodeUnreachable(hash: string -> Hash32, replicas: int, st: RingState, x: string, h: Hash32)
    requires forall k :: k in st.ring ==> k in VirtualHashes(hash, replicas, st.ring[k])
    ensures LookupSpec(RemoveSpec(st, VirtualHashes(hash, replicas, x)), h) != Found(x)
  {
    var vh := VirtualHashes(hash, replicas, x);
    var st' := RemoveSpec(st, vh);
    DeleteAllEntries(st.ring, vh);
    if st'.sortedHashes != [] {
      var p := ClockwisePoint(st'.sortedHashes, h);
      if p in st'.ring {
        assert st'.ring[p] == st.ring[p];
      }
    }
  }

  /**
   * Bounded churn for one removal: when no virtual hash of `x` is held by
   * another node, every key owned by some other node `y` before removing
   * `x` is still owned by `y` afterwards.
   */
  lemma RemoveKeepsOtherOwners(st: RingState, vh: seq<Hash32>, x: string, y: string, h: Hash32)
    requires Sorted(st.sortedHashes)
    requires forall k :: k in vh && k in st.ring ==> st.ring[k] == x
    requires LookupSpec(st, h) == Found(y) && y != x
    ensures LookupSpec(RemoveSpec(st, vh), h) == Found(y)
  {
    var s := st.sortedHashes;
    var st' := RemoveSpec(st, vh);
    var s' := st'.sortedHashes;
    var p := ClockwisePoint(s, h);
    RemoveSpecProperties(st, vh);
    ClockwiseIsSuccessor(s, h, p);
    assert p in st.ring && st.ring[p] == y;
    assert p !in vh;
    assert p in s' by {
      assert multiset(s')[p] == multiset(s)[p];
    }
    assert forall q :: q in s' ==> q in s by {
      forall q | q in s' ensures q in s {
        assert multiset(s')[q] <= multiset(s)[q];
      }
    }
    assert Successor(s', h, p) by {
      if exists q :: q in s && h <= q {
        assert h <= p;
      } else {
        assert forall q :: q in s' ==> q < h;
      }
    }
    LookupBySuccessor(st', h, p);
  }

  /** Every hash still on the array was placed by some `addNode` along the history (with multiplicity). */
  lemma {:induction false} RunWithinAdded(hash: string -> Hash32, replicas: int, ops: seq<Op>)
    ensures multiset(Run(hash, replicas, ops).sortedHashes) <= multiset(AddedHashes(hash, replicas, ops))
  {
    if ops != [] {
      var pre := ops[..|ops| - 1];
      var st := Run(hash, replicas, pre);
      RunWithinAdded(hash, replicas, pre);
      match ops[|ops| - 1]
      case AddOp(node) => AddSpecProperties(st, VirtualHashes(hash, replicas, node), node);
      case RemoveOp(node) => RemoveEachCount(st.sortedHashes, VirtualHashes(hash, replicas, node));
    }
  }

  /** Every virtual hash of a node added along the history is among the added hashes. */
  lemma {:induction false} AddedHashesCover(hash: string -> Hash32, replicas: int, ops: seq<Op>, n: string, k: Hash32)
    requires AddOp(n) in ops
    requires k in VirtualHashes(hash, replicas, n)
    ensures k in AddedHashes(hash, replicas, ops)
  {
    var pre := ops[..|ops| - 1];
    if ops[|ops| - 1] != AddOp(n) {
      assert ops == pre + [ops[|ops| - 1]];
      AddedHashesCover(hash, replicas, pre, n, k);
    }
  }

  /**
   * If the hashes of `a` followed by `b` are pairwise distinct, so are those of
   * any `s` drawn from `a` followed by `b`, and `a` and `b` share no hash.
   */
  lemma DistinctWithin(a: seq<Hash32>, s: seq<Hash32>, b: seq<Hash32>)
    requires Distinct(a + b)
    requires multiset(s) <= multiset(a)
    ensures Distinct(a) && Distinct(s + b)
    ensures forall k :: k in a ==> k !in b
  {
    var ma, mb, ms := multiset(a), multiset(b), multiset(s);
    assert multiset(a + b) == ma + mb;
    assert multiset(s + b) == ms + mb;
    forall v ensures ms[v] + mb[v] <= 1 && ma[v] + mb[v] <= 1 {
      assert multiset(a + b)[v] == ma[v] + mb[v];
    }
    forall k | k in a ensures k !in b {
      assert k in ma;
      assert k !in mb;
    }
  }

  /**
   * The map and the array agree exactly: the array holds each hash once, and
   * holds precisely the keys of `ring`.
   */
  ghost predicate Exact(st: RingState) {
    && Distinct(st.sortedHashes)
    && forall h :: h in st.sortedHashes <==> h in st.ring
  }

  /** Adding hashes that are distinct and new keeps map and array in exact agreement. */
  lemma AddKeepsExact(st: RingState, vh: seq<Hash32>, node: string, added: seq<Hash32>)
    requires Exact(st)
    requires multiset(st.sortedHashes) <= multiset(added)
    requires Distinct(added + vh)
    ensures Exact(AddSpec(st, vh, node))
  {
    DistinctWithin(added, st.sortedHashes, vh);
    var st' := AddSpec(st, vh, node);
    SortAscendingCorrect(st.sortedHashes + vh);
    SetAllEntries(st.ring, vh, node);
    forall h ensures h in st'.sortedHashes <==> h in st'.ring {
      assert h in st'.sortedHashes <==> h in multiset(st.sortedHashes + vh);
    }
  }

  /** Removal keeps map and array in exact agreement. */
  lemma RemoveKeepsExact(st: RingState, vh: seq<Hash32>)
    requires Exact(st)
    ensures Exact(RemoveSpec(st, vh))
  {
    var st' := RemoveSpec(st, vh);
    RemoveEachCount(st.sortedHashes, vh);
    DeleteAllEntries(st.ring, vh);
    var ms, mv, ms' := multiset(st.sortedHashes), multiset(vh), multiset(st'.sortedHashes);
    forall h ensures ms'[h] <= 1 && (h in st'.sortedHashes <==> h in st'.ring) {
      assert ms[h] <= 1;
      assert h in st'.sortedHashes <==> h in ms';
      assert h in vh <==> h in mv;
    }
  }

  /**
   * With pairwise distinct virtual hashes over the whole history, the map and
   * the array agree exactly (the reverse inclusion of `Consistent`).
   */
  lemma {:induction false} DistinctHistoryExact(hash: string -> Hash32, replicas: int, ops: seq<Op>)
    requires Distinct(AddedHashes(hash, replicas, ops))
    ensures Exact(Run(hash, replicas, ops))
  {
    if ops != [] {
      var pre := ops[..|ops| - 1];
      var st := Run(hash, replicas, pre);
      var added := AddedHashes(hash, replicas, pre);
      match ops[|ops| - 1]
      case AddOp(node) =>
        var vh := VirtualHashes(hash, replicas, node);
        assert AddedHashes(hash, replicas, ops) == added + vh;
        DistinctWithin(added, [], vh);
        DistinctHistoryExact(hash, replicas, pre);
        RunWithinAdded(hash, replicas, pre);
        AddKeepsExact(st, vh, node, added);
      case RemoveOp(node) =>
        DistinctHistoryExact(hash, replicas, pre);
        RemoveKeepsExact(st, VirtualHashes(hash, replicas, node));
    }
  }

  /**
   * With pairwise distinct virtual hashes over the whole history, a virtual
   * hash of an added node that is still mapped is mapped to that node.
   */
  lemma {:induction false} DistinctHistoryOwner(hash: string -> Hash32, replicas: int, ops: seq<Op>, n: string, k: Hash32)
    requires Distinct(AddedHashes(hash, replicas, ops))
    requires AddOp(n) in ops && k in VirtualHashes(hash, replicas, n)
    requires k in Run(hash, replicas, ops).ring
    ensures Run(hash, replicas, ops).ring[k] == n
  {
    var pre := ops[..|ops| - 1];
    var last := ops[|ops| - 1];
    if last != AddOp(n) {
      var i :| 0 <= i < |ops| && ops[i] == AddOp(n);
      assert i != |ops| - 1;
      assert pre[i] == AddOp(n);
      var st := Run(hash, replicas, pre);
      var st' := Run(hash, replicas, ops);
      assert st' == Step(hash, replicas, st, last);
      var added := AddedHashes(hash, replicas, pre);
      AddedHashesCover(hash, replicas, pre, n, k);
      match last
      case AddOp(z) =>
        var vh := VirtualHashes(hash, replicas, z);
        assert AddedHashes(hash, replicas, ops) == added + vh;
        DistinctWithin(added, [], vh);
        assert k !in vh;
        SetAllEntries(st.ring, vh, z);
        DistinctHistoryOwner(hash, replicas, pre, n, k);
      case RemoveOp(z) =>
        DeleteAllEntries(st.ring, VirtualHashes(hash, replicas, z));
        DistinctHistoryOwner(hash, replicas, pre, n, k);
    } else {
      SetAllEntries(Run(hash, replicas, pre).ring, VirtualHashes(hash, replicas, n), n);
    }
  }

  /**
   * Churn of consistent hashing over a history with pairwise distinct virtual
   * hashes: after `removeNode(x)` for an `x` that was added, no key is sent to
   * `x`, and a key owned by another node `y` before keeps `y` as its owner.
   */
  lemma ChurnAfterRemove(hash: string -> Hash32, replicas: int, ops: seq<Op>, x: string, y: string, h: Hash32)
    requires Distinct(AddedHashes(hash, replicas, ops))
    requires AddOp(x) in ops
    requires LookupSpec(Run(hash, replicas, ops), h) == Found(y) && y != x
    ensures LookupSpec(Run(hash, replicas, ops + [RemoveOp(x)]), h) == Found(y)
  {
    var st := Run(hash, replicas, ops);
    var vh := VirtualHashes(hash, replicas, x);
    RunAppend(hash, replicas, ops, RemoveOp(x));
    RunConsistent(hash, replicas, ops);
    forall k | k in vh && k in st.ring ensures st.ring[k] == x {
      DistinctHistoryOwner(hash, replicas, ops, x, k);
    }
    RemoveKeepsOtherOwners(st, vh, x, y, h);
  }

  /**
   * After `removeNode(x)` on any reachable state, no key is sent to `x`,
   * whether or not virtual hashes collide.
   */
  lemma RemovedNodeUnreachableAfterRun(hash: string -> Hash32, replicas: int, ops: seq<Op>, x: string, h: Hash32)
    ensures LookupSpec(Run(hash, replicas, ops + [RemoveOp(x)]), h) != Found(x)
  {
    RunAppend(hash, replicas, ops, RemoveOp(x));
    RunConsistent(hash, replicas, ops);
    RemovedNodeUnreachable(hash, replicas, Run(hash, replicas, ops), x, h);
  }

  /** Every node a lookup can return was added at some point. */
  lemma {:induction false} OwnersWereAdded(hash: string -> Hash32, replicas: int, ops: seq<Op>, k: Hash32)
    requires k in Run(hash, replicas, ops).ring
    ensures AddOp(Run(hash, replicas, ops).ring[k]) in ops
  {
    var pre := ops[..|ops| - 1];
    var last := ops[|ops| - 1];
    var st := Run(hash, replicas, pre);
    var st' := Run(hash, replicas, ops);
    assert st' == Step(hash, replicas, st, last);
    SetAllEntries(st.ring, VirtualHashes(hash, replicas, last.node), last.node);
    DeleteAllEntries(st.ring, VirtualHashes(hash, replicas, last.node));
    if last.AddOp? && k in VirtualHashes(hash, replicas, last.node) {
      assert st'.ring[k] == last.node;
      assert ops[|ops| - 1] == last;
    } else {
      assert k in st.ring && st'.ring[k] == st.ring[k];
      OwnersWereAdded(hash, replicas, pre, k);
      var i :| 0 <= i < |pre| && pre[i] == AddOp(st.ring[k]);
      assert ops[i] == pre[i];
    }
  }

  /**
   * Coverage: with pairwise distinct virtual hashes over the history, a
   * lookup on a ring with placed hashes always returns a node that was added,
   * never `null` nor `undefined`.
   */
  lemma DistinctHistoryCoverage(hash: string -> Hash32, replicas: int, ops: seq<Op>, h: Hash32)
    requires Distinct(AddedHashes(hash, replicas, ops))
    requires Run(hash, replicas, ops).sortedHashes != []
    ensures LookupSpec(Run(hash, replicas, ops), h).Found?
    ensures AddOp(LookupSpec(Run(hash, replicas, ops), h).node) in ops
  {
    var st := Run(hash, replicas, ops);
    DistinctHistoryExact(hash, replicas, ops);
    var p := ClockwisePoint(st.sortedHashes, h);
    assert p in st.ring;
    OwnersWereAdded(hash, replicas, ops, p);
  }

  /**
   * Distinct replica indices give distinct labels `${node}-${i}`, so two
   * virtual nodes of one node can only collide through the hash.
   */
  lemma LabelInjective(node: string, i: nat, j: nat)
    requires Label(node, i) == Label(node, j)
    ensures i == j
  {
    var n := |node + "-"|;
    assert Label(node, i)[n..] == Decimal(i);
    assert Label(node, j)[n..] == Decimal(j);
    DecimalInjective(i, j);
  }

  /** Different numbers print differently in decimal. */
  lemma {:induction false} DecimalInjective(i: nat, j: nat)
    requires Decimal(i) == Decimal(j)
    ensures i == j
  {
    var di, dj := Decimal(i), Decimal(j);
    assert di[|di| - 1] == DigitChar(i % 10);
    assert dj[|dj| - 1] == DigitChar(j % 10);
    DigitCharInjective(i % 10, j % 10);
    if i >= 10 && j >= 10 {
      assert Decimal(i / 10) == di[..|di| - 1] == dj[..|dj| - 1] == Decimal(j / 10);
      DecimalInjective(i / 10, j / 10);
    }
  }

  lemma DigitCharInjective(a: nat, b: nat)
    requires a < 10 && b < 10 && DigitChar(a) == DigitChar(b)
    ensures a == b
  {
  }

  /** A history made of `addNode` calls only. */
  ghost predicate AddOnly(ops: seq<Op>) {
    forall i :: 0 <= i < |ops| ==> ops[i].AddOp?
  }

  /**
   * Under additions alone, colliding virtual hashes or not, a hash is placed
   * in the array exactly when it is a key of `ring`: every write of `addNode`
   * both pushes the hash and sets its entry.
   */
  lemma {:induction false} AddOnlyPlacedAreKeys(hash: string -> Hash32, replicas: int, ops: seq<Op>)
    requires AddOnly(ops)
    ensures forall h :: h in Run(hash, replicas, ops).sortedHashes <==> h in Run(hash, replicas, ops).ring
  {
    if ops != [] {
      var pre := ops[..|ops| - 1];
      assert AddOnly(pre) by {
        forall i | 0 <= i < |pre| ensures pre[i].AddOp? {
          assert pre[i] == ops[i];
        }
      }
      AddOnlyPlacedAreKeys(hash, replicas, pre);
      var node := ops[|ops| - 1].node;
      var st := Run(hash, replicas, pre);
      var vh := VirtualHashes(hash, replicas, node);
      var st' := AddSpec(st, vh, node);
      assert Run(hash, replicas, ops) == st';
      AddSpecProperties(st, vh, node);
      forall h ensures h in st'.sortedHashes <==> h in st'.ring {
        assert h in st'.sortedHashes <==> h in multiset(st'.sortedHashes);
        assert h in st.sortedHashes <==> h in multiset(st.sortedHashes);
        assert h in vh <==> h in multiset(vh);
      }
    }
  }

  /**
   * Coverage under additions alone, colliding virtual hashes or not: a lookup
   * on a ring with placed hashes returns a node that was added, never `null`
   * nor `undefined`.
   */
  lemma AddOnlyCoverage(hash: string -> Hash32, replicas: int, ops: seq<Op>, h: Hash32)
    requires AddOnly(ops)
    requires Run(hash, replicas, ops).sortedHashes != []
    ensures LookupSpec(Run(hash, replicas, ops), h).Found?
    ensures AddOp(LookupSpec(Run(hash, replicas, ops), h).node) in ops
  {
    var st := Run(hash, replicas, ops);
    AddOnlyPlacedAreKeys(hash, replicas, ops);
    var p := ClockwisePoint(st.sortedHashes, h);
    assert p in st.sortedHashes;
    OwnersWereAdded(hash, replicas, ops, p);
  }

  /**
   * `removeNode(x)` straight after `addNode(x)` gives back the array as it
   * was, whatever collides: the removal takes out one copy of each hash the
   * addition pushed.
   */
  lemma AddThenRemoveRestoresArray(hash: string -> Hash32, replicas: int, ops: seq<Op>, x: string)
    ensures Run(hash, replicas, ops + [AddOp(x), RemoveOp(x)]).sortedHashes == Run(hash, replicas, ops).sortedHashes
  {
    RunAppend(hash, replicas, ops, AddOp(x));
    RunAppend(hash, replicas, ops + [AddOp(x)], RemoveOp(x));
    assert ops + [AddOp(x), RemoveOp(x)] == ops + [AddOp(x)] + [RemoveOp(x)];
    RunConsistent(hash, replicas, ops);
    AddThenRemoveArray(Run(hash, replicas, ops), VirtualHashes(hash, replicas, x), x);
  }

  /** On a sorted array, removing the hashes just added leaves the array unchanged. */
  lemma AddThenRemoveArray(st: RingState, vh: seq<Hash32>, x: string)
    requires Sorted(st.sortedHashes)
    ensures RemoveSpec(AddSpec(st, vh, x), vh).sortedHashes == st.sortedHashes
  {
    var s1 := AddSpec(st, vh, x).sortedHashes;
    AddSpecProperties(st, vh, x);
    RemoveEachSorted(s1, vh);
    RemoveEachCount(s1, vh);
    assert multiset(s1) - multiset(vh) == multiset(st.sortedHashes);
    SortedPermutationUnique(RemoveEach(s1, vh), st.sortedHashes);
  }

  /** A hash function that sends every label to the same position. */
  function ConstantHash(s: string): Hash32 {
    7
  }

  /**
   * Collisions break the agreement between map and array: with one replica
   * and every label hashing to 7, adding `a` then `b` leaves both copies of 7
   * in the array and the entry 7 -> `b`; removing `a` deletes that entry and
   * one copy. Every key then looks up `undefined`, so `b`, which owned every
   * key, owns none: the distinct-hashes hypothesis of `ChurnAfterRemove` and
   * `DistinctHistoryExact` cannot be dropped.
   */
  lemma CollisionLeavesUndefined(a: string, b: string, h: Hash32)
    ensures Run(ConstantHash, 1, [AddOp(a), AddOp(b)]) == RingState(map[7 := b], [7, 7])
    ensures LookupSpec(Run(ConstantHash, 1, [AddOp(a), AddOp(b)]), h) == Found(b)
    ensures Run(ConstantHash, 1, [AddOp(a), AddOp(b), RemoveOp(a)]) == RingState(map[], [7])
    ensures LookupSpec(Run(ConstantHash, 1, [AddOp(a), AddOp(b), RemoveOp(a)]), h) == Undefined
  {
    CollidingAdds(a, b);
    CollidingRemove(a, b);
  }

  /** Removing `a` afterwards deletes the entry 7, owned by `b`, and one of the two copies. */
  lemma CollidingRemove(a: string, b: string)
    requires Run(ConstantHash, 1, [AddOp(a), AddOp(b)]) == RingState(map[7 := b], [7, 7])
    ensures Run(ConstantHash, 1, [AddOp(a), AddOp(b), RemoveOp(a)]) == RingState(map[], [7])
  {
    AllAtSeven(a);
    RunAppend(ConstantHash, 1, [AddOp(a), AddOp(b)], RemoveOp(a));
    assert [AddOp(a), AddOp(b)] + [RemoveOp(a)] == [AddOp(a), AddOp(b), RemoveOp(a)];
    RemoveSevenOnce(b);
  }

  lemma RemoveSevenOnce(b: string)
    ensures RemoveSpec(RingState(map[7 := b], [7, 7]), [7]) == RingState(map[], [7])
  {
    assert [7][..0] == [];
    assert RemoveFirst([7, 7], 7) == [7];
    assert DeleteAll(map[7 := b], [7]) == map[7 := b] - {7};
    assert map[7 := b] - {7} == map[];
  }

  /** Adding `a` then `b` when both hash to 7 leaves 7 twice in the array, mapped to `b`. */
  lemma CollidingAdds(a: string, b: string)
    ensures Run(ConstantHash, 1, [AddOp(a), AddOp(b)]) == RingState(map[7 := b], [7, 7])
  {
    AllAtSeven(a);
    AllAtSeven(b);
    RunAppend(ConstantHash, 1, [], AddOp(a));
    RunAppend(ConstantHash, 1, [AddOp(a)], AddOp(b));
    assert [] + [AddOp(a)] == [AddOp(a)];
    assert [AddOp(a)] + [AddOp(b)] == [AddOp(a), AddOp(b)];
    assert SortAscending([7]) == [7] by {
      assert [7][..0] == [];
    }
    assert SortAscending([7, 7]) == [7, 7] by {
      assert [7, 7][..1] == [7];
    }
    assert [7][..0] == [];
    assert SetAll(map[], [7], a) == map[7 := a];
    assert SetAll(map[7 := a], [7], b) == map[7 := a][7 := b];
    assert map[7 := a][7 := b] == map[7 := b];
  }

  /** With one replica and `ConstantHash`, every node's only virtual hash is 7. */
  lemma AllAtSeven(node: string)
    ensures VirtualHashes(ConstantHash, 1, node) == [7]
  {
    var vh := VirtualHashes(ConstantHash, 1, node);
    assert |vh| == 1 && vh[0] == ConstantHash(Label(node, 0));
  }
}
