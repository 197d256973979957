/**
 * The ring's state as a value, and what each operation of the ring does to
 * it. `AddSpec`, `RemoveSpec` and `LookupSpec` are the specifications that
 * the methods of `HashRing.ConsistentHashing` are proved against; `Run`
 * replays a history of membership changes from the empty ring and so
 * describes every state the ring can reach.
 */
module RingSpec {
  import opened HashSpace

  /**
   * What `getNode` hands back: `null` on an empty ring, a node name, or
   * `undefined` when the chosen hash has no entry left in `ring` (possible
   * once colliding virtual nodes have been removed).
   */
  datatype NodeLookup = Null | Undefined | Found(node: string)

  /** `ring`: hash -> node name; `sortedHashes`: every placed hash, ascending, duplicates kept. */
  datatype RingState = RingState(ring: map<Hash32, string>, sortedHashes: seq<Hash32>)

  /** A membership change, as the ring's methods receive it. */
  datatype Op = AddOp(node: string) | RemoveOp(node: string)

  /** How many times `for (let i = 0; i < replicas; i++)` runs. */
  function ReplicaCount(replicas: int): nat {
    if replicas > 0 then replicas else 0
  }

  function DigitChar(d: nat): char
    requires d < 10
  {
    "0123456789"[d]
  }

  /** The decimal digits of `n`, as a template literal prints a non-negative integer. */
  function Decimal(n: nat): string {
    if n < 10 then [DigitChar(n)] else Decimal(n / 10) + [DigitChar(n % 10)]
  }

  /** The label of the `i`-th virtual node of `node`: `${node}-${i}`. */
  function Label(node: string, i: nat): string {
    node + "-" + Decimal(i)
  }

  /**
   * The ring positions of the virtual nodes of `node`, in replica order.
   * Nothing makes them distinct: two labels may hash alike.
   */
  function VirtualHashes(hash: string -> Hash32, replicas: int, node: string): seq<Hash32> {
    seq<Hash32>(ReplicaCount(replicas), i requires 0 <= i => hash(Label(node, i)))
  }

  function Empty(): RingState {
    RingState(map[], [])
  }

  /** `ring.set(h, node)` for each `h` of `vh`, in order. */
  function SetAll(ring: map<Hash32, string>, vh: seq<Hash32>, node: string): map<Hash32, string> {
    if vh == [] then ring
    else SetAll(ring, vh[..|vh| - 1], node)[vh[|vh| - 1] := node]
  }

  /** `ring.delete(h)` for each `h` of `vh`, in order. */
  function DeleteAll(ring: map<Hash32, string>, vh: seq<Hash32>): map<Hash32, string> {
    if vh == [] then ring
    else DeleteAll(ring, vh[..|vh| - 1]) - {vh[|vh| - 1]}
  }

  /**
   * `addNode`: every virtual hash is set to `node` in `ring` and appended to
   * the array, which is then sorted numerically.
   */
  function AddSpec(st: RingState, vh: seq<Hash32>, node: string): RingState {
    RingState(SetAll(st.ring, vh, node), SortAscending(st.sortedHashes + vh))
  }

  /**
   * `removeNode`: every recomputed hash is deleted from `ring`, whichever node
   * it maps to, and its first occurrence, if any, is spliced out of the array.
   */
  function RemoveSpec(st: RingState, vh: seq<Hash32>): RingState {
    RingState(DeleteAll(st.ring, vh), RemoveEach(st.sortedHashes, vh))
  }

  /** `ring.get(h)`. */
  function MapGet(ring: map<Hash32, string>, h: Hash32): NodeLookup {
    if h in ring then Found(ring[h]) else Undefined
  }

  /**
   * The hash `getNode` settles on in a non-empty array: the first element not
   * smaller than `h`, or element 0 when every element is smaller.
   */
  function ClockwisePoint(s: seq<Hash32>, h: Hash32): Hash32
    requires s != []
  {
    var i := FirstAtLeast(s, h);
    if i < |s| then s[i] else s[0]
  }

  /** `getNode` for a key whose hash is `h`. */
  function LookupSpec(st: RingState, h: Hash32): NodeLookup {
    if st.sortedHashes == [] then Null
    else MapGet(st.ring, ClockwisePoint(st.sortedHashes, h))
  }

  /**
   * Reference definition of the owner's position, independent of any scan:
   * `p` is on the ring and is the smallest placed hash `>= h`, or, when no
   * placed hash is `>= h`, the smallest placed hash (wrap-around).
   */
  ghost predicate Successor(s: seq<Hash32>, h: int, p: Hash32) {
    && p in s
    && if exists q :: q in s && h <= q
       then h <= p && forall q :: q in s && h <= q ==> p <= q
       else forall q :: q in s ==> p <= q
  }

  function Step(hash: string -> Hash32, replicas: int, st: RingState, op: Op): RingState {
    match op
    case AddOp(node) => AddSpec(st, VirtualHashes(hash, replicas, node), node)
    case RemoveOp(node) => RemoveSpec(st, VirtualHashes(hash, replicas, node))
  }

  /** The state reached from a freshly constructed ring by the changes `ops`, in order. */
  function Run(hash: string -> Hash32, replicas: int, ops: seq<Op>): RingState {
    if ops == [] then Empty()
    else Step(hash, replicas, Run(hash, replicas, ops[..|ops| - 1]), ops[|ops| - 1])
  }

  /** Every virtual hash ever added along `ops`, in order. */
  function AddedHashes(hash: string -> Hash32, replicas: int, ops: seq<Op>): seq<Hash32> {
    if ops == [] then []
    else
      var prev := AddedHashes(hash, replicas, ops[..|ops| - 1]);
      match ops[|ops| - 1]
      case AddOp(node) => prev + VirtualHashes(hash, replicas, node)
      case RemoveOp(_) => prev
  }
}
