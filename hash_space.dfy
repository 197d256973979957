/**
 * The ordered index of the ring: 32-bit hash values kept in an ascending
 * sequence, with the array operations the ring applies to it (numeric sort,
 * `indexOf`, splicing out one element) and the clockwise search.
 */
module HashSpace {

  /** A ring position: the first 8 hex digits of a digest, read as an unsigned 32-bit integer. */
  type Hash32 = h: int | 0 <= h < 0x1_0000_0000

  /** Non-strictly ascending: equal hashes from colliding virtual nodes may sit side by side. */
  ghost predicate Sorted(s: seq<int>) {
    forall i, j :: 0 <= i < j < |s| ==> s[i] <= s[j]
  }

  /** Every value occurs at most once. */
  ghost predicate Distinct(s: seq<Hash32>) {
    forall v :: multiset(s)[v] <= 1
  }

  /** Places `x` in front of the first element of `s` that is not smaller than it. */
  function Insert(x: Hash32, s: seq<Hash32>): seq<Hash32> {
    if s == [] || x <= s[0] then [x] + s
    else [s[0]] + Insert(x, s[1..])
  }

  /** Inserting into an ascending sequence keeps it ascending and adds exactly one `x`. */
  lemma {:induction false} InsertSorted(x: Hash32, s: seq<Hash32>)
    requires Sorted(s)
    ensures Sorted(Insert(x, s))
    ensures multiset(Insert(x, s)) == multiset(s) + multiset{x}
  {
    if s != [] && s[0] < x {
      MultisetTail(s);
      InsertSorted(x, s[1..]);
      InsertStep(x, s, Insert(x, s[1..]));
    }
  }

  /** The step of `Insert` past a head smaller than `x`. */
  lemma InsertStep(x: Hash32, s: seq<Hash32>, t: seq<Hash32>)
    requires Sorted(s) && s != [] && s[0] < x
    requires Sorted(t) && multiset(t) == multiset(s[1..]) + multiset{x}
    ensures Sorted([s[0]] + t)
    ensures multiset([s[0]] + t) == multiset(s) + multiset{x}
  {
    MultisetTail(s);
    forall k | 0 <= k < |t| ensures s[0] <= t[k] {
      assert t[k] in multiset(t);
      if t[k] != x {
        SortedHeadIsLeast(s, t[k]);
      }
    }
    SortedCons(s[0], t);
  }

  /** The array sorted with the numeric comparator `(a, b) => a - b`, by insertion. */
  function SortAscending(s: seq<Hash32>): seq<Hash32> {
    if s == [] then []
    else Insert(s[|s| - 1], SortAscending(s[..|s| - 1]))
  }

  /** The sorted array is ascending and a permutation of its input. */
  lemma {:induction false} SortAscendingCorrect(s: seq<Hash32>)
    ensures Sorted(SortAscending(s))
    ensures multiset(SortAscending(s)) == multiset(s)
  {
    if s != [] {
      var init := s[..|s| - 1];
      assert s == init + [s[|s| - 1]];
      SortAscendingCorrect(init);
      InsertSorted(s[|s| - 1], SortAscending(init));
    }
  }

  /**
   * A sorted permutation is unique, so every correct sort of the same array
   * yields `SortAscending` of it, whatever algorithm it uses.
   */
  lemma {:induction false} SortedPermutationUnique(a: seq<Hash32>, b: seq<Hash32>)
    requires Sorted(a) && Sorted(b)
    requires multiset(a) == multiset(b)
    ensures a == b
  {
    if a == [] || b == [] {
      assert |multiset(a)| == |a| && |multiset(b)| == |b|;
    } else {
      SameHeadSameTail(a, b);
      SortedPermutationUnique(a[1..], b[1..]);
      assert a == [a[0]] + a[1..] && b == [b[0]] + b[1..];
    }
  }

  /** Two ascending permutations of each other start alike and go on with permutations of each other. */
  lemma SameHeadSameTail(a: seq<Hash32>, b: seq<Hash32>)
    requires Sorted(a) && Sorted(b) && a != [] && b != []
    requires multiset(a) == multiset(b)
    ensures a[0] == b[0]
    ensures Sorted(a[1..]) && Sorted(b[1..])
    ensures multiset(a[1..]) == multiset(b[1..])
  {
    assert b[0] in multiset(a) && a[0] in multiset(b);
    SortedHeadIsLeast(a, b[0]);
    SortedHeadIsLeast(b, a[0]);
    MultisetTail(a);
    MultisetTail(b);
  }

  lemma SortedHeadIsLeast(s: seq<Hash32>, x: Hash32)
    requires Sorted(s) && x in multiset(s)
    ensures s[0] <= x
  {
    var i :| 0 <= i < |s| && s[i] == x;
  }

  lemma SortedCons(a: Hash32, t: seq<Hash32>)
    requires Sorted(t)
    requires forall k :: 0 <= k < |t| ==> a <= t[k]
    ensures Sorted([a] + t)
  {
  }

  lemma MultisetTail(s: seq<Hash32>)
    requires s != []
    ensures multiset(s[1..]) == multiset(s) - multiset{s[0]}
    ensures Sorted(s) ==> Sorted(s[1..])
  {
    assert s == [s[0]] + s[1..];
  }

  /** Index of the first element equal to `x`, or `|s|` when `x` does not occur. */
  function FirstIndexOf(s: seq<Hash32>, x: Hash32): (i: nat)
    ensures i <= |s|
    ensures x !in s[..i]
    ensures i < |s| ==> s[i] == x
  {
    if s == [] then 0
    else if s[0] == x then 0
    else
      var i := 1 + FirstIndexOf(s[1..], x);
      assert s[..i] == [s[0]] + s[1..][..i - 1];
      i
  }

  /** `s` with the first occurrence of `x` spliced out, or `s` itself when `x` does not occur. */
  function RemoveFirst(s: seq<Hash32>, x: Hash32): seq<Hash32> {
    var i := FirstIndexOf(s, x);
    if i == |s| then s else s[..i] + s[i + 1..]
  }

  /** Splicing out removes one occurrence of `x` when there is one, and nothing else. */
  lemma RemoveFirstCount(s: seq<Hash32>, x: Hash32)
    ensures multiset(RemoveFirst(s, x)) == multiset(s) - multiset{x}
    ensures x in s ==> |RemoveFirst(s, x)| == |s| - 1
    ensures x !in s ==> RemoveFirst(s, x) == s
  {
    var i := FirstIndexOf(s, x);
    if i == |s| {
      assert s[..i] == s;
    } else {
      assert s == s[..i] + [x] + s[i + 1..];
    }
  }

  /** Splicing out the element at the first index holding `x` is `RemoveFirst`. */
  lemma RemoveFirstAt(s: seq<Hash32>, x: Hash32, k: nat)
    requires k < |s| && s[k] == x && x !in s[..k]
    ensures RemoveFirst(s, x) == s[..k] + s[k + 1..]
  {
  }

  /** Removing one element keeps an ascending sequence ascending. */
  lemma RemoveFirstSorted(s: seq<Hash32>, x: Hash32)
    requires Sorted(s)
    ensures Sorted(RemoveFirst(s, x))
  {
  }

  /** The recomputed hashes `hs` spliced out one after the other, each its own first occurrence. */
  function RemoveEach(s: seq<Hash32>, hs: seq<Hash32>): seq<Hash32> {
    if hs == [] then s
    else RemoveFirst(RemoveEach(s, hs[..|hs| - 1]), hs[|hs| - 1])
  }

  /** Splicing out `hs` takes away exactly the multiset `hs`: no other value loses an occurrence. */
  lemma {:induction false} RemoveEachCount(s: seq<Hash32>, hs: seq<Hash32>)
    ensures multiset(RemoveEach(s, hs)) == multiset(s) - multiset(hs)
  {
    if hs != [] {
      var init, x := hs[..|hs| - 1], hs[|hs| - 1];
      assert multiset(hs) == multiset(init) + multiset{x} by {
        assert hs == init + [x];
      }
      RemoveEachCount(s, init);
      RemoveFirstCount(RemoveEach(s, init), x);
    }
  }

  /**
   * Splicing out `hs` shortens `s` by at most `|hs|`, and by exactly `|hs|`
   * when `s` holds each value at least as often as `hs` does.
   */
  lemma {:induction false} RemoveEachLength(s: seq<Hash32>, hs: seq<Hash32>)
    ensures |s| - |hs| <= |RemoveEach(s, hs)| <= |s|
    ensures multiset(hs) <= multiset(s) ==> |RemoveEach(s, hs)| == |s| - |hs|
  {
    if hs != [] {
      var init, x := hs[..|hs| - 1], hs[|hs| - 1];
      assert multiset(hs) == multiset(init) + multiset{x} by {
        assert hs == init + [x];
      }
      var t := RemoveEach(s, init);
      RemoveEachLength(s, init);
      RemoveFirstCount(t, x);
      if multiset(hs) <= multiset(s) {
        RemoveEachCount(s, init);
        SubMultisetSnoc(s, init, x);
      }
    }
  }

  lemma SubMultisetSnoc(s: seq<Hash32>, init: seq<Hash32>, x: Hash32)
    requires multiset(init) + multiset{x} <= multiset(s)
    ensures multiset(init) <= multiset(s)
    ensures x in multiset(s) - multiset(init)
  {
  }

  /** Splicing out one more hash is one more `RemoveFirst`. */
  lemma RemoveEachSnoc(s: seq<Hash32>, hs: seq<Hash32>, x: Hash32)
    ensures RemoveEach(s, hs + [x]) == RemoveFirst(RemoveEach(s, hs), x)
  {
  }

  /** Splicing keeps the sequence ascending. */
  lemma {:induction false} RemoveEachSorted(s: seq<Hash32>, hs: seq<Hash32>)
    requires Sorted(s)
    ensures Sorted(RemoveEach(s, hs))
  {
    if hs != [] {
      RemoveEachSorted(s, hs[..|hs| - 1]);
      RemoveFirstSorted(RemoveEach(s, hs[..|hs| - 1]), hs[|hs| - 1]);
    }
  }

  /** When none of `hs` occurs in `s`, splicing them out changes nothing. */
  lemma {:induction false} RemoveEachAbsent(s: seq<Hash32>, hs: seq<Hash32>)
    requires forall h :: h in hs ==> h !in s
    ensures RemoveEach(s, hs) == s
  {
    if hs != [] {
      var init := hs[..|hs| - 1];
      assert forall h :: h in init ==> h in hs;
      RemoveEachAbsent(s, init);
      assert hs[|hs| - 1] in hs;
      RemoveFirstCount(s, hs[|hs| - 1]);
    }
  }

  /**
   * Index of the first element not smaller than `h`, or `|s|` when every
   * element is smaller.
   */
  function FirstAtLeast(s: seq<Hash32>, h: int): (i: nat)
    ensures i <= |s|
    ensures forall j :: 0 <= j < i ==> s[j] < h
    ensures i < |s| ==> h <= s[i]
  {
    if s == [] then 0
    else if h <= s[0] then 0
    else 1 + FirstAtLeast(s[1..], h)
  }

  /**
   * `Array.prototype.indexOf`: the first index holding `x`, or -1 when `x`
   * does not occur.
   */
  method IndexOf(s: seq<Hash32>, x: Hash32) returns (index: int)
    ensures -1 <= index < |s|
    ensures index == -1 <==> x !in s
    ensures 0 <= index ==> s[index] == x && x !in s[..index]
  {
    index := 0;
    while index < |s|
      invariant 0 <= index <= |s|
      invariant x !in s[..index]
    {
      if s[index] == x {
        return;
      }
      assert s[..index + 1] == s[..index] + [s[index]];
      index := index + 1;
    }
    assert s[..index] == s;
    index := -1;
  }
}
