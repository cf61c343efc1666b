/**
 In-place heap sort with a caller's comparator.  `Sift` says what `adjust_heap` does to the array
 contents; the ordering and permutation results are about that function.
 */
module HeapSort {
  import opened Basics

  /** Negative, zero or positive as the first argument is below, level with or above the second. */
  type Compare<!T> = (T, T) -> int

  ghost predicate TotalPreorder<T(!new)>(cmp: Compare<T>) {
    && (forall a, b :: cmp(a, b) < 0 <==> cmp(b, a) > 0)
    && (forall a, b, c :: cmp(a, b) <= 0 && cmp(b, c) <= 0 ==> cmp(a, c) <= 0)
  }

  function Parent(k: nat): nat
    requires k > 0
  {
    (k - 1) / 2
  }

  function Swap<T>(s: seq<T>, i: nat, j: nat): seq<T>
    requires i < |s| && j < |s|
  {
    s[i := s[j]][j := s[i]]
  }

  /** The children of `dad` within `[0..end]` are elements of the array. */
  predicate InBounds<T>(s: seq<T>, dad: nat, end: int) {
    2 * dad + 1 <= end ==> 2 * dad + 1 < |s| && (2 * dad + 2 <= end ==> 2 * dad + 2 < |s|)
  }

  /** The larger child of `dad` within `[0..end]`. */
  function Son<T>(cmp: Compare<T>, s: seq<T>, dad: nat, end: int): (son: nat)
    requires 2 * dad + 1 <= end && InBounds(s, dad, end)
    ensures dad < son <= end && son < |s| && Parent(son) == dad
  {
    var son := 2 * dad + 1;
    if son + 1 <= end && cmp(s[son], s[son + 1]) < 0 then son + 1 else son
  }

  /** The contents after sifting position `dad` down, within `[0..end]`. */
  function Sift<T>(cmp: Compare<T>, s: seq<T>, dad: nat, end: int): (r: seq<T>)
    requires end < |s|
    ensures |r| == |s|
    decreases end - dad
  {
    if 2 * dad + 1 > end then s
    else
      var son := Son(cmp, s, dad, end);
      if cmp(s[dad], s[son]) > 0 then s else Sift(cmp, Swap(s, dad, son), son, end)
  }

  /** The same for an end that may be one past the array; `None` is a read past the last element. */
  function SiftBy<T>(cmp: Compare<T>, s: seq<T>, dad: nat, end: int): (r: Option<seq<T>>)
    requires end <= |s|
    ensures r.Some? ==> |r.value| == |s|
    decreases end - dad
  {
    if 2 * dad + 1 > end then Some(s)
    else if !InBounds(s, dad, end) then None
    else
      var son := Son(cmp, s, dad, end);
      if cmp(s[dad], s[son]) > 0 then Some(s) else SiftBy(cmp, Swap(s, dad, son), son, end)
  }

  method AdjustHeap<T>(cmp: Compare<T>, a: array<T>, start: nat, end: int) returns (ok: bool)
    requires end <= a.Length
    modifies a
    ensures ok <==> SiftBy(cmp, old(a[..]), start, end).Some?
    ensures ok ==> a[..] == SiftBy(cmp, old(a[..]), start, end).value
  {
    var dad := start;
    var son := 2 * dad + 1;
    while son <= end
      invariant son == 2 * dad + 1
      invariant SiftBy(cmp, a[..], dad, end) == SiftBy(cmp, old(a[..]), start, end)
      decreases end - dad
    {
      if son == a.Length || (son + 1 <= end && son + 1 == a.Length) {
        return false;
      }
      if son + 1 <= end && cmp(a[son], a[son + 1]) < 0 {
        son := son + 1;
      }
      if cmp(a[dad], a[son]) > 0 {
        return true;
      }
      ghost var s := a[..];
      a[dad], a[son] := a[son], a[dad];
      assert a[..] == Swap(s, dad, son);
      dad := son;
      son := 2 * dad + 1;
    }
    ok := true;
  }

  lemma {:induction false} SiftInside<T>(cmp: Compare<T>, s: seq<T>, dad: nat, end: int)
    requires end < |s|
    ensures SiftBy(cmp, s, dad, end) == Some(Sift(cmp, s, dad, end))
    decreases end - dad
  {
    if 2 * dad + 1 <= end {
      var son := Son(cmp, s, dad, end);
      if cmp(s[dad], s[son]) <= 0 {
        SiftInside(cmp, Swap(s, dad, son), son, end);
      }
    }
  }

  /** Does sifting `dad` down within `[0..end]` come to position `k`? */
  predicate Reaches<T>(cmp: Compare<T>, s: seq<T>, dad: nat, end: int, k: nat)
    requires end < |s|
    decreases end - dad
  {
    dad == k || (2 * dad + 1 <= end &&
                 var son := Son(cmp, s, dad, end);
                 cmp(s[dad], s[son]) <= 0 && Reaches(cmp, Swap(s, dad, son), son, end, k))
  }

  /** With the length as inclusive end, a sift reads past the array iff it comes to the parent of that place. */
  lemma {:induction false} SiftPastExact<T>(cmp: Compare<T>, s: seq<T>, dad: nat)
    requires s != []
    ensures SiftBy(cmp, s, dad, |s|) ==
      if Reaches(cmp, s, dad, |s| - 1, Parent(|s|)) then None else Some(Sift(cmp, s, dad, |s| - 1))
    decreases |s| - dad
  {
    if 2 * dad + 2 < |s| {
      var son := Son(cmp, s, dad, |s|);
      if cmp(s[dad], s[son]) <= 0 {
        SiftPastExact(cmp, Swap(s, dad, son), son);
      }
    }
  }

  // ---------- What sifting keeps ----------

  lemma SwapKeeps<T>(s: seq<T>, i: nat, j: nat, n: nat)
    requires i < n && j < n && n <= |s|
    ensures multiset(Swap(s, i, j)[..n]) == multiset(s[..n]) && Swap(s, i, j)[n..] == s[n..]
  {
  }

  lemma SwapPermutes<T>(s: seq<T>, i: nat, j: nat)
    requires i < |s| && j < |s|
    ensures multiset(Swap(s, i, j)) == multiset(s)
  {
  }

  /** Only `[0..end]` is touched, and only permuted. */
  lemma {:induction false} SiftKeeps<T>(cmp: Compare<T>, s: seq<T>, dad: nat, end: int)
    requires -1 <= end < |s|
    ensures var r := Sift(cmp, s, dad, end);
      multiset(r[..end + 1]) == multiset(s[..end + 1]) && r[end + 1..] == s[end + 1..]
    decreases end - dad
  {
    if 2 * dad + 1 <= end {
      var son := Son(cmp, s, dad, end);
      if cmp(s[dad], s[son]) <= 0 {
        SwapKeeps(s, dad, son, end + 1);
        SiftKeeps(cmp, Swap(s, dad, son), son, end);
      }
    }
  }

  // ---------- The heap ----------

  /** No child in `[0..end]` is above its parent, for parents from `lo` on. */
  predicate HeapFrom<T>(cmp: Compare<T>, s: seq<T>, lo: nat, end: int)
    requires end < |s|
  {
    forall k :: 0 < k <= end && lo <= Parent(k) ==> cmp(s[k], s[Parent(k)]) <= 0
  }

  /** The same, except that `hole` may be below its own children; its parent is not. */
  predicate HeapBut<T>(cmp: Compare<T>, s: seq<T>, lo: nat, hole: nat, end: int)
    requires end < |s|
  {
    && (forall k :: 0 < k <= end && lo <= Parent(k) && Parent(k) != hole ==> cmp(s[k], s[Parent(k)]) <= 0)
    && (hole > lo && lo <= Parent(hole) ==>
          forall k :: 0 < k <= end && Parent(k) == hole ==> cmp(s[k], s[Parent(hole)]) <= 0)
  }

  lemma SwapMovesHole<T(!new)>(cmp: Compare<T>, s: seq<T>, lo: nat, dad: nat, end: int)
    requires TotalPreorder(cmp) && lo <= dad && 2 * dad + 1 <= end < |s| && HeapBut(cmp, s, lo, dad, end)
    requires var son := Son(cmp, s, dad, end); cmp(s[dad], s[son]) <= 0
    ensures var son := Son(cmp, s, dad, end); HeapBut(cmp, Swap(s, dad, son), lo, son, end)
  {
    var son := Son(cmp, s, dad, end);
    var r := Swap(s, dad, son);
    forall k | 0 < k <= end && lo <= Parent(k) && Parent(k) != son ensures cmp(r[k], r[Parent(k)]) <= 0 {
      if Parent(k) == dad {
        assert k == 2 * dad + 1 || k == 2 * dad + 2;
      } else if k == dad {
        assert cmp(s[son], s[Parent(dad)]) <= 0;
      }
    }
    forall k | 0 < k <= end && Parent(k) == son ensures cmp(r[k], r[Parent(son)]) <= 0 {
      assert cmp(s[k], s[son]) <= 0;
    }
  }

  /** `adjust_heap` restores the heap from `lo` on. */
  lemma {:induction false} SiftRestores<T(!new)>(cmp: Compare<T>, s: seq<T>, lo: nat, dad: nat, end: int)
    requires TotalPreorder(cmp) && lo <= dad && end < |s| && HeapBut(cmp, s, lo, dad, end)
    ensures HeapFrom(cmp, Sift(cmp, s, dad, end), lo, end)
    decreases end - dad
  {
    if 2 * dad + 1 <= end {
      var son := Son(cmp, s, dad, end);
      if cmp(s[dad], s[son]) <= 0 {
        SwapMovesHole(cmp, s, lo, dad, end);
        SiftRestores(cmp, Swap(s, dad, son), lo, son, end);
      } else {
        forall k | 0 < k <= end && Parent(k) == dad ensures cmp(s[k], s[dad]) <= 0 {
          assert k == 2 * dad + 1 || k == 2 * dad + 2;
          assert cmp(s[son], s[dad]) <= 0 && cmp(s[k], s[son]) <= 0;
        }
      }
    }
  }

  /** The root of a heap is not below anything in it. */
  lemma {:induction false} RootIsLargest<T(!new)>(cmp: Compare<T>, s: seq<T>, end: int, k: nat)
    requires TotalPreorder(cmp) && end < |s| && k <= end && HeapFrom(cmp, s, 0, end)
    ensures cmp(s[k], s[0]) <= 0
  {
    if k == 0 {
      assert cmp(s[0], s[0]) <= 0;
    } else {
      RootIsLargest(cmp, s, end, Parent(k));
    }
  }

  // ---------- The sort ----------

  /** Sift positions `i`, `i - 1`, ..., 0. */
  function Heapified<T>(cmp: Compare<T>, s: seq<T>, i: int): (r: seq<T>)
    ensures |r| == |s|
    decreases i + 1
  {
    if i < 0 then s else Heapified(cmp, Sift(cmp, s, i, |s| - 1), i - 1)
  }

  /** Swap the root to position `i`, `i - 1`, ..., 1, sifting what is before it. */
  function Drained<T>(cmp: Compare<T>, s: seq<T>, i: int): (r: seq<T>)
    requires i < |s|
    ensures |r| == |s|
    decreases i
  {
    if i <= 0 then s else Drained(cmp, Sift(cmp, Swap(s, 0, i), 0, i - 1), i - 1)
  }

  function Sorted<T>(cmp: Compare<T>, s: seq<T>): seq<T> {
    Drained(cmp, Heapified(cmp, s, |s| / 2 - 1), |s| - 1)
  }

  /** The inclusive end of the first loop's sifts: `length` in the text, the last index in its intent. */
  datatype Reading = AsWritten | Intended

  function End(reading: Reading, length: nat): int {
    if reading == AsWritten then length else length - 1
  }

  function HeapifiedBy<T>(reading: Reading, cmp: Compare<T>, s: seq<T>, i: int): (r: Option<seq<T>>)
    ensures r.Some? ==> |r.value| == |s|
    decreases i + 1
  {
    if i < 0 then Some(s)
    else
      var r := SiftBy(cmp, s, i, End(reading, |s|));
      if r.None? then None else HeapifiedBy(reading, cmp, r.value, i - 1)
  }

  function SortedBy<T>(reading: Reading, cmp: Compare<T>, s: seq<T>): Option<seq<T>> {
    var h := HeapifiedBy(reading, cmp, s, |s| / 2 - 1);
    if h.None? then None else Some(Drained(cmp, h.value, |s| - 1))
  }

  /** In place, for both readings; `ok` is false when an element past the array would be read. */
  method Sort<T>(reading: Reading, cmp: Compare<T>, a: array<T>) returns (ok: bool)
    modifies a
    ensures ok <==> SortedBy(reading, cmp, old(a[..])).Some?
    ensures ok ==> a[..] == SortedBy(reading, cmp, old(a[..])).value
  {
    hide SiftBy;
    hide Sift;
    hide Drained;
    var n := a.Length;
    var i := n / 2 - 1;
    while i >= 0
      invariant -1 <= i
      invariant HeapifiedBy(reading, cmp, a[..], i) == HeapifiedBy(reading, cmp, old(a[..]), n / 2 - 1)
    {
      ok := AdjustHeap(cmp, a, i, End(reading, n));
      if !ok {
        return;
      }
      i := i - 1;
    }
    Drain(cmp, a);
    ok := true;
  }

  /** The second loop never leaves the array. */
  method Drain<T>(cmp: Compare<T>, a: array<T>)
    modifies a
    ensures a[..] == Drained(cmp, old(a[..]), a.Length - 1)
  {
    hide SiftBy;
    hide Sift;
    var i := a.Length - 1;
    while i > 0
      invariant i < a.Length && Drained(cmp, a[..], i) == Drained(cmp, old(a[..]), a.Length - 1)
    {
      ghost var s := a[..];
      a[0], a[i] := a[i], a[0];
      assert a[..] == Swap(s, 0, i);
      SiftInside(cmp, a[..], 0, i - 1);
      var ok := AdjustHeap(cmp, a, 0, i - 1);
      i := i - 1;
    }
  }

  lemma {:induction false} HeapifiedInside<T>(cmp: Compare<T>, s: seq<T>, i: int)
    ensures HeapifiedBy(Intended, cmp, s, i) == Some(Heapified(cmp, s, i))
    decreases i + 1
  {
    if i >= 0 {
      SiftInside(cmp, s, i, |s| - 1);
      HeapifiedInside(cmp, Sift(cmp, s, i, |s| - 1), i - 1);
    }
  }

  /** Does a sift of the first loop come to position `k`? */
  predicate HeapifyReaches<T>(cmp: Compare<T>, s: seq<T>, i: int, k: nat)
    decreases i + 1
  {
    i >= 0 && (Reaches(cmp, s, i, |s| - 1, k) || HeapifyReaches(cmp, Sift(cmp, s, i, |s| - 1), i - 1, k))
  }

  lemma {:induction false} HeapifiedPastExact<T>(cmp: Compare<T>, s: seq<T>, i: int)
    requires s != []
    ensures HeapifiedBy(AsWritten, cmp, s, i) ==
      if HeapifyReaches(cmp, s, i, Parent(|s|)) then None else Some(Heapified(cmp, s, i))
    decreases i + 1
  {
    hide Sift;
    hide SiftBy;
    hide Reaches;
    if i >= 0 {
      SiftPastExact(cmp, s, i);
      HeapifiedPastExact(cmp, Sift(cmp, s, i, |s| - 1), i - 1);
    }
  }

  /** When line 94, as written, reads past the array: for every even length, and for odd ones on some contents. */
  predicate ReadsPast<T>(cmp: Compare<T>, s: seq<T>) {
    |s| >= 2 && (|s| % 2 == 0 || HeapifyReaches(cmp, s, |s| / 2 - 1, |s| / 2))
  }

  lemma SortPastExact<T>(cmp: Compare<T>, s: seq<T>)
    ensures SortedBy(AsWritten, cmp, s) == if ReadsPast(cmp, s) then None else Some(Sorted(cmp, s))
    ensures SortedBy(Intended, cmp, s) == Some(Sorted(cmp, s))
  {
    hide Sift;
    hide SiftBy;
    hide Drained;
    HeapifiedInside(cmp, s, |s| / 2 - 1);
    if |s| >= 2 {
      HeapifiedPastExact(cmp, s, |s| / 2 - 1);
    }
  }

  /** Two elements always; of three, those with the largest in the middle, where equals count as larger. */
  lemma SortPastFails()
    ensures var cmp := (a: int, b: int) => a - b;
      && SortedBy(AsWritten, cmp, [1, 2]).None? && SortedBy(AsWritten, cmp, [1, 3, 2]).None?
      && SortedBy(AsWritten, cmp, [1, 1, 0]).None? && SortedBy(AsWritten, cmp, [0, 1, 1]).None?
      && SortedBy(AsWritten, cmp, [1, 2, 3]).Some?
  {
    var cmp := (a: int, b: int) => a - b;
    SortPastExact(cmp, [1, 2]);
    SortPastExact(cmp, [1, 3, 2]);
    SortPastExact(cmp, [1, 1, 0]);
    SortPastExact(cmp, [0, 1, 1]);
    SortPastExact(cmp, [1, 2, 3]);
    assert Sift(cmp, [1, 2, 3], 0, 2) == [3, 2, 1];
  }

  lemma {:induction false} HeapifiedIsHeap<T(!new)>(cmp: Compare<T>, s: seq<T>, i: int)
    requires TotalPreorder(cmp) && -1 <= i && HeapFrom(cmp, s, i + 1, |s| - 1)
    ensures HeapFrom(cmp, Heapified(cmp, s, i), 0, |s| - 1)
    ensures multiset(Heapified(cmp, s, i)) == multiset(s)
    decreases i + 1
  {
    hide TotalPreorder;
    hide Sift;
    if i >= 0 {
      var r := Sift(cmp, s, i, |s| - 1);
      assert HeapBut(cmp, s, i, i, |s| - 1);
      SiftRestores(cmp, s, i, i, |s| - 1);
      SiftKeeps(cmp, s, i, |s| - 1);
      assert s[..|s|] == s && r[..|s|] == r;
      HeapifiedIsHeap(cmp, r, i - 1);
    }
  }

  predicate Ordered<T>(cmp: Compare<T>, s: seq<T>, from: int)
    requires 0 <= from
  {
    forall p, q :: from <= p < q < |s| ==> cmp(s[p], s[q]) <= 0
  }

  /** Everything up to `i` is a heap, everything after is in order, and nothing before is above anything after. */
  predicate Draining<T>(cmp: Compare<T>, s: seq<T>, i: int)
    requires -1 <= i < |s|
  {
    && HeapFrom(cmp, s, 0, i) && Ordered(cmp, s, i + 1)
    && forall p, q :: 0 <= p <= i < q < |s| ==> cmp(s[p], s[q]) <= 0
  }

  /** Values of a permuted prefix are values of the old prefix. */
  lemma FromPrefix<T>(r: seq<T>, s: seq<T>, n: nat, p: nat) returns (k: nat)
    requires n <= |r| == |s| && multiset(r[..n]) == multiset(s[..n]) && p < n
    ensures k < n && s[k] == r[p]
  {
    assert r[p] in multiset(r[..n]);
    assert r[p] in s[..n];
    k :| 0 <= k < n && s[..n][k] == r[p];
  }

  /** After the root is swapped out, it is not below anything before it nor above anything after it. */
  lemma RootSwappedOut<T(!new)>(cmp: Compare<T>, s: seq<T>, i: int)
    requires TotalPreorder(cmp) && 0 < i < |s| && Draining(cmp, s, i)
    ensures var w := Swap(s, 0, i);
      && HeapBut(cmp, w, 0, 0, i - 1) && Ordered(cmp, w, i)
      && forall p, q :: 0 <= p < i <= q < |s| ==> cmp(w[p], w[q]) <= 0
  {
    hide TotalPreorder;
    var w := Swap(s, 0, i);
    forall p, q | 0 <= p < i <= q < |s| ensures cmp(w[p], w[q]) <= 0 {
      RootIsLargest(cmp, s, i, if p == 0 then i else p);
    }
  }

  lemma DrainStep<T(!new)>(cmp: Compare<T>, s: seq<T>, i: int)
    requires TotalPreorder(cmp) && 0 < i < |s| && Draining(cmp, s, i)
    ensures var r := Sift(cmp, Swap(s, 0, i), 0, i - 1);
      Draining(cmp, r, i - 1) && multiset(r) == multiset(s)
  {
    hide TotalPreorder;
    var w := Swap(s, 0, i);
    RootSwappedOut(cmp, s, i);
    SiftRestores(cmp, w, 0, 0, i - 1);
    SiftKeeps(cmp, w, 0, i - 1);
    SwapPermutes(s, 0, i);
    PrefixPermuted(cmp, Sift(cmp, w, 0, i - 1), w, i);
  }

  /** Permuting the prefix keeps the order of the suffix and its relation to the prefix. */
  lemma PrefixPermuted<T>(cmp: Compare<T>, r: seq<T>, w: seq<T>, i: nat)
    requires i <= |r| == |w| && multiset(r[..i]) == multiset(w[..i]) && r[i..] == w[i..] && Ordered(cmp, w, i)
    requires forall p, q :: 0 <= p < i <= q < |w| ==> cmp(w[p], w[q]) <= 0
    ensures multiset(r) == multiset(w) && Ordered(cmp, r, i)
    ensures forall p, q :: 0 <= p < i <= q < |r| ==> cmp(r[p], r[q]) <= 0
  {
    assert forall q :: i <= q < |r| ==> r[q] == r[i..][q - i] == w[q];
    forall p, q | 0 <= p < i <= q < |r| ensures cmp(r[p], r[q]) <= 0 {
      var k := FromPrefix(r, w, i, p);
    }
    assert r == r[..i] + r[i..] && w == w[..i] + w[i..];
  }

  lemma {:induction false} DrainedIsSorted<T(!new)>(cmp: Compare<T>, s: seq<T>, i: int)
    requires TotalPreorder(cmp) && -1 <= i < |s| && Draining(cmp, s, i)
    ensures Ordered(cmp, Drained(cmp, s, i), 0)
    ensures multiset(Drained(cmp, s, i)) == multiset(s)
    decreases i
  {
    hide TotalPreorder;
    hide Sift;
    if i > 0 {
      DrainStep(cmp, s, i);
      DrainedIsSorted(cmp, Sift(cmp, Swap(s, 0, i), 0, i - 1), i - 1);
    }
  }

  /**
   For every length and every total preorder: a permutation of the input, in order, whenever the sort
   stays inside the array; as intended it always does.
   */
  lemma SortIsCorrect<T(!new)>(reading: Reading, cmp: Compare<T>, s: seq<T>)
    requires TotalPreorder(cmp)
    ensures var r := SortedBy(reading, cmp, s);
      && (r.Some? <==> reading == Intended || !ReadsPast(cmp, s))
      && (r.Some? ==> Ordered(cmp, r.value, 0) && multiset(r.value) == multiset(s))
  {
    var i := |s| / 2 - 1;
    SortPastExact(cmp, s);
    HeapifiedIsHeap(cmp, s, i);
    DrainedIsSorted(cmp, Heapified(cmp, s, i), |s| - 1);
  }
}
