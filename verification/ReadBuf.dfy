/**
 The zero-copy read buffer: a list of fragments, a current fragment, an offset into it and a byte count.

 `BackUp` sets the offset and nothing ever clears it again; `clears` is the variant in which `Next`
 does, for comparison.
 */
module ReadModel {
  import opened Basics

  /** `it` is the next fragment to hand out, `pos` where in it to start, `read` the byte count. */
  datatype Reader = Reader(it: nat, pos: int, read: int)

  const START := Reader(0, 0, 0)

  type Fragments = seq<seq<Byte>>

  /** Bytes in the first `k` fragments. */
  function Sum(fs: Fragments, k: nat): nat
    requires k <= |fs|
  {
    if k == 0 then 0 else Sum(fs, k - 1) + |fs[k - 1]|
  }

  function Total(fs: Fragments): nat {
    Sum(fs, |fs|)
  }

  /** The size `Next` reports; negative when the stale offset is beyond the fragment. */
  function NextSize(fs: Fragments, r: Reader): int
    requires r.it < |fs|
  {
    |fs[r.it]| - r.pos
  }

  function Next(clears: bool, fs: Fragments, r: Reader): Reader
    requires r.it < |fs|
  {
    Reader(r.it + 1, if clears then 0 else r.pos, r.read + NextSize(fs, r))
  }

  function BackUp(fs: Fragments, r: Reader, count: int): Reader
    requires count > 0 ==> 0 < r.it <= |fs|
  {
    if count > 0 then Reader(r.it - 1, |fs[r.it - 1]| - count, r.read - count)
    else r.(read := r.read - count)
  }

  /** `Skip`: the reader afterwards, and how much of `count` was not skipped. */
  function Skip(clears: bool, fs: Fragments, r: Reader, count: int): (o: (Reader, int))
    requires r.it <= |fs|
    ensures r.it <= o.0.it <= |fs|
    decreases |fs| - r.it
  {
    if count <= 0 || r.it == |fs| then (r, count)
    else
      var size, n := NextSize(fs, r), Next(clears, fs, r);
      if size > count then (BackUp(fs, n, size - count), 0)
      else Skip(clears, fs, n, count - size)
  }

  predicate Skipped(o: (Reader, int)) {
    o.1 == 0
  }

  // ---------- Where a skip ends ----------

  /** The place of byte `target`, searched from fragment `it` on: fragment and offset, or the end. */
  function Land(fs: Fragments, it: nat, target: int): (l: (nat, int))
    requires it <= |fs|
    ensures it <= l.0 <= |fs| && l.1 >= 0
    ensures l.1 > 0 ==> l.0 < |fs| && l.1 < |fs[l.0]| && Sum(fs, l.0) + l.1 == target
    ensures target >= Sum(fs, it) ==> Sum(fs, l.0) + l.1 == Least(target, Total(fs))
    ensures target > Total(fs) ==> l == (|fs|, 0)
    decreases |fs| - it
  {
    SumGrows(fs, it, |fs|);
    if target <= Sum(fs, it) || it == |fs| then (it, 0)
    else
      SumGrows(fs, it + 1, |fs|);
      if target < Sum(fs, it + 1) then (it, target - Sum(fs, it)) else Land(fs, it + 1, target)
  }

  lemma {:induction false} SumGrows(fs: Fragments, i: nat, j: nat)
    requires i <= j <= |fs|
    ensures Sum(fs, i) <= Sum(fs, j)
  {
    if i < j {
      SumGrows(fs, i, j - 1);
    }
  }

  lemma SumStep(fs: Fragments, k: nat)
    requires k < |fs|
    ensures Sum(fs, k + 1) == Sum(fs, k) + |fs[k]|
  {
  }

  function Least(a: int, b: int): int {
    if a <= b then a else b
  }

  /** A reader that is where it should be: inside its fragment, or at its start, or at the end. */
  predicate Proper(fs: Fragments, r: Reader) {
    r.it <= |fs| && r.pos >= 0 && (r.pos > 0 ==> r.it < |fs| && r.pos < |fs[r.it]|)
  }

  function At(fs: Fragments, r: Reader): int
    requires r.it <= |fs|
  {
    Sum(fs, r.it) + r.pos
  }

  /** If `Next` cleared the offset, a skip would land exactly `count` bytes further, or at the end. */
  lemma {:induction false} ClearingSkipLands(fs: Fragments, r: Reader, count: int)
    requires Proper(fs, r) && count > 0
    ensures var (q, left) := Skip(true, fs, r, count);
      && (q.it, q.pos) == Land(fs, r.it, At(fs, r) + count) && Proper(fs, q)
      && left == count - Least(count, Total(fs) - At(fs, r))
      && q.read == r.read + count - left
    decreases |fs| - r.it
  {
    hide Sum;
    if r.it < |fs| {
      var size, n := NextSize(fs, r), Next(true, fs, r);
      SumStep(fs, r.it);
      SumGrows(fs, r.it + 1, |fs|);
      if count > size {
        ClearingSkipLands(fs, n, count - size);
      }
    }
  }

  /** With nothing stale to clear, the code and the clearing variant skip alike. */
  lemma {:induction false} FreshSkip(fs: Fragments, r: Reader, count: int)
    requires r.it <= |fs| && r.pos == 0
    ensures Skip(false, fs, r, count) == Skip(true, fs, r, count)
    decreases |fs| - r.it
  {
    if count > 0 && r.it < |fs| && NextSize(fs, r) <= count {
      FreshSkip(fs, Next(false, fs, r), count - NextSize(fs, r));
    }
  }

  /** A single skip from the start ends at the place of byte `n`, which the fragments alone determine. */
  lemma SkipLands(fs: Fragments, n: nat)
    ensures var (q, left) := Skip(false, fs, START, n);
      && (q.it, q.pos) == Land(fs, 0, n) && Proper(fs, q)
      && left == n - Least(n, Total(fs)) && q.read == Least(n, Total(fs)) == At(fs, q)
  {
    SumGrows(fs, 0, |fs|);
    if n > 0 {
      ClearingSkipLands(fs, START, n);
      FreshSkip(fs, START, n);
    }
  }

  // ---------- Fragments as one stream of bytes ----------

  /** Counting bytes by fragments is counting them in the whole. */
  lemma {:induction false} SumIsFlatten(fs: Fragments, k: nat)
    requires k <= |fs|
    ensures Sum(fs, k) == |Flatten(fs[..k])|
  {
    if k > 0 {
      SumIsFlatten(fs, k - 1);
      FlattenAppend(fs[..k - 1], fs[k - 1]);
      assert fs[..k] == fs[..k - 1] + [fs[k - 1]];
    }
  }

  lemma FromFragment(fs: Fragments, k: nat)
    requires k <= |fs|
    ensures Sum(fs, k) <= Total(fs) == |Flatten(fs)| && Flatten(fs)[Sum(fs, k)..] == Flatten(fs[k..])
  {
    hide Flatten;
    hide Sum;
    SumIsFlatten(fs, k);
    SumIsFlatten(fs, |fs|);
    assert fs[..|fs|] == fs && fs[..k] + fs[k..] == fs;
    FlattenSplits(fs[..k], fs[k..]);
  }

  /** All bytes from number `n` on; none beyond the end. */
  function From(fs: Fragments, n: nat): seq<Byte> {
    if n <= |Flatten(fs)| then Flatten(fs)[n..] else []
  }

  /** The rest of the fragment at the reader and the fragments behind it. */
  function Ahead(fs: Fragments, r: Reader): seq<Byte>
    requires Proper(fs, r)
  {
    if r.it == |fs| then [] else fs[r.it][r.pos..] + Flatten(fs[r.it + 1..])
  }

  lemma AheadOf(fs: Fragments, r: Reader)
    requires Proper(fs, r)
    ensures Ahead(fs, r) == From(fs, At(fs, r))
  {
    hide Flatten;
    hide Sum;
    FromFragment(fs, r.it);
    if r.it < |fs| {
      FirstFragment(fs, r.it);
      Inside(Flatten(fs), Sum(fs, r.it), fs[r.it], Flatten(fs[r.it + 1..]), r.pos);
    }
  }

  lemma FirstFragment(fs: Fragments, k: nat)
    requires k < |fs|
    ensures Flatten(fs[k..]) == fs[k] + Flatten(fs[k + 1..])
  {
    assert fs[k..][1..] == fs[k + 1..];
  }

  lemma Inside(s: seq<Byte>, k: nat, f: seq<Byte>, g: seq<Byte>, pos: nat)
    requires k <= |s| && s[k..] == f + g && pos <= |f|
    ensures s[k + pos..] == f[pos..] + g
  {
    assert s[k + pos..] == s[k..][pos..];
  }

  /**
   Unreading the last `k` bytes a `Next` handed out, up to its whole fragment, puts exactly those bytes
   ahead again and takes them off the count; unreading none changes nothing.
   */
  lemma BackUpUnreads(fs: Fragments, r: Reader, k: nat)
    requires Proper(fs, r) && r.it < |fs| && k <= NextSize(fs, r)
    ensures var n := Next(false, fs, r);
      var b := BackUp(fs, n, k);
      && b.read == n.read - k == r.read + NextSize(fs, r) - k
      && (k == 0 ==> b == n)
      && (k > 0 ==> Proper(fs, b) && At(fs, b) == Sum(fs, r.it + 1) - k
                    && Ahead(fs, b) == fs[r.it][|fs[r.it]| - k..] + Flatten(fs[r.it + 1..])
                    && Ahead(fs, b) == From(fs, Sum(fs, r.it + 1) - k))
  {
    hide Flatten;
    hide Sum;
    hide From;
    SumStep(fs, r.it);
    if k > 0 {
      AheadOf(fs, BackUp(fs, Next(false, fs, r), k));
    }
  }

  /** A count that is not positive moves nothing: the skip fails unless it is zero, the back-up only counts. */
  lemma NothingMoves(fs: Fragments, r: Reader, count: int)
    requires r.it <= |fs| && count <= 0
    ensures var o := Skip(false, fs, r, count); o.0 == r && (Skipped(o) <==> count == 0)
    ensures var b := BackUp(fs, r, count); (b.it, b.pos) == (r.it, r.pos) && b.read == r.read + -count
  {
  }

  /** Backing up the whole fragment undoes a `Next`. */
  lemma BackUpUndoesNext(fs: Fragments, r: Reader)
    requires Proper(fs, r) && r.it < |fs| && NextSize(fs, r) > 0
    ensures BackUp(fs, Next(false, fs, r), NextSize(fs, r)) == r
  {
  }

  /**
   A single skip from the start succeeds iff `n` bytes are there, counts them, and stands at byte `n`:
   the following `Next` hands out bytes from number `n` on, up to the end of a fragment.
   */
  lemma SingleSkip(fs: Fragments, n: nat)
    ensures Total(fs) == |Flatten(fs)|
    ensures var o := Skip(false, fs, START, n);
      && (Skipped(o) <==> n <= Total(fs))
      && o.0.read == Least(n, Total(fs)) == At(fs, o.0) && Proper(fs, o.0)
      && Ahead(fs, o.0) == From(fs, n)
      && (n < Total(fs) ==> o.0.it < |fs| && fs[o.0.it][o.0.pos..] <= Flatten(fs)[n..])
  {
    SkipLands(fs, n);
    FromFragment(fs, |fs|);
    AheadOf(fs, Skip(false, fs, START, n).0);
  }

  ghost predicate SkipsAdd(clears: bool, fs: Fragments, a: nat, b: nat) {
    var o := Skip(clears, fs, START, a);
    var p, q := Skip(clears, fs, o.0, b), Skip(clears, fs, START, a + b);
    p.0 == q.0 && (Skipped(o) && Skipped(p) <==> Skipped(q))
  }

  lemma {:induction false} ClearingSkipInTwo(fs: Fragments, r: Reader, a: nat, b: nat)
    requires r.it <= |fs| && 0 <= r.pos && (r.it < |fs| ==> r.pos <= |fs[r.it]|)
    ensures var o := Skip(true, fs, r, a);
      var p, q := Skip(true, fs, o.0, b), Skip(true, fs, r, a + b);
      p.0 == q.0 && q.1 == p.1 + o.1 && o.1 >= 0 && p.1 >= 0
    decreases |fs| - r.it
  {
    if a > 0 && r.it < |fs| {
      var size, n := NextSize(fs, r), Next(true, fs, r);
      if size <= a {
        ClearingSkipInTwo(fs, n, a - size, b);
      } else if b > 0 {
        ClearingSkipInTwo(fs, n, 0, if size <= a + b then a + b - size else 0);
      }
    } else if b > 0 && r.it < |fs| {
      var size := NextSize(fs, r);
      ClearingSkipInTwo(fs, Next(true, fs, r), 0, if size <= b then b - size else 0);
    }
  }

  /** If `Next` cleared the offset, two skips would be one. */
  lemma ClearingSkipsAdd(fs: Fragments, a: nat, b: nat)
    ensures SkipsAdd(true, fs, a, b)
  {
    ClearingSkipInTwo(fs, START, a, b);
  }

  // ---------- The stale offset ----------

  /** With a stale offset, a skip passes more bytes than it counts. */
  lemma {:induction false} StaleSkipOvershoots(fs: Fragments, r: Reader, count: int)
    requires r.it <= |fs| && r.pos > 0 && count >= 0
    ensures var (q, left) := Skip(false, fs, r, count);
      var target := At(fs, r) - r.pos + count;
      && q.it >= r.it && q.pos >= r.pos
      && (q.it < |fs| ==> (q.pos == r.pos && target <= Sum(fs, q.it)) || Sum(fs, q.it) + q.pos >= r.pos + target)
    decreases |fs| - r.it
  {
    if count > 0 && r.it < |fs| {
      var size := NextSize(fs, r);
      if size <= count {
        StaleSkipOvershoots(fs, Next(false, fs, r), count - size);
      }
    }
  }

  /** As written, two skips are one iff byte `a` starts a fragment or byte `a + b` is in the same one. */
  lemma SkipsAddExact(fs: Fragments, a: nat, b: nat)
    ensures SkipsAdd(false, fs, a, b) <==>
      var (it, pos) := Land(fs, 0, a);
      pos == 0 || a + b < Sum(fs, it + 1)
  {
    SkipLands(fs, a);
    FreshSkip(fs, START, a);
    FreshSkip(fs, START, a + b);
    var o := Skip(false, fs, START, a).0;
    if o.pos == 0 {
      FreshSkip(fs, o, b);
      ClearingSkipsAdd(fs, a, b);
    } else if b < NextSize(fs, o) {
      ClearingSkipsAdd(fs, a, b);
    } else {
      SumGrows(fs, o.it + 1, |fs|);
      LeavingOvershoots(fs, o, a, b);
    }
  }

  /** Skipping one byte and then two ends a byte too far. */
  lemma TwoSkipsFail()
    ensures var fs: Fragments := [[1, 2], [3, 4, 5]];
      && Skip(false, fs, Skip(false, fs, START, 1).0, 2) == (Reader(1, 2, 3), 0)
      && Skip(false, fs, START, 3) == (Reader(1, 1, 3), 0)
  {
    var fs: Fragments := [[1, 2], [3, 4, 5]];
    assert Skip(false, fs, START, 1) == (Reader(0, 1, 1), 0);
    assert Skip(false, fs, Reader(1, 1, 2), 1) == (Reader(1, 2, 3), 0);
    assert Skip(false, fs, Reader(1, 0, 2), 1) == (Reader(1, 1, 3), 0);
  }

  lemma LeavingOvershoots(fs: Fragments, o: Reader, a: nat, b: nat)
    requires Proper(fs, o) && o.pos > 0 && At(fs, o) == a && b >= NextSize(fs, o)
    ensures Skip(false, fs, o, b).0 != Skip(false, fs, START, a + b).0
  {
    SkipLands(fs, a + b);
    var n, q := Next(false, fs, o), Skip(false, fs, START, a + b).0;
    StaleSkipOvershoots(fs, n, b - NextSize(fs, o));
  }

  // ---------- Reading to the end ----------

  /** What repeated `Next` hands out; a fragment shorter than the offset hands out nothing. */
  function Delivered(fs: Fragments, r: Reader): seq<Byte>
    requires r.it <= |fs| && r.pos >= 0
    decreases |fs| - r.it
  {
    if r.it == |fs| then []
    else (if r.pos <= |fs[r.it]| then fs[r.it][r.pos..] else []) + Delivered(fs, Next(false, fs, r))
  }

  /** The byte count after reading to the end. */
  function CountAtEnd(fs: Fragments, r: Reader): int
    requires r.it <= |fs|
    decreases |fs| - r.it
  {
    if r.it == |fs| then r.read else CountAtEnd(fs, Next(false, fs, r))
  }

  lemma {:induction false} FreshDelivers(fs: Fragments, r: Reader)
    requires r.it <= |fs| && r.pos == 0
    ensures Delivered(fs, r) == Flatten(fs[r.it..])
    decreases |fs| - r.it
  {
    if r.it < |fs| {
      FreshDelivers(fs, Next(false, fs, r));
      FirstFragment(fs, r.it);
    }
  }

  /** By `Next` alone, a fully appended buffer hands out exactly its fragments in order. */
  lemma NextDeliversAll(fs: Fragments)
    ensures Delivered(fs, START) == Flatten(fs)
    ensures CountAtEnd(fs, START) == Total(fs)
  {
    FreshDelivers(fs, START);
    assert fs[0..] == fs;
    StaleCount(fs, START);
  }

  /** Every fragment costs the stale offset once. */
  lemma {:induction false} StaleCount(fs: Fragments, r: Reader)
    requires r.it <= |fs|
    ensures CountAtEnd(fs, r) == r.read + Total(fs) - Sum(fs, r.it) - r.pos * (|fs| - r.it)
    decreases |fs| - r.it
  {
    if r.it < |fs| {
      StaleCount(fs, Next(false, fs, r));
      assert r.pos * (|fs| - r.it) == r.pos * (|fs| - r.it - 1) + r.pos;
    }
  }

  /** A stale offset costs a byte of every fragment that has one. */
  lemma {:induction false} StaleDelivers(fs: Fragments, r: Reader)
    requires r.it <= |fs| && r.pos > 0
    ensures |Delivered(fs, r)| <= Total(fs) - Sum(fs, r.it)
    ensures |Delivered(fs, r)| == Total(fs) - Sum(fs, r.it) <==> Sum(fs, r.it) == Total(fs)
    decreases |fs| - r.it
  {
    if r.it < |fs| {
      SumGrows(fs, r.it + 1, |fs|);
      StaleDelivers(fs, Next(false, fs, r));
    }
  }

  /**
   After one skip, reading to the end hands out every byte from number `n` on iff byte `n` starts a
   fragment or only empty fragments follow its own.
   */
  lemma SkipThenReadBytes(fs: Fragments, n: nat)
    ensures var o, l := Skip(false, fs, START, n).0, Land(fs, 0, n);
      o.pos >= 0 && (Delivered(fs, o) == From(fs, n) <==> l.1 == 0 || Sum(fs, l.0 + 1) == Total(fs))
  {
    hide Flatten;
    hide Skip;
    SkipLands(fs, n);
    SingleSkip(fs, n);
    var o := Skip(false, fs, START, n).0;
    if o.pos == 0 {
      FreshDelivers(fs, o);
      if o.it < |fs| {
        FirstFragment(fs, o.it);
      }
    } else {
      StaleDelivers(fs, Next(false, fs, o));
      FromFragment(fs, o.it + 1);
    }
  }

  /** After one skip, reading to the end counts every byte iff byte `n` starts a fragment or is in the last one. */
  lemma SkipThenReadExact(fs: Fragments, n: nat)
    ensures CountAtEnd(fs, Skip(false, fs, START, n).0) == Total(fs) <==>
      var (it, pos) := Land(fs, 0, n);
      pos == 0 || it == |fs| - 1
  {
    SkipLands(fs, n);
    var o := Skip(false, fs, START, n).0;
    StaleCount(fs, o);
    Product(o.pos, |fs| - o.it);
  }

  /** After skipping one byte of five, the byte 3 is never handed out, and four bytes are counted. */
  lemma SkipThenReadFails()
    ensures var fs: Fragments := [[1, 2], [3, 4, 5]];
      var o := Skip(false, fs, START, 1).0;
      o == Reader(0, 1, 1) && Delivered(fs, o) == [2, 4, 5] && CountAtEnd(fs, o) == 4
  {
    var fs: Fragments := [[1, 2], [3, 4, 5]];
    var o := Reader(0, 1, 1);
    assert Skip(false, fs, START, 1) == (o, 0);
    assert Delivered(fs, Reader(2, 1, 4)) == [];
    assert Delivered(fs, Reader(1, 1, 2)) == [4, 5];
    assert CountAtEnd(fs, Reader(1, 1, 2)) == 4;
  }

  lemma Product(p: int, k: int)
    requires p >= 0 && k >= 0 && (k == 0 ==> p == 0)
    ensures p * k == p <==> p == 0 || k == 1
  {
  }
}

/** The buffer object. */
module ReadObject {
  import opened Basics
  import opened ReadModel

  class MReadBuf {
    var fragments: Fragments
    var curIt: nat
    var curPos: int
    var readBytes: int
    var totalBytes: nat

    ghost predicate Valid()
      reads this
    {
      curIt <= |fragments| && totalBytes == Total(fragments)
    }

    ghost function Abs(): Reader
      reads this
    {
      Reader(curIt, curPos, readBytes)
    }

    constructor ()
      ensures Valid() && fragments == [] && Abs() == START
    {
      fragments, curIt, curPos, readBytes, totalBytes := [], 0, 0, 0, 0;
    }

    /** Appending starts the reading over, but leaves the offset and the count. */
    method Append(fragment: seq<Byte>)
      requires Valid()
      modifies this
      ensures Valid() && fragments == old(fragments) + [fragment] && Abs() == old(Abs()).(it := 0)
      ensures totalBytes == old(totalBytes) + |fragment|
    {
      SumOfPrefix(fragments, fragments + [fragment], |fragments|);
      fragments := fragments + [fragment];
      curIt := 0;
      totalBytes := totalBytes + |fragment|;
    }

    /** `Next`: the size it reports, and the bytes when that size is not negative. */
    method NextChunk() returns (size: Option<int>, data: seq<Byte>)
      requires Valid()
      modifies this`curIt, this`readBytes
      ensures Valid() && (size.None? <==> old(curIt) == |fragments|)
      ensures size.Some? && 0 <= curPos <= |fragments[old(curIt)]| ==> data == fragments[old(curIt)][curPos..]
      ensures size.None? ==> Abs() == old(Abs())
      ensures size.Some? ==> size.value == NextSize(fragments, old(Abs())) && Abs() == Next(false, fragments, old(Abs()))
    {
      if curIt == |fragments| {
        return None, [];
      }
      data := if 0 <= curPos <= |fragments[curIt]| then fragments[curIt][curPos..] else [];
      size := Some(|fragments[curIt]| - curPos);
      curIt := curIt + 1;
      readBytes := readBytes + size.value;
    }

    method BackUpBy(count: int)
      requires Valid() && (count > 0 ==> curIt > 0)
      modifies this`curIt, this`curPos, this`readBytes
      ensures Valid() && Abs() == BackUp(fragments, old(Abs()), count) && readBytes == old(readBytes) - count
      ensures 0 < count && count <= |fragments[old(curIt) - 1]| ==>
        && curIt == old(curIt) - 1 && Proper(fragments, Abs())
        && Ahead(fragments, Abs()) == fragments[curIt][|fragments[curIt]| - count..] + Flatten(fragments[curIt + 1..])
      ensures count <= 0 ==> curIt == old(curIt) && curPos == old(curPos)
    {
      if count > 0 {
        curIt := curIt - 1;
        curPos := |fragments[curIt]| - count;
      }
      readBytes := readBytes - count;
    }

    method SkipBy(count: int) returns (ok: bool)
      requires Valid()
      modifies this`curIt, this`curPos, this`readBytes
      ensures Valid() && Abs() == Skip(false, fragments, old(Abs()), count).0
      ensures ok == Skipped(Skip(false, fragments, old(Abs()), count))
    {
      var left := count;
      while left > 0 && curIt < |fragments|
        invariant Valid() && Skip(false, fragments, Abs(), left) == Skip(false, fragments, old(Abs()), count)
        decreases left > 0, |fragments| - curIt
      {
        var next, data := NextChunk();
        var size := next.value;
        if size > left {
          BackUpBy(size - left);
          size := left;
        }
        left := left - size;
      }
      ok := left == 0;
    }

    lemma {:induction false} SumOfPrefix(a: Fragments, b: Fragments, k: nat)
      requires k <= |a| <= |b| && b[..|a|] == a
      ensures Sum(a, k) == Sum(b, k)
    {
      if k > 0 {
        SumOfPrefix(a, b, k - 1);
        assert a[k - 1] == b[..|a|][k - 1];
      }
    }
  }
}
