/**
 The chained hash table: buckets of linked nodes, a power-of-two number of buckets, and a resize that
 relinks every node in place.
 */
module HashModel {
  import opened Basics

  /** What identifies a node to a lookup. */
  datatype Entry = Entry(hash: nat, key: string)

  // ---------- Bucket index ----------

  /** `a & b`, bit by bit. */
  function BitAnd(a: nat, b: nat): nat
    decreases a
  {
    if a == 0 || b == 0 then 0
    else (if a % 2 == 1 && b % 2 == 1 then 1 else 0) + 2 * BitAnd(a / 2, b / 2)
  }

  predicate PowerOfTwo(m: nat)
  {
    m == 1 || (m > 1 && m % 2 == 0 && PowerOfTwo(m / 2))
  }

  /** One of 4, 16, 64, ... */
  predicate Quadrupled(m: nat) {
    m == 4 || (m > 4 && m % 4 == 0 && Quadrupled(m / 4))
  }

  lemma {:induction false} QuadrupledIsPower(m: nat)
    requires Quadrupled(m)
    ensures PowerOfTwo(m) && m >= 4
  {
    if m == 4 {
      assert PowerOfTwo(2);
    } else {
      QuadrupledIsPower(m / 4);
      assert m / 2 / 2 == m / 4;
    }
  }

  function Index(hash: nat, m: nat): nat
    requires m > 0
  {
    BitAnd(hash, m - 1)
  }

  /** Masking with a power of two less one is the remainder. */
  lemma {:induction false} IndexIsRemainder(hash: nat, m: nat)
    requires PowerOfTwo(m)
    ensures Index(hash, m) == hash % m && Index(hash, m) < m
    decreases m
  {
    if m == 1 {
      assert BitAnd(hash, 0) == 0;
    } else if hash == 0 {
    } else {
      IndexIsRemainder(hash / 2, m / 2);
      var a, b := hash / 2, m / 2;
      assert m == 2 * b && (m - 1) % 2 == 1 && (m - 1) / 2 == b - 1;
      Halves(hash, b);
    }
  }

  lemma Halves(hash: nat, b: nat)
    requires b > 0
    ensures hash % (2 * b) == hash % 2 + 2 * ((hash / 2) % b)
  {
    var q, r := (hash / 2) / b, (hash / 2) % b;
    assert hash == 2 * (q * b + r) + hash % 2;
    assert 2 * (q * b) == q * (2 * b);
    Remainder(hash, 2 * b, q, 2 * r + hash % 2);
  }

  lemma Remainder(x: nat, m: nat, q: nat, r: nat)
    requires m > 0 && x == q * m + r && r < m
    ensures x % m == r
  {
    var d := x / m - q;
    assert x == m * (x / m) + x % m;
    assert m * (x / m) == m * q + m * d;
    assert m * d == r - x % m;
    AtLeastOne(m, d);
  }

  lemma AtLeastOne(m: nat, d: int)
    ensures d >= 1 ==> m * d >= m
    ensures d <= -1 ==> m * d <= 0 - m
  {
  }

  // ---------- Chains ----------

  /** Bucket `b` after the entries `es` were pushed, one by one, to the front of their buckets. */
  function Placed(es: seq<Entry>, b: nat, m: nat): seq<Entry>
    requires m > 0
  {
    if es == [] then []
    else
      var l, rest := es[|es| - 1], Placed(es[..|es| - 1], b, m);
      if Index(l.hash, m) == b then [l] + rest else rest
  }

  lemma {:induction false} PlacedMembers(es: seq<Entry>, b: nat, m: nat)
    requires m > 0
    ensures forall e :: e in Placed(es, b, m) <==> e in es && Index(e.hash, m) == b
    ensures Distinct(es) ==> Distinct(Placed(es, b, m))
  {
    if es != [] {
      var l, init := es[|es| - 1], es[..|es| - 1];
      PlacedMembers(init, b, m);
      assert es == init + [l];
      assert Distinct(es) ==> l !in init;
    }
  }

  /** The number of entries that go to buckets below `k`. */
  function CountBelow(es: seq<Entry>, k: nat, m: nat): nat
    requires m > 0
  {
    if k == 0 then 0 else CountBelow(es, k - 1, m) + |Placed(es, k - 1, m)|
  }

  lemma {:induction false} PlacedCount(es: seq<Entry>, k: nat, m: nat)
    requires m > 0
    ensures es == [] ==> CountBelow(es, k, m) == 0
    ensures es != [] ==> var l, init := es[|es| - 1], es[..|es| - 1];
      CountBelow(es, k, m) == CountBelow(init, k, m) + if Index(l.hash, m) < k then 1 else 0
  {
    if k > 0 {
      PlacedCount(es, k - 1, m);
    }
  }

  /** Spreading over the buckets neither loses nor duplicates an entry. */
  lemma {:induction false} AllPlaced(es: seq<Entry>, m: nat)
    requires PowerOfTwo(m)
    ensures CountBelow(es, m, m) == |es|
  {
    PlacedCount(es, m, m);
    if es != [] {
      IndexIsRemainder(es[|es| - 1].hash, m);
      AllPlaced(es[..|es| - 1], m);
    }
  }

  // ---------- The table as a value ----------

  /** Every entry is in the bucket of its hash, and no bucket holds one twice. */
  predicate Shaped(chains: seq<seq<Entry>>, m: nat) {
    && |chains| == m && (m > 0 ==> PowerOfTwo(m))
    && (forall i, e :: 0 <= i < m && e in chains[i] ==> Index(e.hash, m) == i)
    && (forall i :: 0 <= i < m ==> Distinct(chains[i]))
  }

  function Bucket(e: Entry, m: nat): (b: nat)
    requires PowerOfTwo(m)
    ensures b < m && b == e.hash % m
  {
    IndexIsRemainder(e.hash, m);
    Index(e.hash, m)
  }

  /** Does `lookup` find the entry in its bucket? */
  predicate Present(chains: seq<seq<Entry>>, e: Entry)
    requires Shaped(chains, |chains|)
  {
    |chains| > 0 && e in chains[Bucket(e, |chains|)]
  }

  function Rehashed(es: seq<Entry>, m: nat): seq<seq<Entry>>
    requires m > 0
  {
    seq(m, b requires 0 <= b < m => Placed(es, b, m))
  }

  lemma PrefixStep(chains: seq<seq<Entry>>, i: nat)
    requires i < |chains|
    ensures Flatten(chains[..i + 1]) == Flatten(chains[..i]) + chains[i]
  {
    FlattenAppend(chains[..i], chains[i]);
    assert chains[..i + 1] == chains[..i] + [chains[i]];
  }

  lemma {:induction false} PrefixMembers(chains: seq<seq<Entry>>, i: nat)
    requires i <= |chains|
    ensures forall e :: e in Flatten(chains[..i]) <==> exists j :: 0 <= j < i && e in chains[j]
  {
    if i == 0 {
      assert chains[..0] == [];
    } else {
      PrefixMembers(chains, i - 1);
      PrefixStep(chains, i - 1);
    }
  }

  lemma {:induction false} PrefixDistinct(chains: seq<seq<Entry>>, m: nat, i: nat)
    requires Shaped(chains, m) && i <= m
    ensures Distinct(Flatten(chains[..i]))
  {
    if i == 0 {
      assert chains[..0] == [];
    } else {
      PrefixDistinct(chains, m, i - 1);
      PrefixStep(chains, i - 1);
      PrefixApart(chains, m, i - 1);
      JoinDistinct(Flatten(chains[..i - 1]), chains[i - 1]);
    }
  }

  /** No entry is in two buckets. */
  lemma PrefixApart(chains: seq<seq<Entry>>, m: nat, i: nat)
    requires Shaped(chains, m) && i < m
    ensures forall x :: x in Flatten(chains[..i]) ==> x !in chains[i]
  {
    PrefixMembers(chains, i);
    forall x | x in Flatten(chains[..i]) ensures x !in chains[i] {
      var j :| 0 <= j < i && x in chains[j];
      assert Index(x.hash, m) == j;
    }
  }

  lemma JoinDistinct(a: seq<Entry>, b: seq<Entry>)
    requires Distinct(a) && Distinct(b) && forall x :: x in a ==> x !in b
    ensures Distinct(a + b)
  {
    var s := a + b;
    forall i, j | 0 <= i < j < |s| ensures s[i] != s[j] {
      if i < |a| <= j {
        assert s[i] in a && s[j] in b;
      }
    }
  }

  lemma AllDistinct(chains: seq<seq<Entry>>)
    requires Shaped(chains, |chains|)
    ensures Distinct(Flatten(chains))
  {
    assert chains[..|chains|] == chains;
    PrefixDistinct(chains, |chains|, |chains|);
  }

  /** A lookup finds an entry exactly when some chain holds it. */
  lemma PresentIffStored(chains: seq<seq<Entry>>, e: Entry)
    requires Shaped(chains, |chains|)
    ensures Distinct(Flatten(chains))
    ensures Present(chains, e) <==> e in Flatten(chains)
  {
    var m := |chains|;
    assert chains[..m] == chains;
    AllDistinct(chains);
    PrefixMembers(chains, m);
  }

  /** Rehashing yields a well-shaped table with exactly the same entries, each once. */
  lemma RehashedShape(es: seq<Entry>, m: nat)
    requires Distinct(es) && PowerOfTwo(m)
    ensures Shaped(Rehashed(es, m), m)
    ensures forall e :: e in Flatten(Rehashed(es, m)) <==> e in es
    ensures |Flatten(Rehashed(es, m))| == |es|
  {
    var r := Rehashed(es, m);
    assert r[..m] == r;
    forall b | 0 <= b < m
      ensures Distinct(r[b]) && forall e :: e in r[b] <==> e in es && Index(e.hash, m) == b
    {
      PlacedMembers(es, b, m);
    }
    PrefixMembers(r, m);
    forall e | e in es ensures e in Flatten(r) {
      assert e in r[Bucket(e, m)];
    }
    PrefixCount(es, m, m);
    AllPlaced(es, m);
  }

  lemma {:induction false} PrefixCount(es: seq<Entry>, m: nat, k: nat)
    requires m > 0 && k <= m
    ensures |Flatten(Rehashed(es, m)[..k])| == CountBelow(es, k, m)
  {
    var r := Rehashed(es, m);
    if k == 0 {
      assert r[..0] == [];
    } else {
      PrefixCount(es, m, k - 1);
      PrefixStep(r, k - 1);
    }
  }

  /** Resizing changes the answer of no lookup. */
  lemma ResizeKeepsLookups(chains: seq<seq<Entry>>, m: nat, e: Entry)
    requires Shaped(chains, |chains|) && PowerOfTwo(m)
    ensures Shaped(Rehashed(Flatten(chains), m), m)
    ensures Present(Rehashed(Flatten(chains), m), e) <==> Present(chains, e)
  {
    PresentIffStored(chains, e);
    RehashedShape(Flatten(chains), m);
    PresentIffStored(Rehashed(Flatten(chains), m), e);
  }

  // ---------- Inserting ----------

  /** Position of `e` in the chain, or its length. */
  function Position(chain: seq<Entry>, e: Entry): (p: nat)
    ensures p <= |chain| && e !in chain[..p] && (p < |chain| ==> chain[p] == e)
  {
    if chain == [] || chain[0] == e then 0
    else
      var p := Position(chain[1..], e);
      assert chain[..p + 1] == [chain[0]] + chain[1..][..p];
      p + 1
  }

  /** Moving nodes to the front of their buckets turns the order of those that meet around. */
  lemma {:induction false} PlacedReverses(es: seq<Entry>, b: nat, m: nat, i: nat, j: nat)
    requires m > 0 && Distinct(es) && i < j < |es| && Index(es[i].hash, m) == Index(es[j].hash, m) == b
    ensures Position(Placed(es, b, m), es[j]) < Position(Placed(es, b, m), es[i])
  {
    var n := |es| - 1;
    var l, init := es[n], es[..n];
    assert es[i] == init[i] && es[i] != l;
    if j < n {
      assert es[j] == init[j] && es[j] != l;
      PlacedReverses(init, b, m, i, j);
    }
    if Index(l.hash, m) == b {
      assert Placed(es, b, m)[1..] == Placed(init, b, m);
    }
  }

  /** The chain after the link at the position of `e` was overwritten with a node that has no successor. */
  function Spliced(chain: seq<Entry>, e: Entry): seq<Entry> {
    chain[..Position(chain, e)] + [e]
  }

  function Inserted(chains: seq<seq<Entry>>, e: Entry): seq<seq<Entry>>
    requires Shaped(chains, |chains|) && |chains| > 0
  {
    var b := Bucket(e, |chains|);
    chains[b := Spliced(chains[b], e)]
  }

  /** A new entry goes to the end of its chain. */
  lemma InsertedAtEnd(chains: seq<seq<Entry>>, e: Entry, b: nat)
    requires Shaped(chains, |chains|) && |chains| > 0 && !Present(chains, e) && b < |chains|
    ensures Inserted(chains, e)[b] == chains[b] + if b == e.hash % |chains| then [e] else []
  {
    var i := Bucket(e, |chains|);
    assert Position(chains[i], e) == |chains[i]|;
    assert chains[i][..|chains[i]|] == chains[i];
  }

  lemma InsertedShape(chains: seq<seq<Entry>>, e: Entry)
    requires Shaped(chains, |chains|) && |chains| > 0
    ensures Shaped(Inserted(chains, e), |chains|) && Present(Inserted(chains, e), e)
  {
  }

  /** Nothing but `e` is new after an insertion. */
  lemma InsertedMembers(chains: seq<seq<Entry>>, e: Entry)
    requires Shaped(chains, |chains|) && |chains| > 0
    ensures Shaped(Inserted(chains, e), |chains|)
    ensures e in Flatten(Inserted(chains, e))
    ensures forall x :: x in Flatten(Inserted(chains, e)) ==> x == e || x in Flatten(chains)
  {
    hide BitAnd;
    hide PowerOfTwo;
    hide Flatten;
    InsertedShape(chains, e);
    var d := Inserted(chains, e);
    PresentIffStored(d, e);
    forall x | x in Flatten(d) ensures x == e || x in Flatten(chains) {
      PresentIffStored(d, x);
      PresentIffStored(chains, x);
    }
  }

  /** Inserting an absent entry adds it and changes no other lookup. */
  lemma InsertAbsent(chains: seq<seq<Entry>>, e: Entry, x: Entry)
    requires Shaped(chains, |chains|) && |chains| > 0 && !Present(chains, e)
    ensures Shaped(Inserted(chains, e), |chains|)
    ensures Present(Inserted(chains, e), x) <==> x == e || Present(chains, x)
    ensures |Flatten(Inserted(chains, e))| == |Flatten(chains)| + 1
  {
    InsertedShape(chains, e);
    var b := Bucket(e, |chains|);
    assert Position(chains[b], e) == |chains[b]|;
    assert chains[b][..|chains[b]|] == chains[b];
    ReplaceCount(chains, b, Spliced(chains[b], e));
  }

  lemma {:induction false} ReplaceCount(chains: seq<seq<Entry>>, b: nat, c: seq<Entry>)
    requires b < |chains|
    ensures |Flatten(chains[b := c])| == |Flatten(chains)| - |chains[b]| + |c|
  {
    if b == 0 {
      assert chains[b := c][1..] == chains[1..];
    } else {
      ReplaceCount(chains[1..], b - 1, c);
      assert chains[b := c][1..] == chains[1..][b - 1 := c];
    }
  }

  /** The entries behind `e` in its chain. */
  function Behind(chains: seq<seq<Entry>>, e: Entry): seq<Entry>
    requires Shaped(chains, |chains|) && Present(chains, e)
  {
    var c := chains[Bucket(e, |chains|)];
    c[Position(c, e) + 1..]
  }

  /** Replacing a stored entry loses exactly the entries behind it. */
  lemma InsertPresent(chains: seq<seq<Entry>>, e: Entry, x: Entry)
    requires Shaped(chains, |chains|) && Present(chains, e)
    ensures Shaped(Inserted(chains, e), |chains|)
    ensures Present(Inserted(chains, e), x) <==> Present(chains, x) && x !in Behind(chains, e)
  {
    hide BitAnd;
    hide PowerOfTwo;
    InsertedShape(chains, e);
    var c := chains[Bucket(e, |chains|)];
    var p := Position(c, e);
    assert c == c[..p] + [e] + c[p + 1..];
    assert x in c[p + 1..] ==> x in c && x !in c[..p] + [e] by {
      if x in c[p + 1..] {
        var k :| p < k < |c| && c[k] == x;
      }
    }
  }

  /** Replacing a stored entry keeps every lookup iff the old node was the last of its chain. */
  lemma InsertPresentExact(chains: seq<seq<Entry>>, e: Entry)
    requires Shaped(chains, |chains|) && |chains| > 0 && Present(chains, e)
    ensures Shaped(Inserted(chains, e), |chains|)
    ensures var c := chains[Bucket(e, |chains|)];
      (forall x :: Present(Inserted(chains, e), x) <==> Present(chains, x)) <==> Position(c, e) == |c| - 1
  {
    InsertedShape(chains, e);
    var m := |chains|;
    var b := Bucket(e, m);
    var c, d := chains[b], Inserted(chains, e);
    var p := Position(c, e);
    if p == |c| - 1 {
      assert c[..p] + [e] == c;
      assert d == chains;
    } else {
      var x := c[p + 1];
      assert x in c && Bucket(x, m) == b && x != e;
      assert x !in c[..p];
      assert Present(chains, x) && !Present(d, x);
    }
  }

  /** Two keys in one bucket: inserting the first again loses the second. */
  lemma ReplacingLosesTheRest()
    ensures var a, b := Entry(0, "a"), Entry(4, "b");
      var chains := [[a, b], [], [], []];
      && Shaped(chains, 4) && Present(chains, a) && Present(chains, b)
      && Shaped(Inserted(chains, a), 4) && !Present(Inserted(chains, a), b)
  {
    var a, b := Entry(0, "a"), Entry(4, "b");
    var chains := [[a, b], [], [], []];
    assert a.key[0] != b.key[0];
    assert PowerOfTwo(4) by {
      assert PowerOfTwo(2);
    }
    IndexIsRemainder(0, 4);
    IndexIsRemainder(4, 4);
    assert Position(chains[0], a) == 0;
    InsertedShape(chains, a);
    assert Inserted(chains, a)[0] == [a];
  }
}

/** The table on the heap; line numbers are those of utils/hashtable.h. */
module HashObject {
  import opened Basics
  import opened HashModel

  /** A stored node; its hash and key never change, its link does. */
  class Node {
    const hash: nat
    const key: string
    var next: Node?

    constructor (h: nat, k: string)
      ensures hash == h && key == k && next == null
    {
      hash, key, next := h, k, null;
    }
  }

  type Directory = map<Entry, Node>

  /** Each entry's node carries that entry; so different entries have different nodes. */
  ghost predicate Named(dir: Directory) {
    forall e :: e in dir ==> dir[e].hash == e.hash && dir[e].key == e.key
  }

  /** Following `next` from `h` visits exactly the nodes of `es`, in order, and arrives at `end`. */
  ghost predicate Path(h: Node?, es: seq<Entry>, end: Node?, dir: Directory)
    reads set e | e in es && e in dir :: dir[e]
    decreases |es|
  {
    if es == [] then h == end
    else es[0] in dir && h == dir[es[0]] && Path(h.next, es[1..], end, dir)
  }

  ghost predicate Linked(h: Node?, es: seq<Entry>, dir: Directory)
    reads set e | e in es && e in dir :: dir[e]
  {
    Path(h, es, null, dir)
  }

  lemma {:induction false} PathExtends(h: Node?, es: seq<Entry>, e: Entry, dir: Directory)
    requires e in dir && Path(h, es, dir[e], dir)
    ensures Path(h, es + [e], dir[e].next, dir)
    decreases |es|
  {
    if es == [] {
      assert (es + [e])[1..] == [];
    } else {
      assert (es + [e])[1..] == es[1..] + [e];
      PathExtends(h.next, es[1..], e, dir);
    }
  }

  /** Only the directory entries of the path matter. */
  lemma {:induction false} PathAgrees(h: Node?, es: seq<Entry>, end: Node?, dir: Directory, dir': Directory)
    requires Path(h, es, end, dir)
    requires forall e :: e in es && e in dir ==> e in dir' && dir'[e] == dir[e]
    ensures Path(h, es, end, dir')
    decreases |es|
  {
    if es != [] {
      assert forall e :: e in es[1..] ==> e in es;
      PathAgrees(h.next, es[1..], end, dir, dir');
    }
  }

  /** The buckets of `list` hold the entries `es`, pushed in order. */
  ghost predicate Spread(list: array<Node?>, es: seq<Entry>, dir: Directory)
    reads list, dir.Values
  {
    list.Length > 0 && forall b :: 0 <= b < list.Length ==> Linked(list[b], Placed(es, b, list.Length), dir)
  }

  lemma EmptySpread(list: array<Node?>, dir: Directory)
    requires list.Length > 0 && forall b :: 0 <= b < list.Length ==> list[b] == null
    ensures Spread(list, [], dir)
  {
  }

  /** Lines 119-124: move one node to the front of its new bucket. */
  method PushFront(l: Node, list: array<Node?>, ghost es: seq<Entry>, ghost e: Entry, ghost dir: Directory)
    requires Named(dir) && Spread(list, es, dir) && PowerOfTwo(list.Length)
    requires e in dir && dir[e] == l && e !in es
    modifies list, l
    ensures Spread(list, es + [e], dir)
  {
    var m := list.Length;
    IndexIsRemainder(l.hash, m);
    var b := Index(l.hash, m);
    ghost var chain := Placed(es, b, m);
    PlacedMembers(es, b, m);
    l.next := list[b];
    list[b] := l;
    assert Linked(l.next, chain, dir);
    assert ([e] + chain)[1..] == chain;
    assert Linked(l, [e] + chain, dir);
    assert (es + [e])[..|es|] == es;
    forall k | 0 <= k < m ensures Linked(list[k], Placed(es + [e], k, m), dir) {
      PlacedMembers(es, k, m);
    }
  }

  /** Lines 117-127: move a whole chain. */
  method MoveChain(head: Node?, list: array<Node?>, ghost es: seq<Entry>, ghost chain: seq<Entry>, ghost dir: Directory)
    returns (count: nat)
    requires Named(dir) && Spread(list, es, dir) && PowerOfTwo(list.Length)
    requires Linked(head, chain, dir) && Distinct(chain) && forall e :: e in chain ==> e !in es
    modifies list, set e | e in chain && e in dir :: dir[e]
    ensures Spread(list, es + chain, dir) && count == |chain|
  {
    hide PowerOfTwo;
    hide Spread;
    var l := head;
    ghost var k := 0;
    count := 0;
    assert chain[0..] == chain && es + chain[..0] == es;
    while l != null
      invariant 0 <= k <= |chain| && count == k
      invariant Linked(l, chain[k..], dir) && Spread(list, es + chain[..k], dir)
      decreases |chain| - k
    {
      var next := l.next;
      ghost var e := chain[k];
      assert chain[k..][1..] == chain[k + 1..];
      PushFront(l, list, es + chain[..k], e, dir);
      assert es + chain[..k] + [e] == es + chain[..k + 1];
      l := next;
      k := k + 1;
      count := count + 1;
    }
    assert chain[..k] == chain;
  }

  /** The link a search ends at: a bucket head, or the `next` of a node. */
  datatype Link = Head(index: nat) | Next(node: Node)

  class HashTable {
    var length: nat
    var elem: nat
    var list: array<Node?>
    ghost var chains: seq<seq<Entry>>
    ghost var dir: Directory

    /** The links are as the chains say. */
    ghost predicate Structured()
      reads this, list, dir.Values
    {
      && length == list.Length && Shaped(chains, length) && Named(dir)
      && (forall e :: e in dir <==> e in Flatten(chains))
      && forall i :: 0 <= i < length ==> Linked(list[i], chains[i], dir)
    }

    ghost predicate Valid()
      reads this, list, dir.Values
    {
      Structured() && length > 0 && elem == |Flatten(chains)| && elem <= length
    }

    /** Lines 109-112: the least length 4, 16, 64, ... that is not below `n`. */
    method NewLength(n: nat) returns (m: nat)
      ensures Quadrupled(m) && m >= n && (m > 4 ==> m / 4 < n)
      ensures PowerOfTwo(m) && m >= 4
    {
      m := 4;
      while m < n
        invariant Quadrupled(m) && (m > 4 ==> m / 4 < n)
        decreases n - m
      {
        m := m * 4;
      }
      QuadrupledIsPower(m);
    }

    /** The chains from bucket `i` on are still linked as they were. */
    ghost predicate LinkedFrom(i: nat)
      reads this, list, dir.Values
    {
      && length == list.Length == |chains| && i <= length
      && forall j :: i <= j < length ==> Linked(list[j], chains[j], dir)
    }

    /** One bucket: its nodes move, the later buckets stay. */
    method MoveBucket(i: nat, newList: array<Node?>) returns (n: nat)
      requires Shaped(chains, length) && Named(dir) && i < length && LinkedFrom(i)
      requires newList != list && PowerOfTwo(newList.Length) && Spread(newList, Flatten(chains[..i]), dir)
      modifies newList, dir.Values
      ensures Spread(newList, Flatten(chains[..i + 1]), dir) && LinkedFrom(i + 1) && n == |chains[i]|
    {
      PrefixApart(chains, length, i);
      PrefixMembers(chains, i);
      PrefixStep(chains, i);
      hide PowerOfTwo;
      hide Index;
      hide Placed;
      hide Flatten;
      n := MoveChain(list[i], newList, Flatten(chains[..i]), chains[i], dir);
    }

    /** Lines 115-128: all chains, in order of their buckets. */
    method MoveAll(newList: array<Node?>) returns (count: nat)
      requires Structured() && newList != list && PowerOfTwo(newList.Length) && Spread(newList, [], dir)
      modifies newList, dir.Values
      ensures Spread(newList, Flatten(chains), dir) && count == |Flatten(chains)|
    {
      assert chains[..0] == [] && Flatten(chains[..0]) == [] && chains[..length] == chains;
      hide PowerOfTwo;
      hide Spread;
      hide Flatten;
      hide Linked;
      count := 0;
      var i := 0;
      while i < length
        invariant 0 <= i <= length && count == |Flatten(chains[..i])|
        invariant Spread(newList, Flatten(chains[..i]), dir) && LinkedFrom(i)
      {
        PrefixStep(chains, i);
        var n := MoveBucket(i, newList);
        count := count + n;
        i := i + 1;
      }
    }

    /** `resize`: every node relinked into a new list; the nodes stay the same, and the count is theirs. */
    method Resize() returns (count: nat)
      requires Structured()
      modifies this`list, this`length, this`chains, dir.Values
      ensures Structured() && fresh(list) && PowerOfTwo(length) && length >= elem && length >= 4
      ensures Quadrupled(length) && (length > 4 ==> length / 4 < elem)
      ensures chains == Rehashed(Flatten(old(chains)), length)
      ensures count == |Flatten(old(chains))|
    {
      hide PowerOfTwo;
      hide Index;
      hide Placed;
      hide Flatten;
      ghost var all := Flatten(chains);
      AllDistinct(chains);
      var m := NewLength(elem);
      var newList := new Node?[m](_ => null);
      EmptySpread(newList, dir);
      count := MoveAll(newList);
      RehashedShape(all, m);
      list, length, chains := newList, m, Rehashed(all, m);
    }

    constructor ()
      ensures Valid() && fresh(list) && Flatten(chains) == [] && dir == map[] && elem == 0 && length == 4
    {
      length, elem, chains, dir := 0, 0, [], map[];
      list := new Node?[0];
      new;
      var count := Resize();
      RehashedShape([], length);
    }

    /** `find_node`: the link to the matching node, or the null link at the end of its chain. */
    method FindNode(key: string, hash: nat) returns (link: Link, node: Node?, ghost b: nat, ghost p: nat)
      requires Structured() && length > 0
      ensures b == Bucket(Entry(hash, key), length) && p == Position(chains[b], Entry(hash, key))
      ensures LinkAt(link, b, list[b], chains[b], p, dir)
      ensures p == |chains[b]| ==> node == null
      ensures p < |chains[b]| ==> Entry(hash, key) in dir && node == dir[Entry(hash, key)]
    {
      hide BitAnd;
      hide PowerOfTwo;
      b := Bucket(Entry(hash, key), length);
      var index := Index(hash, length);
      link, node, p := Walk(index, list[index], key, hash, chains[b], dir);
    }

    /** Line 94: overwrite the link found for `l` with `l`. */
    method WriteLink(link: Link, l: Node, ghost b: nat, ghost p: nat)
      requires Structured() && b < length && p <= |chains[b]| && SpliceReady(l, dir)
      requires LinkAt(link, b, list[b], chains[b], p, dir)
      modifies list, dir.Values
      ensures l.next == old(l.next)
      ensures forall j :: 0 <= j < length && j != b ==> Linked(list[j], chains[j], dir)
      ensures if p == 0 then list[b] == l
              else var e := chains[b][p - 1];
                e in dir && Path(list[b], chains[b][..p - 1], dir[e], dir) && dir[e].next == l
    {
      hide BitAnd;
      hide PowerOfTwo;
      hide Flatten;
      assert p > 0 ==> chains[b][p - 1] in chains[b];
      match link {
        case Head(i) => list[i] := l;
        case Next(n) => n.next := l;
      }
    }

    method Splice(link: Link, l: Node, ghost b: nat, ghost p: nat)
      requires Structured() && length > 0 && l.next == null && SpliceReady(l, dir)
      requires b == Bucket(Entry(l.hash, l.key), length) && p == Position(chains[b], Entry(l.hash, l.key))
      requires LinkAt(link, b, list[b], chains[b], p, dir)
      modifies list, dir.Values
      ensures l.next == null && forall j :: 0 <= j < length ==>
        Linked(list[j], Inserted(chains, Entry(l.hash, l.key))[j], SplicedDir(chains, dir, l))
    {
      hide BitAnd;
      hide PowerOfTwo;
      hide Flatten;
      ghost var e, c := Entry(l.hash, l.key), chains[b];
      ghost var now := Inserted(chains, e);
      InsertedMembers(chains, e);
      ghost var r := SplicedDir(chains, dir, l);
      WriteLink(link, l, b, p);
      forall j | 0 <= j < length ensures Linked(list[j], now[j], r) {
        InBucket(now, j);
        if j == b {
          assert forall x :: x in c[..p] ==> x in now[b] && x != e;
          SplicedPath(list[b], c, p, dir, l, r);
        } else {
          PathAgrees(list[j], chains[j], null, dir, r);
        }
      }
    }

    /** Lines 91-94: put `l` at the link found for it; the node that stood there is returned. */
    method Store(l: Node) returns (oldNode: Node?)
      requires Structured() && length > 0 && l.next == null && SpliceReady(l, dir)
      modifies this`chains, this`dir, list, dir.Values
      ensures Structured() && Stored(old(chains), old(dir), l, oldNode, chains, dir)
    {
      hide BitAnd;
      hide PowerOfTwo;
      hide Flatten;
      hide Position;
      ghost var e := Entry(l.hash, l.key);
      InsertedMembers(chains, e);
      var link;
      ghost var b, p;
      link, oldNode, b, p := FindNode(l.key, l.hash);
      assert chains[b][..|chains[b]|] == chains[b];
      Splice(link, l, b, p);
      chains, dir := Inserted(chains, e), SplicedDir(chains, dir, l);
    }

    /**
     `insert_node`.  An absent entry is added and changes no other lookup; for a stored one the rest of
     its chain is cut off, so the table stays valid iff the replaced node was the last of its chain.
     */
    method InsertNode(l: Node) returns (oldNode: Node?)
      requires Valid() && l.next == null && SpliceReady(l, dir)
      modifies this, list, dir.Values, l
      ensures Structured() && (oldNode == null <==> Entry(l.hash, l.key) !in old(dir))
      ensures oldNode == null ==> Valid() && dir == old(dir)[Entry(l.hash, l.key) := l]
      ensures oldNode != null ==> oldNode == old(dir)[Entry(l.hash, l.key)] && oldNode != l
      ensures oldNode != null ==> (Valid() <==> IsLast(old(chains), Entry(l.hash, l.key)))
      ensures oldNode != null ==> Without(old(dir), old(chains), Entry(l.hash, l.key), l, dir)
      ensures oldNode != null && Valid() ==> dir == old(dir)[Entry(l.hash, l.key) := l]
      ensures elem == old(elem) + if oldNode == null then 1 else 0
      ensures elem <= old(length) ==>
        length == old(length) && list == old(list) && chains == Inserted(old(chains), Entry(l.hash, l.key))
      ensures elem > old(length) ==>
        && Quadrupled(length) && length >= elem && (length > 4 ==> length / 4 < elem)
        && chains == Rehashed(Flatten(Inserted(old(chains), Entry(l.hash, l.key))), length)
    {
      hide BitAnd;
      hide PowerOfTwo;
      hide Flatten;
      hide Inserted;
      ghost var was, wasDir := chains, dir;
      oldNode := Store(l);
      StoredFacts(was, wasDir, l, oldNode, chains, dir);
      if oldNode == null {
        elem := elem + 1;
        if elem > length {
          ghost var now := chains;
          AllDistinct(now);
          var count := Resize();
          assert count == elem;
          RehashedShape(Flatten(now), length);
        }
      }
    }

    /** `lookup`: what the plain map `dir` holds under the hash and key, or null. */
    method Lookup(key: string, hash: nat) returns (node: Node?)
      requires Valid()
      ensures node == if Entry(hash, key) in dir then dir[Entry(hash, key)] else null
    {
      hide BitAnd;
      hide PowerOfTwo;
      hide Flatten;
      var link;
      ghost var b, p;
      link, node, b, p := FindNode(key, hash);
      assert chains[b][..|chains[b]|] == chains[b];
      PresentIffStored(chains, Entry(hash, key));
    }
  }

  ghost predicate SpliceReady(l: Node, dir: Directory) {
    Named(dir) && forall x :: x in dir ==> dir[x] != l
  }

  /** The directory after `l` took the place of its entry: what the chains no longer hold is gone. */
  ghost function SplicedDir(chains: seq<seq<Entry>>, dir: Directory, l: Node): (r: Directory)
    requires Shaped(chains, |chains|) && |chains| > 0 && forall x :: x in dir <==> x in Flatten(chains)
    ensures var e := Entry(l.hash, l.key);
      && (forall x :: x in r <==> x in Flatten(Inserted(chains, e)))
      && (forall x :: x in r ==> if x == e then r[x] == l else x in dir && r[x] == dir[x])
  {
    var e := Entry(l.hash, l.key);
    InsertedMembers(chains, e);
    map x | x in Flatten(Inserted(chains, e)) :: if x == e then l else dir[x]
  }

  /** What `Store` did: `l` took the place of its entry, `oldNode` is what stood there. */
  ghost predicate Stored(was: seq<seq<Entry>>, wasDir: Directory, l: Node, oldNode: Node?,
                         now: seq<seq<Entry>>, nowDir: Directory)
  {
    var e := Entry(l.hash, l.key);
    && Shaped(was, |was|) && |was| > 0 && (forall x :: x in wasDir <==> x in Flatten(was))
    && now == Inserted(was, e) && nowDir == SplicedDir(was, wasDir, l)
    && (oldNode == null <==> !Present(was, e))
    && (oldNode != null ==> e in wasDir && oldNode == wasDir[e])
  }

  /** `now` is `was` with `l` under `e`, less the entries behind `e` in its chain. */
  ghost predicate Without(was: Directory, chains: seq<seq<Entry>>, e: Entry, l: Node, now: Directory) {
    && Shaped(chains, |chains|) && Present(chains, e)
    && (forall x :: x in now <==> x in was && x !in Behind(chains, e))
    && (forall x :: x in now ==> now[x] == if x == e then l else was[x])
  }

  /** Is the entry stored, with no node after it in its chain? */
  ghost predicate IsLast(chains: seq<seq<Entry>>, e: Entry) {
    && Shaped(chains, |chains|) && Present(chains, e)
    && Position(chains[Bucket(e, |chains|)], e) == |chains[Bucket(e, |chains|)]| - 1
  }

  lemma StoredFacts(was: seq<seq<Entry>>, wasDir: Directory, l: Node, oldNode: Node?,
                    now: seq<seq<Entry>>, nowDir: Directory)
    requires Stored(was, wasDir, l, oldNode, now, nowDir)
    ensures |now| == |was| && (oldNode == null <==> Entry(l.hash, l.key) !in wasDir)
    ensures oldNode == null ==> |Flatten(now)| == |Flatten(was)| + 1
    ensures oldNode != null ==> (|Flatten(now)| == |Flatten(was)| <==> IsLast(was, Entry(l.hash, l.key)))
    ensures oldNode == null || IsLast(was, Entry(l.hash, l.key)) ==> nowDir == wasDir[Entry(l.hash, l.key) := l]
    ensures oldNode != null ==> Without(wasDir, was, Entry(l.hash, l.key), l, nowDir)
  {
    hide BitAnd;
    hide PowerOfTwo;
    hide Flatten;
    var e := Entry(l.hash, l.key);
    var b := Bucket(e, |was|);
    PresentIffStored(was, e);
    ReplaceCount(was, b, Spliced(was[b], e));
    if oldNode == null {
      assert was[b][..|was[b]|] == was[b];
      forall x ensures x in Flatten(now) <==> x == e || x in Flatten(was) {
        InsertAbsent(was, e, x);
        PresentIffStored(now, x);
        PresentIffStored(was, x);
      }
    } else {
      StoredWithout(was, wasDir, l, oldNode, now, nowDir);
      if IsLast(was, e) {
        var p := |was[b]| - 1;
        assert was[b][..p] + [e] == was[b];
        assert now == was;
      }
    }
  }

  lemma StoredWithout(was: seq<seq<Entry>>, wasDir: Directory, l: Node, oldNode: Node?,
                      now: seq<seq<Entry>>, nowDir: Directory)
    requires Stored(was, wasDir, l, oldNode, now, nowDir) && oldNode != null
    ensures Without(wasDir, was, Entry(l.hash, l.key), l, nowDir)
  {
    hide BitAnd;
    hide PowerOfTwo;
    hide Flatten;
    hide Inserted;
    hide Behind;
    var e := Entry(l.hash, l.key);
    InsertedMembers(was, e);
    forall x ensures x in nowDir <==> x in wasDir && x !in Behind(was, e) {
      InsertPresent(was, e, x);
      PresentIffStored(was, x);
      PresentIffStored(now, x);
    }
  }

  /** The link just before position `p` of the chain that starts at `head` of bucket `index`. */
  ghost predicate LinkAt(link: Link, index: nat, head: Node?, chain: seq<Entry>, p: nat, dir: Directory)
    requires p <= |chain|
    reads dir.Values
  {
    if p == 0 then link == Head(index)
    else
      var e := chain[p - 1];
      e in dir && link == Next(dir[e]) && Path(head, chain[..p - 1], dir[e], dir)
  }

  lemma LinkStep(index: nat, head: Node?, chain: seq<Entry>, k: nat, dir: Directory, link: Link, node: Node)
    requires k < |chain| && LinkAt(link, index, head, chain, k, dir) && Linked(node, chain[k..], dir)
    requires k == 0 ==> node == head
    requires k > 0 ==> chain[k - 1] in dir && node == dir[chain[k - 1]].next
    ensures chain[k] in dir && node == dir[chain[k]]
    ensures LinkAt(Next(node), index, head, chain, k + 1, dir) && Linked(node.next, chain[k + 1..], dir)
  {
    assert chain[k..][1..] == chain[k + 1..];
    if k > 0 {
      PathExtends(head, chain[..k - 1], chain[k - 1], dir);
      assert chain[..k - 1] + [chain[k - 1]] == chain[..k];
    }
  }

  /** Lines 63-72: walk one chain. */
  method Walk(index: nat, head: Node?, key: string, hash: nat, ghost chain: seq<Entry>, ghost dir: Directory)
    returns (link: Link, node: Node?, ghost p: nat)
    requires Named(dir) && Linked(head, chain, dir)
    ensures p == Position(chain, Entry(hash, key)) && LinkAt(link, index, head, chain, p, dir)
    ensures p == |chain| ==> node == null
    ensures p < |chain| ==> Entry(hash, key) in dir && node == dir[Entry(hash, key)]
  {
    ghost var e := Entry(hash, key);
    link, node, p := Head(index), head, 0;
    assert chain[0..] == chain;
    while node != null
      invariant p <= |chain| && LinkAt(link, index, head, chain, p, dir) && Linked(node, chain[p..], dir)
      invariant e !in chain[..p]
      invariant p == 0 ==> node == head
      invariant p > 0 ==> chain[p - 1] in dir && node == dir[chain[p - 1]].next
      decreases |chain| - p
    {
      LinkStep(index, head, chain, p, dir, link, node);
      if node.hash == hash && node.key == key {
        PositionIs(chain, e, p);
        return;
      }
      assert chain[..p + 1] == chain[..p] + [chain[p]];
      link, node := Next(node), node.next;
      p := p + 1;
    }
    PositionIs(chain, e, p);
  }

  lemma {:induction false} PositionIs(chain: seq<Entry>, e: Entry, k: nat)
    requires k <= |chain| && e !in chain[..k] && (k < |chain| ==> chain[k] == e)
    ensures Position(chain, e) == k
  {
  }

  lemma InBucket(chains: seq<seq<Entry>>, j: nat)
    requires j < |chains|
    ensures forall x :: x in chains[j] ==> x in Flatten(chains)
  {
    assert chains[..|chains|] == chains;
    PrefixMembers(chains, |chains|);
  }

  /** After the write, the chain runs to the spliced node and stops there. */
  lemma SplicedPath(head: Node?, c: seq<Entry>, p: nat, dir: Directory, l: Node, r: Directory)
    requires p <= |c| && l.next == null && Named(dir)
    requires Entry(l.hash, l.key) in r && r[Entry(l.hash, l.key)] == l
    requires forall x :: x in c[..p] ==> x in r && x in dir && r[x] == dir[x]
    requires if p == 0 then head == l
             else c[p - 1] in dir && Path(head, c[..p - 1], dir[c[p - 1]], dir) && dir[c[p - 1]].next == l
    ensures Linked(head, c[..p] + [Entry(l.hash, l.key)], r)
  {
    var e := Entry(l.hash, l.key);
    if p > 0 {
      assert c[p - 1] in c[..p];
      assert forall x :: x in c[..p - 1] ==> x in c[..p];
      PathAgrees(head, c[..p - 1], dir[c[p - 1]], dir, r);
      PathExtends(head, c[..p - 1], c[p - 1], r);
      assert c[..p - 1] + [c[p - 1]] == c[..p];
    } else {
      assert c[..0] == [];
    }
    PathExtends(head, c[..p], e, r);
  }
}
