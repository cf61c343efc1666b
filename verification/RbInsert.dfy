/**
 Insertion with its climbing fix-up, as a function on trees, and what it does to order and balance.

 The source picks the "uncle" by the side of the inserted node; its own drawing shows the
 sibling of the parent.  Both readings are modelled: `BySide` is the text, `SiblingOfParent`
 the drawing.
 */
module RbInsert {
  import opened RbShape

  datatype UncleRule = BySide | SiblingOfParent

  /** Does the rule pick the parent itself as the uncle of a node on side `side`? */
  predicate UncleIsParent(rule: UncleRule, side: Side, parentSide: Side) {
    rule == BySide && side != parentSide
  }

  /** One climb of the fix-up loop: `t` is the subtree of the red node, `c` what is around it. */
  function FixUp<I>(rule: UncleRule, t: Tree<I>, c: Ctx<I>): Tree<I>
    requires t.Node?
    decreases c
  {
    if c.Top? || c.color == Black || c.up.Top? then
      Plug(t, c)
    else
      var g := c.up;
      if UncleIsParent(rule, c.side, g.side) then
        FixUp(rule, Recolored(t, c, g.sib), g.up)
      else if IsRed(g.sib) then
        FixUp(rule, Recolored(t, c, Blacken(g.sib)), g.up)
      else
        Plug(Rotated(t, c), g.up)
  }

  /** Parent black, grandparent red; `uncle` is the sibling of the parent afterwards. */
  function Recolored<I>(t: Tree<I>, c: Ctx<I>, uncle: Tree<I>): (r: Tree<I>)
    requires c.Frame? && c.up.Frame?
    ensures r.Node?
  {
    var g := c.up;
    Build(g.side, g.id, Red, g.key, Build(c.side, c.id, Black, c.key, t, c.sib), uncle)
  }

  /** The outer single rotation, or the inner double rotation. */
  function Rotated<I>(t: Tree<I>, c: Ctx<I>): (r: Tree<I>)
    requires t.Node? && c.Frame? && c.up.Frame?
    ensures r.Node?
  {
    var g := c.up;
    if c.side == g.side then
      Build(c.side, c.id, Black, c.key, t, Build(c.side, g.id, Red, g.key, c.sib, g.sib))
    else
      Build(g.side, t.id, Black, t.key,
        Build(c.side, c.id, c.color, c.key, Child(t, g.side), c.sib),
        Build(g.side, g.id, Red, g.key, Child(t, c.side), g.sib))
  }

  /** Walk down from `t` (standing in `c`) to the node with key `k` or to the null link where it belongs. */
  function Descend<I>(t: Tree<I>, k: int, c: Ctx<I>): (r: (Tree<I>, Ctx<I>))
    ensures Plug(r.0, r.1) == Plug(t, c)
    ensures r.0.Node? ==> r.0.key == k
    decreases t
  {
    if t.Leaf? || t.key == k then (t, c)
    else if t.key > k then Descend(t.left, k, Frame(L, t.id, t.color, t.key, t.right, c))
    else Descend(t.right, k, Frame(R, t.id, t.color, t.key, t.left, c))
  }

  function Insert<I>(rule: UncleRule, t: Tree<I>, k: int, id: I): Tree<I> {
    var (s, c) := Descend(t, k, Top);
    if s.Node? then t else Blacken(FixUp(rule, Node(id, Red, k, Leaf, Leaf), c))
  }

  // ---------- Order ----------

  ghost function KeysAround<I>(t: Tree<I>, c: Ctx<I>): seq<int> {
    KeysBefore(c) + Keys(t) + KeysAfter(c)
  }

  lemma KeysOfFrame<I>(t: Tree<I>, c: Ctx<I>)
    requires c.Frame?
    ensures KeysAround(Build(c.side, c.id, c.color, c.key, t, c.sib), c.up) == KeysAround(t, c)
  {
  }

  lemma RecoloredKeys<I>(t: Tree<I>, c: Ctx<I>, uncle: Tree<I>)
    requires c.Frame? && c.up.Frame? && Keys(uncle) == Keys(c.up.sib)
    ensures KeysAround(Recolored(t, c, uncle), c.up.up) == KeysAround(t, c)
  {
    var g := c.up.(color := Red, sib := uncle);
    var p := Build(c.side, c.id, Black, c.key, t, c.sib);
    KeysOfFrame(p, g);
    KeysOfFrame(t, c);
    assert Keys(p) == Keys(Build(c.side, c.id, c.color, c.key, t, c.sib));
    assert KeysBefore(g) == KeysBefore(c.up) && KeysAfter(g) == KeysAfter(c.up);
  }

  lemma RotatedKeys<I>(t: Tree<I>, c: Ctx<I>)
    requires t.Node? && c.Frame? && c.up.Frame?
    ensures KeysAround(Rotated(t, c), c.up.up) == KeysAround(t, c)
  {
    var g := c.up;
    KeysOfFrame(t, c);
    var p := Build(c.side, c.id, c.color, c.key, t, c.sib);
    KeysOfFrame(p, g);
    SameKeysRotated(t, c);
  }

  lemma Assoc(a: seq<int>, x: int, b: seq<int>, y: int, c: seq<int>)
    ensures (a + [x] + b) + [y] + c == a + [x] + (b + [y] + c)
  {
  }

  lemma SameKeysRotated<I>(t: Tree<I>, c: Ctx<I>)
    requires t.Node? && c.Frame? && c.up.Frame?
    ensures Keys(Rotated(t, c)) ==
      Keys(Build(c.up.side, c.up.id, c.up.color, c.up.key, Build(c.side, c.id, c.color, c.key, t, c.sib), c.up.sib))
  {
    var s, u, p, g := Keys(c.sib), Keys(c.up.sib), c.key, c.up.key;
    if c.side == c.up.side {
      if c.side == L {
        Assoc(Keys(t), p, s, g, u);
      } else {
        Assoc(u, g, s, p, Keys(t));
      }
    } else {
      var l, r := Keys(t.left), Keys(t.right);
      var pp := Build(c.side, c.id, c.color, c.key, Child(t, c.up.side), c.sib);
      var gg := Build(c.up.side, c.up.id, Red, g, Child(t, c.side), c.up.sib);
      assert Rotated(t, c) == Build(c.up.side, t.id, Black, t.key, pp, gg);
      assert Keys(t) == l + [t.key] + r;
      if c.side == R {
        assert Keys(pp) == s + [p] + l && Keys(gg) == r + [g] + u;
        Assoc(s, p, l, t.key, r);
        Assoc(s + [p] + l, t.key, r, g, u);
      } else {
        assert Keys(pp) == r + [p] + s && Keys(gg) == u + [g] + l;
        Assoc(l, t.key, r, p, s);
        Assoc(u, g, l, t.key, r + [p] + s);
      }
    }
  }

  lemma {:induction false} FixUpKeys<I>(rule: UncleRule, t: Tree<I>, c: Ctx<I>)
    requires t.Node?
    ensures Keys(FixUp(rule, t, c)) == KeysAround(t, c)
    decreases c
  {
    if c.Top? || c.color == Black || c.up.Top? {
      KeysOfPlug(t, c);
    } else {
      var g := c.up;
      if UncleIsParent(rule, c.side, g.side) {
        RecoloredKeys(t, c, g.sib);
        FixUpKeys(rule, Recolored(t, c, g.sib), g.up);
      } else if IsRed(g.sib) {
        RecoloredKeys(t, c, Blacken(g.sib));
        FixUpKeys(rule, Recolored(t, c, Blacken(g.sib)), g.up);
      } else {
        RotatedKeys(t, c);
        KeysOfPlug(Rotated(t, c), g.up);
      }
    }
  }

  predicate AllBelow(s: seq<int>, k: int) {
    forall x :: x in s ==> x < k
  }

  predicate AllAbove(s: seq<int>, k: int) {
    forall x :: x in s ==> x > k
  }

  lemma SplitAscending(a: seq<int>, k: int, b: seq<int>)
    requires Ascending(a + [k] + b)
    ensures AllBelow(a, k) && AllAbove(b, k)
  {
    var s := a + [k] + b;
    assert s[|a|] == k;
    forall x | x in a ensures x < k {
      var i :| 0 <= i < |a| && a[i] == x;
      assert s[i] == x;
    }
    forall x | x in b ensures x > k {
      var i :| 0 <= i < |b| && b[i] == x;
      assert s[|a| + 1 + i] == x;
    }
  }

  lemma StepLeft(a: seq<int>, x: int, b: seq<int>, k: int)
    ensures Ascending(a + [x] + b) && x > k ==> AllAbove([x] + b, k)
  {
    if Ascending(a + [x] + b) {
      SplitAscending(a, x, b);
    }
  }

  lemma StepRight(a: seq<int>, x: int, b: seq<int>, k: int)
    ensures Ascending(a + [x] + b) && x < k ==> AllBelow(a + [x], k)
  {
    if Ascending(a + [x] + b) {
      SplitAscending(a, x, b);
    }
  }

  /** A key strictly between two ascending runs joins them. */
  lemma JoinAscending(a: seq<int>, k: int, b: seq<int>)
    requires Ascending(a + b) && AllBelow(a, k) && AllAbove(b, k)
    ensures Ascending(a + [k] + b)
  {
    var s, ab := a + [k] + b, a + b;
    forall i, j | 0 <= i < j < |s| ensures s[i] < s[j] {
      if i < |a| { assert s[i] == ab[i] && a[i] in a; }
      if i > |a| { assert s[i] == ab[i - 1]; }
      if j < |a| { assert s[j] == ab[j]; }
      if j > |a| { assert s[j] == ab[j - 1] && b[j - |a| - 1] in b; }
    }
  }

  lemma DescendBounds<I>(t: Tree<I>, k: int, c: Ctx<I>)
    requires t.Node? && Ascending(KeysAround(t, c))
    ensures t.key > k ==> AllAbove([t.key] + Keys(t.right) + KeysAfter(c), k)
    ensures t.key < k ==> AllBelow(KeysBefore(c) + Keys(t.left) + [t.key], k)
  {
    var a, b := KeysBefore(c) + Keys(t.left), Keys(t.right) + KeysAfter(c);
    assert KeysAround(t, c) == a + [t.key] + b;
    assert [t.key] + Keys(t.right) + KeysAfter(c) == [t.key] + b;
    StepLeft(a, t.key, b, k);
    StepRight(a, t.key, b, k);
  }

  lemma NilMiddle(a: seq<int>, b: seq<int>)
    ensures a + [] + b == a + b
  {
  }

  lemma NilAround(a: seq<int>)
    ensures [] + a + [] == a
  {
  }

  lemma {:induction false} DescendOrder<I>(t: Tree<I>, k: int, c: Ctx<I>)
    requires Ascending(KeysAround(t, c))
    requires AllBelow(KeysBefore(c), k) && AllAbove(KeysAfter(c), k)
    ensures var (s, d) := Descend(t, k, c);
      && AllBelow(KeysBefore(d), k) && AllAbove(KeysAfter(d), k)
      && KeysAround(s, d) == KeysAround(t, c)
    decreases t
  {
    if t.Leaf? || t.key == k {
    } else {
      var side := if t.key > k then L else R;
      var d := Frame(side, t.id, t.color, t.key, Child(t, Opposite(side)), c);
      KeysOfFrame(Child(t, side), d);
      DescendBounds(t, k, c);
      DescendOrder(Child(t, side), k, d);
    }
  }

  /** A key is found by the descent exactly when it is in the tree. */
  lemma DescendFinds<I>(t: Tree<I>, k: int)
    requires Ascending(Keys(t))
    ensures Descend(t, k, Top).0.Node? <==> k in Keys(t)
  {
    NilAround(Keys(t));
    DescendOrder(t, k, Top);
    var (s, c) := Descend(t, k, Top);
    assert Keys(t) == KeysBefore(c) + Keys(s) + KeysAfter(c);
    if s.Node? {
      assert k in Keys(s);
    }
  }

  /** Where the key is absent, the descent splits the keys into those below it and those above it. */
  lemma DescendSplits<I>(t: Tree<I>, k: int) returns (c: Ctx<I>)
    requires Ascending(Keys(t)) && k !in Keys(t)
    ensures Descend(t, k, Top) == (Leaf, c)
    ensures Keys(t) == KeysBefore(c) + KeysAfter(c)
    ensures AllBelow(KeysBefore(c), k) && AllAbove(KeysAfter(c), k)
  {
    DescendFinds(t, k);
    c := Descend(t, k, Top).1;
    NilAround(Keys(t));
    DescendOrder(t, k, Top);
    NilMiddle(KeysBefore(c), KeysAfter(c));
  }

  /** Under either rule: the new key lands in its sorted place and nothing else moves in the order. */
  lemma InsertPlace<I>(rule: UncleRule, t: Tree<I>, k: int, id: I) returns (i: nat)
    requires Ascending(Keys(t)) && k !in Keys(t)
    ensures i <= |Keys(t)| && Keys(Insert(rule, t, k, id)) == Keys(t)[..i] + [k] + Keys(t)[i..]
    ensures AllBelow(Keys(t)[..i], k) && AllAbove(Keys(t)[i..], k)
  {
    var c := DescendSplits(t, k);
    i := |KeysBefore(c)|;
    var n := Node(id, Red, k, Leaf, Leaf);
    FixUpKeys(rule, n, c);
    assert Keys(n) == [k];
    assert Keys(t)[..i] == KeysBefore(c) && Keys(t)[i..] == KeysAfter(c);
  }

  /** Under either rule: still sorted, exactly the new key added, unchanged on a duplicate. */
  lemma InsertKeys<I>(rule: UncleRule, t: Tree<I>, k: int, id: I)
    requires Ascending(Keys(t))
    ensures Ascending(Keys(Insert(rule, t, k, id)))
    ensures k in Keys(t) ==> Insert(rule, t, k, id) == t
    ensures forall x :: x in Keys(Insert(rule, t, k, id)) <==> x == k || x in Keys(t)
  {
    if k in Keys(t) {
      DescendFinds(t, k);
    } else {
      var i := InsertPlace(rule, t, k, id);
      var s := Keys(t);
      assert s == s[..i] + s[i..];
      JoinAscending(s[..i], k, s[i..]);
      JoinMembers(s[..i], k, s[i..]);
    }
  }

  lemma JoinMembers(a: seq<int>, k: int, b: seq<int>)
    ensures forall x :: x in a + [k] + b <==> x == k || x in a + b
  {
  }

  lemma RotatedItems<I>(t: Tree<I>, c: Ctx<I>)
    requires t.Node? && c.Frame? && c.up.Frame?
    ensures Items(Rotated(t, c)) + CtxItems(c.up.up) == Items(t) + CtxItems(c)
  {
  }

  lemma RecoloredItems<I>(t: Tree<I>, c: Ctx<I>, uncle: Tree<I>)
    requires c.Frame? && c.up.Frame? && Items(uncle) == Items(c.up.sib)
    ensures Items(Recolored(t, c, uncle)) + CtxItems(c.up.up) == Items(t) + CtxItems(c)
  {
  }

  lemma {:induction false} FixUpItems<I>(rule: UncleRule, t: Tree<I>, c: Ctx<I>)
    requires t.Node?
    ensures Items(FixUp(rule, t, c)) == Items(t) + CtxItems(c)
    decreases c
  {
    if c.Top? || c.color == Black || c.up.Top? {
      ItemsOfPlug(t, c);
    } else {
      var g := c.up;
      if UncleIsParent(rule, c.side, g.side) {
        RecoloredItems(t, c, g.sib);
        FixUpItems(rule, Recolored(t, c, g.sib), g.up);
      } else if IsRed(g.sib) {
        RecoloredItems(t, c, Blacken(g.sib));
        FixUpItems(rule, Recolored(t, c, Blacken(g.sib)), g.up);
      } else {
        RotatedItems(t, c);
        ItemsOfPlug(Rotated(t, c), g.up);
      }
    }
  }

  /** Under either rule: every node keeps its key, and the new node carries the new one. */
  lemma InsertItems<I>(rule: UncleRule, t: Tree<I>, k: int, id: I)
    requires Ascending(Keys(t))
    ensures Items(Insert(rule, t, k, id)) == Items(t) + if k in Keys(t) then {} else {(id, k)}
  {
    DescendFinds(t, k);
    if k !in Keys(t) {
      var n, c := Node(id, Red, k, Leaf, Leaf), Descend(t, k, Top).1;
      FixUpItems(rule, n, c);
      ItemsOfPlug(Descend(t, k, Top).0, c);
    }
  }

  // ---------- Balance ----------

  /** What the loop needs of a red node and its surroundings: one possible red-red pair, nothing else wrong. */
  predicate Climbing<I>(t: Tree<I>, c: Ctx<I>) {
    && IsRed(t) && NoRedRed(t) && Balanced(t)
    && RootBlack(c) && CtxNoRedRed(c, false) && CtxBalanced(c, BlackHeight(t))
  }

  /** The climb reaches a red parent whose own side differs from the node's: the `BySide` blind spot. */
  predicate MeetsInner<I>(c: Ctx<I>) {
    c.Frame? && c.color == Red && c.up.Frame? &&
    (c.side != c.up.side || (IsRed(c.up.sib) && MeetsInner(c.up.up)))
  }

  lemma ParentIsInside<I>(t: Tree<I>, c: Ctx<I>)
    requires Climbing(t, c) && c.Frame? && c.color == Red
    ensures c.up.Frame? && c.up.color == Black && RootBlack(c.up.up)
    ensures Balanced(c.sib) && NoRedRed(c.sib) && !IsRed(c.sib) && BlackHeight(c.sib) == BlackHeight(t)
    ensures Balanced(c.up.sib) && NoRedRed(c.up.sib) && BlackHeight(c.up.sib) == BlackHeight(t)
    ensures CtxNoRedRed(c.up.up, false) && CtxBalanced(c.up.up, BlackHeight(t) + 1)
  {
    var g := c.up;
    assert CtxBalanced(g, BlackHeight(t));
    assert CtxNoRedRed(g, true);
    assert RootBlack(g);
  }

  lemma RecoloringClimbs<I>(t: Tree<I>, c: Ctx<I>)
    requires Climbing(t, c) && c.Frame? && c.color == Red && IsRed(c.up.sib)
    ensures Climbing(Recolored(t, c, Blacken(c.up.sib)), c.up.up)
  {
    ParentIsInside(t, c);
    var p := Build(c.side, c.id, Black, c.key, t, c.sib);
    assert NoRedRed(p) && Balanced(p) && BlackHeight(p) == BlackHeight(t) + 1;
    var u := Blacken(c.up.sib);
    assert NoRedRed(u) && Balanced(u) && BlackHeight(u) == BlackHeight(t) + 1;
  }

  lemma RotationRestores<I>(t: Tree<I>, c: Ctx<I>)
    requires Climbing(t, c) && c.Frame? && c.color == Red && !IsRed(c.up.sib)
    ensures RedBlack(Rotated(t, c)) && BlackHeight(Rotated(t, c)) == BlackHeight(t) + 1
  {
    ParentIsInside(t, c);
    var g := c.up;
    if c.side == g.side {
      var gg := Build(c.side, g.id, Red, g.key, c.sib, g.sib);
      assert NoRedRed(gg) && Balanced(gg) && BlackHeight(gg) == BlackHeight(t);
    } else {
      var x, y := Child(t, g.side), Child(t, c.side);
      assert NoRedRed(x) && NoRedRed(y) && Balanced(x) && Balanced(y) && !IsRed(x) && !IsRed(y);
      assert BlackHeight(x) == BlackHeight(y) == BlackHeight(t);
      var pp := Build(c.side, c.id, c.color, c.key, x, c.sib);
      var gg := Build(g.side, g.id, Red, g.key, y, g.sib);
      assert NoRedRed(pp) && Balanced(pp) && BlackHeight(pp) == BlackHeight(t);
      assert NoRedRed(gg) && Balanced(gg) && BlackHeight(gg) == BlackHeight(t);
    }
  }

  lemma {:induction false} FixUpRestores<I>(rule: UncleRule, t: Tree<I>, c: Ctx<I>)
    requires Climbing(t, c)
    requires rule == SiblingOfParent || !MeetsInner(c)
    ensures RedBlack(Blacken(FixUp(rule, t, c)))
    decreases c
  {
    if c.Top? {
    } else if c.color == Black {
      RedBlackPlug(t, c);
    } else {
      ParentIsInside(t, c);
      var g := c.up;
      if IsRed(g.sib) {
        RecoloringClimbs(t, c);
        FixUpRestores(rule, Recolored(t, c, Blacken(g.sib)), g.up);
      } else {
        RotationRestores(t, c);
        if g.up.Frame? {
          RedBlackPlug(Rotated(t, c), g.up);
        }
      }
    }
  }

  lemma {:induction false} ImbalanceStays<I>(t: Tree<I>, c: Ctx<I>)
    requires t.Node? && !Balanced(t)
    ensures !Balanced(FixUp(BySide, t, c))
    decreases c
  {
    if c.Top? || c.color == Black || c.up.Top? {
      BalancedPlug(t, c);
    } else {
      var g := c.up;
      if UncleIsParent(BySide, c.side, g.side) {
        ImbalanceStays(Recolored(t, c, g.sib), g.up);
      } else if IsRed(g.sib) {
        ImbalanceStays(Recolored(t, c, Blacken(g.sib)), g.up);
      } else {
        BalancedPlug(Rotated(t, c), g.up);
      }
    }
  }

  lemma {:induction false} InnerCaseUnbalances<I>(t: Tree<I>, c: Ctx<I>)
    requires Climbing(t, c) && MeetsInner(c)
    ensures !Balanced(FixUp(BySide, t, c))
    decreases c
  {
    var g := c.up;
    ParentIsInside(t, c);
    if c.side != g.side {
      var p := Build(c.side, c.id, Black, c.key, t, c.sib);
      assert Balanced(p) && BlackHeight(p) == BlackHeight(g.sib) + 1;
      ImbalanceStays(Recolored(t, c, g.sib), g.up);
    } else {
      RecoloringClimbs(t, c);
      InnerCaseUnbalances(Recolored(t, c, Blacken(g.sib)), g.up);
    }
  }

  lemma LeafPositionClimbs<I>(t: Tree<I>, k: int, id: I)
    requires RedBlack(t) && Descend(t, k, Top).0.Leaf?
    ensures Climbing(Node(id, Red, k, Leaf, Leaf), Descend(t, k, Top).1)
  {
    var (s, c) := Descend(t, k, Top);
    if c.Frame? {
      RedBlackPlug(s, c);
    }
  }

  /** With the uncle read as the sibling of the parent, insertion keeps a red-black tree red-black. */
  lemma InsertKeepsRedBlack<I>(t: Tree<I>, k: int, id: I)
    requires RedBlack(t)
    ensures RedBlack(Insert(SiblingOfParent, t, k, id))
  {
    var (s, c) := Descend(t, k, Top);
    if s.Leaf? {
      LeafPositionClimbs(t, k, id);
      FixUpRestores(SiblingOfParent, Node(id, Red, k, Leaf, Leaf), c);
    }
  }

  /** As written, insertion of an absent key keeps the tree red-black iff the climb meets no inner case. */
  lemma InsertBySideExact<I>(t: Tree<I>, k: int, id: I)
    requires RedBlack(t) && Ascending(Keys(t)) && k !in Keys(t)
    ensures RedBlack(Insert(BySide, t, k, id)) <==> !MeetsInner(Descend(t, k, Top).1)
    ensures !MeetsInner(Descend(t, k, Top).1) ==> Insert(BySide, t, k, id) == Insert(SiblingOfParent, t, k, id)
  {
    DescendFinds(t, k);
    LeafPositionClimbs(t, k, id);
    var n, c := Node(id, Red, k, Leaf, Leaf), Descend(t, k, Top).1;
    if MeetsInner(c) {
      InnerCaseUnbalances(n, c);
    } else {
      FixUpRestores(BySide, n, c);
      RulesAgree(n, c);
    }
  }

  lemma {:induction false} RulesAgree<I>(t: Tree<I>, c: Ctx<I>)
    requires t.Node? && !MeetsInner(c)
    ensures FixUp(BySide, t, c) == FixUp(SiblingOfParent, t, c)
    decreases c
  {
    if c.Frame? && c.color == Red && c.up.Frame? && IsRed(c.up.sib) {
      RulesAgree(Recolored(t, c, Blacken(c.up.sib)), c.up.up);
    }
  }

  // ---------- Whole runs ----------

  function InsertAll<I>(rule: UncleRule, keys: seq<int>, ids: seq<I>): Tree<I>
    requires |keys| == |ids|
  {
    if keys == [] then Leaf
    else Insert(rule, InsertAll(rule, keys[..|keys| - 1], ids[..|ids| - 1]), keys[|keys| - 1], ids[|ids| - 1])
  }

  /** Every run of inserts, under either rule: sorted, root black, and exactly the inserted keys. */
  lemma {:induction false} RunsKeepOrder<I>(rule: UncleRule, keys: seq<int>, ids: seq<I>)
    requires |keys| == |ids|
    ensures Ascending(Keys(InsertAll(rule, keys, ids)))
    ensures !IsRed(InsertAll(rule, keys, ids))
    ensures forall x :: x in Keys(InsertAll(rule, keys, ids)) <==> x in keys
  {
    if keys != [] {
      var n := |keys| - 1;
      RunsKeepOrder(rule, keys[..n], ids[..n]);
      var t := InsertAll(rule, keys[..n], ids[..n]);
      InsertKeys(rule, t, keys[n], ids[n]);
      assert keys == keys[..n] + [keys[n]];
    }
  }

  /** Every run of inserts with the sibling as uncle ends in a red-black tree. */
  lemma {:induction false} RunsKeepRedBlack<I>(keys: seq<int>, ids: seq<I>)
    requires |keys| == |ids|
    ensures RedBlack(InsertAll(SiblingOfParent, keys, ids))
  {
    if keys != [] {
      var n := |keys| - 1;
      RunsKeepRedBlack(keys[..n], ids[..n]);
      InsertKeepsRedBlack(InsertAll(SiblingOfParent, keys[..n], ids[..n]), keys[n], ids[n]);
    }
  }

  /** As written, inserting 3, 1, 2 into an empty tree ends unbalanced. */
  lemma BySideFails()
    ensures var t := InsertAll(BySide, [3, 1, 2], [30, 10, 20]);
      && !RedBlack(t)
      && t == Node(30, Black, 3, Node(10, Black, 1, Leaf, Node(20, Red, 2, Leaf, Leaf)), Leaf)
  {
    var t1 := Insert(BySide, Leaf, 3, 30);
    var t2 := Insert(BySide, t1, 1, 10);
    assert t1 == Node(30, Black, 3, Leaf, Leaf);
    assert t2 == Node(30, Black, 3, Node(10, Red, 1, Leaf, Leaf), Leaf);
    assert [3, 1, 2][..2] == [3, 1] && [30, 10, 20][..2] == [30, 10];
    assert [3, 1][..1] == [3] && [30, 10][..1] == [30];
    assert InsertAll(BySide, [3], [30]) == t1;
    assert InsertAll(BySide, [3, 1], [30, 10]) == t2;
    assert Descend(t2, 2, Top).1 == Frame(R, 10, Red, 1, Leaf, Frame(L, 30, Black, 3, Leaf, Top));
    assert Keys(t2) == [1, 3];
    InsertBySideExact(t2, 2, 20);
  }

  // ---------- Search cost ----------

  /** Nodes the search loop looks at. */
  function Visits<I>(t: Tree<I>, k: int): nat {
    if t.Leaf? then 0
    else if t.key > k then 1 + Visits(t.left, k)
    else if t.key < k then 1 + Visits(t.right, k)
    else 1
  }

  function Pow2(n: nat): nat {
    if n == 0 then 1 else 2 * Pow2(n - 1)
  }

  lemma {:induction false} Pow2Sum(a: nat, b: nat)
    ensures Pow2(a + b) == Pow2(a) * Pow2(b)
  {
    if a == 0 {
      assert Pow2(a) == 1;
    } else {
      Pow2Sum(a - 1, b);
      var x, y := Pow2(a - 1), Pow2(b);
      assert Pow2(a + b) == 2 * (x * y);
      assert Pow2(a) * y == (2 * x) * y == 2 * (x * y);
    }
  }

  lemma {:induction false} Pow2Monotone(a: nat, b: nat)
    requires a <= b
    ensures Pow2(a) <= Pow2(b)
  {
    if a < b { Pow2Monotone(a, b - 1); }
  }

  lemma {:induction false} HeightBound<I>(t: Tree<I>)
    requires Balanced(t)
    ensures Pow2(BlackHeight(t)) <= Size(t) + 1
  {
    if t.Node? {
      HeightBound(t.left);
      HeightBound(t.right);
    }
  }

  lemma {:induction false} VisitBound<I>(t: Tree<I>, k: int)
    requires Balanced(t) && NoRedRed(t)
    ensures Visits(t, k) <= 2 * BlackHeight(t) + (if IsRed(t) then 1 else 0)
  {
    if t.Node? && t.key > k {
      VisitBound(t.left, k);
    } else if t.Node? && t.key < k {
      VisitBound(t.right, k);
    }
  }

  lemma SquareMonotone(a: nat, b: nat)
    requires a <= b
    ensures a * a <= b * b
  {
  }

  /** A search over n keys looks at v nodes with 2^v <= (n + 1)^2, that is v <= 2 log2(n + 1). */
  lemma SearchIsLogarithmic<I>(t: Tree<I>, k: int)
    requires RedBlack(t)
    ensures Pow2(Visits(t, k)) <= (|Keys(t)| + 1) * (|Keys(t)| + 1)
  {
    var h, n := BlackHeight(t), Size(t) + 1;
    VisitBound(t, k);
    HeightBound(t);
    SizeIsKeyCount(t);
    Pow2Monotone(Visits(t, k), h + h);
    Pow2Sum(h, h);
    SquareMonotone(Pow2(h), n);
  }
}
