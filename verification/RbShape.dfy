/**
 Trees, one-hole contexts (zippers) and the red-black conditions, as values.

 `I` is the identity a node carries: the heap model instantiates it with node references,
 so a `Tree<RbNode>` is a picture of the linked structure and a `Ctx<RbNode>` is a picture
 of everything around one link.
 */
module RbShape {

  datatype Color = Red | Black

  datatype Side = L | R

  datatype Tree<I> = Leaf | Node(id: I, color: Color, key: int, left: Tree<I>, right: Tree<I>)

  /** The path from a hole up to the root; `side` is the side of the parent the hole is on. */
  datatype Ctx<I> = Top | Frame(side: Side, id: I, color: Color, key: int, sib: Tree<I>, up: Ctx<I>)

  function Opposite(s: Side): Side {
    if s == L then R else L
  }

  function Build<I>(side: Side, id: I, color: Color, key: int, child: Tree<I>, sib: Tree<I>): Tree<I> {
    if side == L then Node(id, color, key, child, sib) else Node(id, color, key, sib, child)
  }

  function Child<I>(t: Tree<I>, side: Side): Tree<I>
    requires t.Node?
  {
    if side == L then t.left else t.right
  }

  function Plug<I>(t: Tree<I>, c: Ctx<I>): Tree<I>
    decreases c
  {
    match c
    case Top => t
    case Frame(side, id, color, key, sib, up) => Plug(Build(side, id, color, key, t, sib), up)
  }

  function Depth<I>(c: Ctx<I>): nat {
    if c.Top? then 0 else 1 + Depth(c.up)
  }

  function Append<I>(inner: Ctx<I>, outer: Ctx<I>): Ctx<I> {
    if inner.Top? then outer else inner.(up := Append(inner.up, outer))
  }

  lemma {:induction false} PlugAppend<I>(t: Tree<I>, inner: Ctx<I>, outer: Ctx<I>)
    ensures Plug(t, Append(inner, outer)) == Plug(Plug(t, inner), outer)
    decreases inner
  {
    if inner.Frame? {
      PlugAppend(Build(inner.side, inner.id, inner.color, inner.key, t, inner.sib), inner.up, outer);
    }
  }

  predicate IsRed<I>(t: Tree<I>) {
    t.Node? && t.color == Red
  }

  function Paint<I>(t: Tree<I>, color: Color): Tree<I> {
    if t.Leaf? then t else t.(color := color)
  }

  function Blacken<I>(t: Tree<I>): Tree<I> {
    Paint(t, Black)
  }

  // ---------- In-order keys ----------

  function Keys<I>(t: Tree<I>): seq<int> {
    if t.Leaf? then [] else Keys(t.left) + [t.key] + Keys(t.right)
  }

  function Size<I>(t: Tree<I>): nat {
    if t.Leaf? then 0 else Size(t.left) + 1 + Size(t.right)
  }

  function KeysBefore<I>(c: Ctx<I>): seq<int> {
    if c.Top? then []
    else if c.side == L then KeysBefore(c.up)
    else KeysBefore(c.up) + Keys(c.sib) + [c.key]
  }

  function KeysAfter<I>(c: Ctx<I>): seq<int> {
    if c.Top? then []
    else if c.side == L then [c.key] + Keys(c.sib) + KeysAfter(c.up)
    else KeysAfter(c.up)
  }

  lemma {:induction false} KeysOfPlug<I>(t: Tree<I>, c: Ctx<I>)
    ensures Keys(Plug(t, c)) == KeysBefore(c) + Keys(t) + KeysAfter(c)
    decreases c
  {
    if c.Frame? {
      KeysOfPlug(Build(c.side, c.id, c.color, c.key, t, c.sib), c.up);
    }
  }

  lemma {:induction false} SizeIsKeyCount<I>(t: Tree<I>)
    ensures Size(t) == |Keys(t)|
  {
    if t.Node? {
      SizeIsKeyCount(t.left);
      SizeIsKeyCount(t.right);
    }
  }

  // ---------- Which node carries which key ----------

  ghost function Items<I>(t: Tree<I>): set<(I, int)> {
    if t.Leaf? then {} else {(t.id, t.key)} + Items(t.left) + Items(t.right)
  }

  ghost function CtxItems<I>(c: Ctx<I>): set<(I, int)> {
    if c.Top? then {} else {(c.id, c.key)} + Items(c.sib) + CtxItems(c.up)
  }

  lemma {:induction false} ItemsOfPlug<I>(t: Tree<I>, c: Ctx<I>)
    ensures Items(Plug(t, c)) == Items(t) + CtxItems(c)
    decreases c
  {
    if c.Frame? {
      ItemsOfPlug(Build(c.side, c.id, c.color, c.key, t, c.sib), c.up);
    }
  }

  predicate Ascending(s: seq<int>) {
    forall i, j :: 0 <= i < j < |s| ==> s[i] < s[j]
  }

  // ---------- Red-black conditions ----------

  function Weight(color: Color): nat {
    if color == Black then 1 else 0
  }

  /** Black nodes on the leftmost path; on a `Balanced` tree, on every path. */
  function BlackHeight<I>(t: Tree<I>): nat {
    if t.Leaf? then 0 else BlackHeight(t.left) + Weight(t.color)
  }

  predicate Balanced<I>(t: Tree<I>) {
    t.Node? ==> Balanced(t.left) && Balanced(t.right) && BlackHeight(t.left) == BlackHeight(t.right)
  }

  predicate NoRedRed<I>(t: Tree<I>) {
    t.Node? ==>
      && NoRedRed(t.left) && NoRedRed(t.right)
      && (t.color == Red ==> !IsRed(t.left) && !IsRed(t.right))
  }

  predicate RedBlack<I>(t: Tree<I>) {
    !IsRed(t) && NoRedRed(t) && Balanced(t)
  }

  /** The context is balanced around a hole of black height `h`. */
  predicate CtxBalanced<I>(c: Ctx<I>, h: nat) {
    c.Frame? ==> Balanced(c.sib) && BlackHeight(c.sib) == h && CtxBalanced(c.up, h + Weight(c.color))
  }

  /** The context has no red node with a red child, given whether the hole holds a red node. */
  predicate CtxNoRedRed<I>(c: Ctx<I>, red: bool) {
    c.Frame? ==>
      && NoRedRed(c.sib) && CtxNoRedRed(c.up, c.color == Red)
      && (c.color == Red ==> !red && !IsRed(c.sib))
  }

  predicate RootBlack<I>(c: Ctx<I>) {
    c.Frame? ==> if c.up.Top? then c.color == Black else RootBlack(c.up)
  }

  lemma {:induction false} BalancedPlug<I>(t: Tree<I>, c: Ctx<I>)
    ensures Balanced(Plug(t, c)) <==> Balanced(t) && CtxBalanced(c, BlackHeight(t))
    decreases c
  {
    if c.Frame? {
      BalancedPlug(Build(c.side, c.id, c.color, c.key, t, c.sib), c.up);
    }
  }

  lemma {:induction false} NoRedRedPlug<I>(t: Tree<I>, c: Ctx<I>)
    ensures NoRedRed(Plug(t, c)) <==> NoRedRed(t) && CtxNoRedRed(c, IsRed(t))
    decreases c
  {
    if c.Frame? {
      NoRedRedPlug(Build(c.side, c.id, c.color, c.key, t, c.sib), c.up);
    }
  }

  lemma {:induction false} RootOfPlug<I>(t: Tree<I>, c: Ctx<I>)
    requires c.Frame?
    ensures Plug(t, c).Node? && (IsRed(Plug(t, c)) <==> !RootBlack(c))
    decreases c
  {
    if c.up.Frame? {
      RootOfPlug(Build(c.side, c.id, c.color, c.key, t, c.sib), c.up);
    }
  }

  lemma {:induction false} CtxNoRedRedWeaken<I>(c: Ctx<I>, red: bool)
    requires CtxNoRedRed(c, red)
    ensures CtxNoRedRed(c, false)
  {
  }

  /** The three conditions seen from a hole of the tree. */
  lemma RedBlackPlug<I>(t: Tree<I>, c: Ctx<I>)
    requires c.Frame?
    ensures RedBlack(Plug(t, c)) <==>
      && RootBlack(c) && NoRedRed(t) && CtxNoRedRed(c, IsRed(t))
      && Balanced(t) && CtxBalanced(c, BlackHeight(t))
  {
    BalancedPlug(t, c);
    NoRedRedPlug(t, c);
    RootOfPlug(t, c);
  }

  // ---------- The same conditions, path by path ----------

  /** Follow `path` from the root of `t`; true when it ends exactly at a null link. */
  predicate EndsAtNull<I>(t: Tree<I>, path: seq<Side>) {
    if path == [] then t.Leaf? else t.Node? && EndsAtNull(Child(t, path[0]), path[1..])
  }

  function BlacksOn<I>(t: Tree<I>, path: seq<Side>): nat
    requires EndsAtNull(t, path)
    decreases |path|
  {
    if path == [] then 0 else Weight(t.color) + BlacksOn(Child(t, path[0]), path[1..])
  }

  ghost predicate EvenPaths<I>(t: Tree<I>) {
    forall p, q :: EndsAtNull(t, p) && EndsAtNull(t, q) ==> BlacksOn(t, p) == BlacksOn(t, q)
  }

  function LeftmostPath<I>(t: Tree<I>): (p: seq<Side>)
    ensures EndsAtNull(t, p) && BlacksOn(t, p) == BlackHeight(t)
  {
    if t.Leaf? then [] else
      var q := LeftmostPath(t.left);
      assert ([L] + q)[1..] == q;
      [L] + q
  }

  lemma {:induction false} BalancedPaths<I>(t: Tree<I>, p: seq<Side>)
    requires Balanced(t) && EndsAtNull(t, p)
    ensures BlacksOn(t, p) == BlackHeight(t)
    decreases t
  {
    if p != [] {
      BalancedPaths(Child(t, p[0]), p[1..]);
    }
  }

  lemma PathsThroughChild<I>(t: Tree<I>, s: Side, p: seq<Side>)
    requires t.Node? && EndsAtNull(Child(t, s), p)
    ensures EndsAtNull(t, [s] + p) && BlacksOn(t, [s] + p) == Weight(t.color) + BlacksOn(Child(t, s), p)
  {
  }

  /** `Balanced` says exactly that all paths to a null link carry the same number of black nodes. */
  lemma {:induction false} BalancedIffEvenPaths<I>(t: Tree<I>)
    ensures Balanced(t) <==> EvenPaths(t)
  {
    if Balanced(t) {
      forall p | EndsAtNull(t, p) ensures BlacksOn(t, p) == BlackHeight(t) {
        BalancedPaths(t, p);
      }
    } else if EvenPaths(t) {
      forall s: Side ensures EvenPaths(Child(t, s)) {
        forall p, q | EndsAtNull(Child(t, s), p) && EndsAtNull(Child(t, s), q)
          ensures BlacksOn(Child(t, s), p) == BlacksOn(Child(t, s), q)
        {
          PathsThroughChild(t, s, p);
          PathsThroughChild(t, s, q);
        }
      }
      assert EvenPaths(Child(t, L)) && EvenPaths(Child(t, R));
      BalancedIffEvenPaths(t.left);
      BalancedIffEvenPaths(t.right);
      PathsThroughChild(t, L, LeftmostPath(t.left));
      PathsThroughChild(t, R, LeftmostPath(t.right));
    }
  }
}
