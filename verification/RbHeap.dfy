/**
 The linked red-black tree: nodes with parent, left and right links, rotations that rewrite
 them in place, and the insert and delete loops.  Each loop is proved to produce exactly the
 tree that `RbInsert` and `RbDelete` describe.  Line numbers up to the deletion section are those
 of utils/rbtree.h, from there on those of core/mg_rbtree.h.
 */
module RbHeap {
  import opened Basics
  import opened RbShape
  import opened RbInsert
  import opened RbDelete

  class RbNode {
    var val: int
    var color: Color
    var parent: RbNode?
    var left: RbNode?
    var right: RbNode?

    constructor (v: int)
      ensures val == v && color == Red && parent == null && left == null && right == null
    {
      val, color := v, Red;
      parent, left, right := null, null, null;
    }
  }

  ghost function Ids(t: Tree<RbNode>): set<RbNode> {
    if t.Leaf? then {} else {t.id} + Ids(t.left) + Ids(t.right)
  }

  ghost function CtxIds(c: Ctx<RbNode>): set<RbNode> {
    if c.Top? then {} else {c.id} + Ids(c.sib) + CtxIds(c.up)
  }

  ghost predicate Separate(t: Tree<RbNode>) {
    t.Node? ==>
      && t.id !in Ids(t.left) && t.id !in Ids(t.right) && Ids(t.left) !! Ids(t.right)
      && Separate(t.left) && Separate(t.right)
  }

  ghost predicate CtxSeparate(c: Ctx<RbNode>) {
    c.Frame? ==>
      && c.id !in Ids(c.sib) && c.id !in CtxIds(c.up) && Ids(c.sib) !! CtxIds(c.up)
      && Separate(c.sib) && CtxSeparate(c.up)
  }

  ghost function RootId(t: Tree<RbNode>): RbNode? {
    if t.Leaf? then null else t.id
  }

  ghost function HoleParent(c: Ctx<RbNode>): RbNode? {
    if c.Top? then null else c.id
  }

  /** One node's fields are as drawn. */
  ghost predicate Drawn(n: RbNode, color: Color, key: int, left: RbNode?, right: RbNode?, parent: RbNode?)
    reads n
  {
    n.color == color && n.val == key && n.left == left && n.right == right && n.parent == parent
  }

  /** The links, colours and keys of the nodes of `t` are as drawn, below parent `p`. */
  ghost predicate TreeAt(t: Tree<RbNode>, p: RbNode?)
    reads Ids(t)
  {
    t.Node? ==>
      && Drawn(t.id, t.color, t.key, RootId(t.left), RootId(t.right), p)
      && TreeAt(t.left, t.id) && TreeAt(t.right, t.id)
  }

  /** The items of a tree are its nodes with the keys they hold. */
  lemma {:induction false} ItemsAt(t: Tree<RbNode>, p: RbNode?)
    requires TreeAt(t, p)
    ensures forall n :: n in Ids(t) ==> (n, n.val) in Items(t) && n.val in Keys(t)
    ensures forall x :: x in Items(t) ==> x.0 in Ids(t) && x.0.val == x.1
  {
    if t.Node? {
      ItemsAt(t.left, t.id);
      ItemsAt(t.right, t.id);
    }
  }

  /** The child on side `s` pulled up over `t`: a left rotation for `R`, a right rotation for `L`. */
  ghost function PulledUp(t: Tree<RbNode>, s: Side): Tree<RbNode>
    requires t.Node? && Child(t, s).Node?
  {
    var x, o := Child(t, s), Opposite(s);
    Build(s, x.id, x.color, x.key, Child(x, s), Build(s, t.id, t.color, t.key, Child(x, o), Child(t, o)))
  }

  lemma PulledUpIds(t: Tree<RbNode>, s: Side)
    requires t.Node? && Child(t, s).Node? && Separate(t)
    ensures Ids(PulledUp(t, s)) == Ids(t) && Separate(PulledUp(t, s))
  {
  }

  class RbTree {
    var root: RbNode?
    ghost var shape: Tree<RbNode>
    ghost var nodes: set<RbNode>

    /** The nodes of `c` are as drawn, with link `h` in the hole. */
    ghost predicate CtxAt(c: Ctx<RbNode>, h: RbNode?)
      reads this`root, CtxIds(c)
    {
      if c.Top? then root == h
      else
        && Drawn(c.id, c.color, c.key, if c.side == L then h else RootId(c.sib),
                 if c.side == L then RootId(c.sib) else h, HoleParent(c.up))
        && TreeAt(c.sib, c.id) && CtxAt(c.up, c.id)
    }

    /** The linked structure is `Plug(t, c)`, node by node. */
    ghost predicate Holds(t: Tree<RbNode>, c: Ctx<RbNode>)
      reads this`root, Ids(t), CtxIds(c)
    {
      && Separate(t) && CtxSeparate(c) && Ids(t) !! CtxIds(c)
      && TreeAt(t, HoleParent(c)) && CtxAt(c, RootId(t))
    }

    ghost predicate Valid()
      reads this, nodes
    {
      nodes == Ids(shape) && Holds(shape, Top) && Ascending(Keys(shape)) && !IsRed(shape)
    }

    constructor ()
      ensures Valid() && shape == Leaf
    {
      root := null;
      shape, nodes := Leaf, {};
    }

    /** Moving the point of view up or down one link changes nothing. */
    lemma Refocus(t: Tree<RbNode>, c: Ctx<RbNode>)
      requires c.Frame?
      ensures Holds(t, c) <==> Holds(Build(c.side, c.id, c.color, c.key, t, c.sib), c.up)
      ensures Ids(t) + CtxIds(c) == Ids(Build(c.side, c.id, c.color, c.key, t, c.sib)) + CtxIds(c.up)
    {
    }

    lemma {:induction false} RefocusAll(t: Tree<RbNode>, inner: Ctx<RbNode>, outer: Ctx<RbNode>)
      ensures Holds(t, Append(inner, outer)) <==> Holds(Plug(t, inner), outer)
      ensures Ids(t) + CtxIds(Append(inner, outer)) == Ids(Plug(t, inner)) + CtxIds(outer)
      decreases inner
    {
      if inner.Frame? {
        Refocus(t, Append(inner, outer));
        RefocusAll(Build(inner.side, inner.id, inner.color, inner.key, t, inner.sib), inner.up, outer);
      }
    }

    /** Relinking the hole of `c` to `x`, and nothing else in `c`. */
    twostate lemma CtxRelinked(new c: Ctx<RbNode>, new h: RbNode, new x: RbNode, new p: RbNode?, new rest: set<RbNode>)
      requires old(allocated(c)) && old(allocated(h)) && old(allocated(p)) && old(allocated(rest))
      requires old(CtxAt(c, h)) && CtxSeparate(c) && p == HoleParent(c)
      requires rest == (if c.Top? then {} else Ids(c.sib) + CtxIds(c.up)) && forall o :: o in rest ==> unchanged(o)
      requires p == null ==> root == x
      requires p != null ==> root == old(root) && Drawn(p, old(p.color), old(p.val),
        if c.side == L then x else old(p.left), if c.side == L then old(p.right) else x, old(p.parent))
      ensures CtxAt(c, x)
    {
      if c.Frame? {
        assert TreeAt(c.sib, c.id) && CtxAt(c.up, c.id);
      }
    }

    /** What the writes of a rotation of `n` under `p` add up to: `x` is pulled up, `y` changes hands. */
    twostate lemma RotationWrites(s: Side, new t: Tree<RbNode>, new c: Ctx<RbNode>, new all: set<RbNode>,
                           new n: RbNode, new x: RbNode, new y: RbNode?, new p: RbNode?)
      requires old(allocated(t)) && old(allocated(c)) && old(allocated(all))
      requires old(allocated(n)) && old(allocated(x)) && old(allocated(y)) && old(allocated(p))
      requires old(Holds(t, c)) && t.Node? && Child(t, s).Node? && all == Ids(t) + CtxIds(c)
      requires n == t.id && x == Child(t, s).id && y == RootId(Child(Child(t, s), Opposite(s))) && p == HoleParent(c)
      requires forall o :: o in all && o !in {n, x, y, p} ==> unchanged(o)
      requires Drawn(n, old(n.color), old(n.val), if s == L then y else old(n.left), if s == L then old(n.right) else y, x)
      requires Drawn(x, old(x.color), old(x.val), if s == L then old(x.left) else n, if s == L then n else old(x.right), p)
      requires y != null ==> Drawn(y, old(y.color), old(y.val), old(y.left), old(y.right), n)
      requires p == null ==> root == x
      requires p != null ==> root == old(root) && Drawn(p, old(p.color), old(p.val),
        if c.side == L then x else old(p.left), if c.side == L then old(p.right) else x, old(p.parent))
      ensures Holds(PulledUp(t, s), c)
    {
      PulledUpIds(t, s);
      var a, tx := Child(t, Opposite(s)), Child(t, s);
      var b, d := Child(tx, Opposite(s)), Child(tx, s);
      assert Separate(tx) && Separate(b) && old(TreeAt(tx, n)) && old(TreeAt(b, x));
      assert p !in Ids(t) && (b.Node? ==> y in Ids(b));
      assert TreeAt(a, n) && TreeAt(d, x);
      assert TreeAt(b, n);
      CtxRelinked(c, n, x, p, if c.Top? then {} else Ids(c.sib) + CtxIds(c.up));
    }

    method LeftRotate(node: RbNode, ghost t: Tree<RbNode>, ghost c: Ctx<RbNode>, ghost all: set<RbNode>)
      requires Holds(t, c) && t.Node? && t.id == node && t.right.Node? && all == Ids(t) + CtxIds(c)
      modifies this`root, all
      ensures Holds(PulledUp(t, R), c) && Ids(PulledUp(t, R)) == Ids(t)
    {
      PulledUpIds(t, R);
      ghost var r, rl := t.right, t.right.left;
      assert TreeAt(r, node) && TreeAt(rl, r.id) && Separate(r) && Separate(rl);
      assert Ids(rl) <= Ids(r) && (rl.Node? ==> rl.id in Ids(rl)) && HoleParent(c) !in Ids(t);
      var p := node.parent;
      var rchild := node.right;
      if rchild.left != null {
        rchild.left.parent := node;
      }
      node.right := rchild.left;
      rchild.parent := p;
      if p == null {
        root := rchild;
      } else if p.left == node {
        p.left := rchild;
      } else if p.right == node {
        p.right := rchild;
      }
      rchild.left := node;
      node.parent := rchild;
      RotationWrites(R, t, c, all, node, rchild, RootId(rl), p);
    }

    method RightRotate(node: RbNode, ghost t: Tree<RbNode>, ghost c: Ctx<RbNode>, ghost all: set<RbNode>)
      requires Holds(t, c) && t.Node? && t.id == node && t.left.Node? && all == Ids(t) + CtxIds(c)
      modifies this`root, all
      ensures Holds(PulledUp(t, L), c) && Ids(PulledUp(t, L)) == Ids(t)
    {
      PulledUpIds(t, L);
      ghost var l, lr := t.left, t.left.right;
      assert TreeAt(l, node) && TreeAt(lr, l.id) && Separate(l) && Separate(lr);
      assert Ids(lr) <= Ids(l) && (lr.Node? ==> lr.id in Ids(lr)) && HoleParent(c) !in Ids(t);
      var p := node.parent;
      var lchild := node.left;
      if lchild.right != null {
        lchild.right.parent := node;
      }
      node.left := lchild.right;
      lchild.parent := p;
      if p == null {
        root := lchild;
      } else if p.left == node {
        p.left := lchild;
      } else {
        p.right := lchild;
      }
      lchild.right := node;
      node.parent := lchild;
      RotationWrites(L, t, c, all, node, lchild, RootId(lr), p);
    }

    method SetColor(n: RbNode, color: Color, ghost t: Tree<RbNode>, ghost c: Ctx<RbNode>)
      requires Holds(t, c) && t.Node? && t.id == n
      modifies n`color
      ensures Holds(Paint(t, color), c) && Ids(Paint(t, color)) == Ids(t)
    {
      n.color := color;
    }

    // ---------- Insertion ----------

    /** Lines 122-124: grandparent red, then uncle black, then parent black. */
    method Recolor(p: RbNode, pp: RbNode, u: RbNode, rule: UncleRule,
                   ghost t: Tree<RbNode>, ghost c: Ctx<RbNode>, ghost all: set<RbNode>)
      requires Holds(t, c) && c.Frame? && c.up.Frame? && all == Ids(t) + CtxIds(c)
      requires p == c.id && pp == c.up.id
      requires u == if UncleIsParent(rule, c.side, c.up.side) then p else RootId(c.up.sib)
      modifies all
      ensures var uncle := if UncleIsParent(rule, c.side, c.up.side) then c.up.sib else Blacken(c.up.sib);
        && Holds(RbInsert.Recolored(t, c, uncle), c.up.up)
        && all == Ids(RbInsert.Recolored(t, c, uncle)) + CtxIds(c.up.up)
    {
      ghost var g := c.up;
      ghost var tp := Build(c.side, c.id, c.color, c.key, t, c.sib);
      Refocus(t, c);
      Refocus(tp, g);
      SetColor(pp, Red, Build(g.side, g.id, g.color, g.key, tp, g.sib), g.up);
      ghost var g1 := g.(color := Red);
      ghost var sib := g.sib;
      if u != p {
        ghost var o := Frame(Opposite(g.side), g.id, Red, g.key, tp, g.up);
        Refocus(sib, o);
        SetColor(u, Black, sib, o);
        sib := Blacken(sib);
        Refocus(sib, o);
      }
      g1 := g1.(sib := sib);
      Refocus(tp, g1);
      SetColor(p, Black, tp, g1);
      Refocus(Blacken(tp), g1);
    }

    /** Lines 129-173: the outer single rotation or the inner double rotation. */
    method RotateFamily(locate: RbNode, p: RbNode, pp: RbNode,
                        ghost t: Tree<RbNode>, ghost c: Ctx<RbNode>, ghost all: set<RbNode>) returns (inner: bool)
      requires Holds(t, c) && t.Node? && c.Frame? && c.up.Frame? && all == Ids(t) + CtxIds(c)
      requires locate == t.id && p == c.id && pp == c.up.id
      modifies this`root, all
      ensures inner == (c.side != c.up.side)
      ensures Holds(RbInsert.Rotated(t, c), c.up.up)
      ensures all == Ids(RbInsert.Rotated(t, c)) + CtxIds(c.up.up)
    {
      ghost var g := c.up;
      ghost var tp := Build(c.side, c.id, c.color, c.key, t, c.sib);
      Refocus(t, c);
      Refocus(tp, g);
      ghost var tpp := Build(g.side, g.id, g.color, g.key, tp, g.sib);
      if p == pp.left {
        assert g.side == L;
        if locate == p.left {
          SetColor(p, Black, tp, g);
          Refocus(Blacken(tp), g);
          tpp := tpp.(left := Blacken(tp));
          SetColor(pp, Red, tpp, g.up);
          RightRotate(pp, Paint(tpp, Red), g.up, all);
          inner := false;
        } else {
          LeftRotate(p, tp, g, all);
          ghost var ti := PulledUp(tp, R);
          SetColor(locate, Black, ti, g);
          Refocus(Blacken(ti), g);
          tpp := tpp.(left := Blacken(ti));
          SetColor(pp, Red, tpp, g.up);
          RightRotate(pp, Paint(tpp, Red), g.up, all);
          inner := true;
        }
      } else {
        assert g.side == R;
        if locate == p.right {
          SetColor(p, Black, tp, g);
          Refocus(Blacken(tp), g);
          tpp := tpp.(right := Blacken(tp));
          SetColor(pp, Red, tpp, g.up);
          LeftRotate(pp, Paint(tpp, Red), g.up, all);
          inner := false;
        } else {
          RightRotate(p, tp, g, all);
          ghost var ti := PulledUp(tp, L);
          SetColor(locate, Black, ti, g);
          Refocus(Blacken(ti), g);
          tpp := tpp.(right := Blacken(ti));
          SetColor(pp, Red, tpp, g.up);
          LeftRotate(pp, Paint(tpp, Red), g.up, all);
          inner := true;
        }
      }
    }

    lemma {:induction false} AppendTop(c: Ctx<RbNode>)
      ensures Append(c, Top) == c
    {
      if c.Frame? { AppendTop(c.up); }
    }

    /** The whole tree, seen from the root. */
    lemma FromRoot(t: Tree<RbNode>, c: Ctx<RbNode>)
      ensures Holds(t, c) <==> Holds(Plug(t, c), Top)
      ensures Ids(t) + CtxIds(c) == Ids(Plug(t, c))
    {
      AppendTop(c);
      RefocusAll(t, c, Top);
      assert Ids(Plug(t, c)) + CtxIds(Top) == Ids(Plug(t, c));
    }

    lemma HoleParentColor(t: Tree<RbNode>, c: Ctx<RbNode>)
      requires Holds(t, c) && t.Node?
      ensures t.id.parent == HoleParent(c)
      ensures c.Frame? ==> c.id.color == c.color && c.id.parent == HoleParent(c.up)
      ensures c.Frame? ==> c.id.left == if c.side == L then t.id else RootId(c.sib)
      ensures c.Frame? ==> c.id.right == if c.side == L then RootId(c.sib) else t.id
      ensures c.Frame? ==> t.id != RootId(c.sib)
      ensures c.Frame? && c.sib.Node? ==> c.sib.id.color == c.sib.color
    {
    }

    /** The grandparent exists and its links are as drawn. */
    lemma Grandparent(t: Tree<RbNode>, c: Ctx<RbNode>)
      requires Holds(t, c) && t.Node? && c.Frame? && c.color == Red && RootBlack(c)
      ensures c.up.Frame? && RootBlack(c.up.up) && Depth(c) == 2 + Depth(c.up.up)
      ensures c.id.parent == c.up.id && (t.id == c.id.right <==> c.side == R)
      ensures c.up.id.left == if c.up.side == L then c.id else RootId(c.up.sib)
      ensures c.up.id.right == if c.up.side == L then RootId(c.up.sib) else c.id
      ensures c.id != RootId(c.up.sib) && c.id.color == Red
      ensures c.up.sib.Node? ==> c.up.sib.id.color == c.up.sib.color
    {
      HoleParentColor(t, c);
      Refocus(t, c);
      HoleParentColor(Build(c.side, c.id, c.color, c.key, t, c.sib), c.up);
    }

    /** Lines 111-174: one turn of the loop, for a node whose parent is red. */
    method Climb(rule: UncleRule, locate: RbNode, ghost t: Tree<RbNode>, ghost c: Ctx<RbNode>, ghost all: set<RbNode>)
      returns (next: RbNode, done: bool, ghost t': Tree<RbNode>, ghost c': Ctx<RbNode>)
      requires Holds(t, c) && t.Node? && t.id == locate && all == Ids(t) + CtxIds(c)
      requires c.Frame? && c.color == Red && RootBlack(c)
      modifies this`root, all
      ensures Holds(t', c') && t'.Node? && all == Ids(t') + CtxIds(c')
      ensures RootBlack(c') && Depth(c') < Depth(c)
      ensures !done ==> t'.id == next && FixUp(rule, t', c') == FixUp(rule, t, c)
      ensures done ==> Plug(t', c') == FixUp(rule, t, c)
    {
      Grandparent(t, c);
      ghost var g := c.up;
      HoleParentColor(t, c);
      var p := locate.parent;
      var pp := p.parent;
      var u := if rule == BySide
               then if locate == p.right then pp.left else pp.right
               else if p == pp.left then pp.right else pp.left;
      if u != null && u.color == Red {
        Recolor(p, pp, u, rule, t, c, all);
        ghost var uncle := if UncleIsParent(rule, c.side, g.side) then g.sib else Blacken(g.sib);
        return pp, false, RbInsert.Recolored(t, c, uncle), g.up;
      }
      done := RotateFamily(locate, p, pp, t, c, all);
      if done {
        return locate, true, RbInsert.Rotated(t, c), g.up;
      }
      c' := Frame(c.side, c.id, Black, c.key, Build(c.side, g.id, Red, g.key, c.sib, g.sib), g.up);
      Refocus(t, c');
      return locate, false, t, c';
    }

    /** Lines 105-177: climb while the parent is red, then paint the root black. */
    method Rebalance(rule: UncleRule, node: RbNode, ghost t0: Tree<RbNode>, ghost c0: Ctx<RbNode>,
                     ghost all: set<RbNode>)
      requires Holds(t0, c0) && t0.Node? && t0.id == node && RootBlack(c0) && all == Ids(t0) + CtxIds(c0)
      modifies this`root, all
      ensures Holds(Blacken(FixUp(rule, t0, c0)), Top)
      ensures Ids(Blacken(FixUp(rule, t0, c0))) == all
    {
      var locate, done := node, false;
      ghost var t, c := t0, c0;
      HoleParentColor(t, c);
      while !done && locate.parent != null && locate.parent.color == Red
        invariant Holds(t, c) && t.Node? && RootBlack(c) && all == Ids(t) + CtxIds(c)
        invariant !done ==> t.id == locate && locate.parent == HoleParent(c) && (c.Frame? ==> c.id.color == c.color)
        invariant !done ==> FixUp(rule, t, c) == FixUp(rule, t0, c0)
        invariant done ==> Plug(t, c) == FixUp(rule, t0, c0)
        decreases Depth(c)
      {
        locate, done, t, c := Climb(rule, locate, t, c, all);
        HoleParentColor(t, c);
      }
      FromRoot(t, c);
      SetColor(root, Black, Plug(t, c), Top);
    }

    // ---------- Search and insert ----------

    method Search(v: int) returns (found: RbNode?, ghost visits: nat)
      requires Valid()
      ensures found != null <==> v in Keys(shape)
      ensures found != null ==> found in nodes && found.val == v
      ensures found == RootId(Descend(shape, v, Top).0)
      ensures visits == Visits(shape, v)
    {
      found, visits := root, 0;
      ghost var t, c := shape, Top;
      DescendFinds(shape, v);
      while found != null
        invariant Holds(t, c) && found == RootId(t) && Ids(t) <= Ids(shape)
        invariant Descend(t, v, c) == Descend(shape, v, Top)
        invariant visits + Visits(t, v) == Visits(shape, v)
        decreases t
      {
        visits := visits + 1;
        if found.val > v {
          c := Frame(L, t.id, t.color, t.key, t.right, c);
          t := t.left;
          Refocus(t, c);
          found := found.left;
        } else if found.val < v {
          c := Frame(R, t.id, t.color, t.key, t.left, c);
          t := t.right;
          Refocus(t, c);
          found := found.right;
        } else {
          return;
        }
      }
    }

    /** Lines 78-93: the last node looked at before the null link where `v` belongs, unless `v` is met. */
    method Locate(v: int) returns (p: RbNode, found: bool, ghost t: Tree<RbNode>, ghost c: Ctx<RbNode>)
      requires Holds(shape, Top) && root != null
      ensures Holds(shape, Top) && Holds(t, c) && Ids(t) + CtxIds(c) == Ids(shape)
      ensures (t, c) == Descend(shape, v, Top) && found == Descend(shape, v, Top).0.Node?
      ensures !found ==> c.Frame? && p == c.id && p.val != v && (c.side == L <==> v < p.val)
    {
      var r := root;
      p, found := r, false;
      t, c := shape, Top;
      while r != null
        invariant Holds(shape, Top) && Holds(t, c) && r == RootId(t) && Ids(t) + CtxIds(c) == Ids(shape)
        invariant Descend(t, v, c) == Descend(shape, v, Top)
        invariant c.Top? ==> t.Node?
        invariant c.Frame? ==> p == c.id && p.val != v && (c.side == L <==> v < p.val)
        decreases t
      {
        p := r;
        if r.val > v {
          c := Frame(L, t.id, t.color, t.key, t.right, c);
          t := t.left;
          Refocus(t, c);
          r := r.left;
        } else if p.val < v {
          c := Frame(R, t.id, t.color, t.key, t.left, c);
          t := t.right;
          Refocus(t, c);
          r := r.right;
        } else {
          found := true;
          return;
        }
      }
    }

    /** Lines 95-101: hang the new red node under `p`. */
    method Attach(locate: RbNode, p: RbNode, ghost c: Ctx<RbNode>)
      requires Holds(Leaf, c) && c.Frame? && p == c.id && locate !in CtxIds(c)
      requires Drawn(locate, Red, locate.val, null, null, null)
      requires p.val != locate.val && (c.side == L <==> locate.val < p.val)
      modifies locate, p
      ensures locate.val == old(locate.val)
      ensures Holds(Node(locate, Red, locate.val, Leaf, Leaf), c)
    {
      locate.parent := p;
      if locate.val < p.val {
        p.left := locate;
      } else {
        p.right := locate;
      }
    }

    /** Lines 78-177: locate, attach and rebalance, in a tree that is not empty. */
    method InsertBelow(rule: UncleRule, locate: RbNode)
      requires Holds(shape, Top) && root != null && !IsRed(shape) && locate !in Ids(shape)
      requires Drawn(locate, Red, locate.val, null, null, null)
      modifies this`root, Ids(shape), locate
      ensures Holds(RbInsert.Insert(rule, shape, old(locate.val), locate), Top)
      ensures Ids(RbInsert.Insert(rule, shape, old(locate.val), locate)) <= Ids(shape) + {locate}
    {
      var p, found;
      ghost var t, c;
      p, found, t, c := Locate(locate.val);
      if found {
        return;
      }
      RootOfPlug(t, c);
      assert CtxIds(c) <= Ids(shape);
      Attach(locate, p, c);
      Rebalance(rule, locate, Node(locate, Red, locate.val, Leaf, Leaf), c, {locate} + CtxIds(c));
    }

    /** Lines 62-178 on the links. */
    method Place(rule: UncleRule, locate: RbNode)
      requires Holds(shape, Top) && !IsRed(shape) && locate !in Ids(shape)
      requires Drawn(locate, Red, locate.val, null, null, null)
      modifies this`root, Ids(shape), locate
      ensures Holds(RbInsert.Insert(rule, shape, old(locate.val), locate), Top)
      ensures Ids(RbInsert.Insert(rule, shape, old(locate.val), locate)) <= Ids(shape) + {locate}
    {
      if root == null {
        root := locate;
        root.color := Black;
      } else {
        InsertBelow(rule, locate);
      }
    }

    /** What `RbInsert` proves of the new tree, together. */
    lemma InsertKeeps(rule: UncleRule, t: Tree<RbNode>, v: int, id: RbNode)
      requires Ascending(Keys(t))
      ensures var r := RbInsert.Insert(rule, t, v, id);
        && Ascending(Keys(r)) && (v in Keys(t) ==> r == t) && (!IsRed(t) ==> !IsRed(r))
        && (forall x :: x in Keys(r) <==> x == v || x in Keys(t))
        && (rule == SiblingOfParent && RedBlack(t) ==> RedBlack(r))
    {
      InsertKeys(rule, t, v, id);
      if RedBlack(t) {
        InsertKeepsRedBlack(t, v, id);
      }
    }

    /** Under either reading of the uncle, the linked tree becomes exactly `RbInsert.Insert` of the old one. */
    method Insert(rule: UncleRule, v: int) returns (ghost node: RbNode)
      requires Valid()
      modifies this, nodes
      ensures Valid() && fresh(node) && nodes <= old(nodes) + {node}
      ensures shape == RbInsert.Insert(rule, old(shape), v, node)
      ensures v in Keys(old(shape)) ==> shape == old(shape)
      ensures forall x :: x in Keys(shape) <==> x == v || x in Keys(old(shape))
      ensures rule == SiblingOfParent && RedBlack(old(shape)) ==> RedBlack(shape)
      ensures nodes == old(nodes) + if v in Keys(old(shape)) then {} else {node}
      ensures (forall n :: n in old(nodes) ==> n.val == old(n.val)) && (node in nodes ==> node.val == v)
    {
      hide Items;
      hide RedBlack;
      hide Ascending;
      hide Keys;
      hide RbInsert.Insert;
      var locate := new RbNode(v);
      assert Valid();
      node := locate;
      InsertKeeps(rule, shape, v, node);
      ItemsAt(shape, null);
      InsertItems(rule, shape, v, node);
      Place(rule, locate);
      shape := RbInsert.Insert(rule, shape, v, node);
      nodes := Ids(shape);
      ItemsAt(shape, null);
    }

    // ---------- Deletion of a childless node ----------

    ghost function FrameTree(t: Tree<RbNode>, c: Ctx<RbNode>): Tree<RbNode>
      requires c.Frame?
    {
      Build(c.side, c.id, c.color, c.key, t, c.sib)
    }

    /** Rotate `n` so that it goes down on side `s`. */
    method RotateDown(s: Side, n: RbNode, ghost t: Tree<RbNode>, ghost c: Ctx<RbNode>, ghost all: set<RbNode>)
      requires Holds(t, c) && t.Node? && t.id == n && Child(t, Opposite(s)).Node? && all == Ids(t) + CtxIds(c)
      modifies this`root, all
      ensures Holds(PulledUp(t, Opposite(s)), c) && Ids(PulledUp(t, Opposite(s))) == Ids(t)
    {
      if s == L {
        LeftRotate(n, t, c, all);
      } else {
        RightRotate(n, t, c, all);
      }
    }

    /** Paint the child on side `s`. */
    method SetChildColor(n: RbNode, color: Color, ghost s: Side, ghost t: Tree<RbNode>, ghost c: Ctx<RbNode>)
      requires Holds(t, c) && t.Node? && Child(t, s).Node? && Child(t, s).id == n
      modifies n`color
      ensures var t' := Build(s, t.id, t.color, t.key, Paint(Child(t, s), color), Child(t, Opposite(s)));
        Holds(t', c) && Ids(t') == Ids(t)
    {
      ghost var x := Child(t, s);
      ghost var f := Frame(s, t.id, t.color, t.key, Child(t, Opposite(s)), c);
      Refocus(x, f);
      SetColor(n, color, x, f);
      Refocus(Paint(x, color), f);
    }

    /** Lines 317-322 and 346-351: a red sibling `b` is rotated over the parent `p`. */
    method RotateRedSibling(s: Side, p: RbNode, b: RbNode, ghost t: Tree<RbNode>, ghost c: Ctx<RbNode>,
                            ghost all: set<RbNode>)
      requires Holds(t, c) && c.Frame? && IsRed(c.sib) && all == Ids(t) + CtxIds(c)
      requires s == c.side && p == c.id && b == c.sib.id
      modifies this`root, all
      ensures Holds(t, SiblingBlack(c)) && all == Ids(t) + CtxIds(SiblingBlack(c))
    {
      ghost var d := SiblingBlack(c);
      ghost var f := FrameTree(t, c);
      var o := Opposite(s);
      Refocus(t, c);
      SetChildColor(b, Black, o, f, c.up);
      f := Build(o, c.id, c.color, c.key, Blacken(c.sib), t);
      SetColor(p, Red, f, c.up);
      f := Paint(f, Red);
      RotateDown(s, p, f, c.up, all);
      assert PulledUp(f, o) == FrameTree(FrameTree(t, d), d.up);
      Refocus(FrameTree(t, d), d.up);
      Refocus(t, d);
    }

    /** Lines 327 and 355: a black sibling turns red. */
    method LowerSibling(b: RbNode, ghost t: Tree<RbNode>, ghost c: Ctx<RbNode>, ghost all: set<RbNode>)
      requires Holds(t, c) && c.Frame? && c.sib.Node? && b == c.sib.id && all == Ids(t) + CtxIds(c)
      modifies b`color
      ensures Holds(Lowered(t, c), c.up) && all == Ids(Lowered(t, c)) + CtxIds(c.up)
    {
      Refocus(t, c);
      SetChildColor(b, Red, Opposite(c.side), FrameTree(t, c), c.up);
    }

    /** Lines 333-336 and 360-363: the red near child `n` is rotated over the sibling `b`. */
    method RotateNearChild(s: Side, b: RbNode, n: RbNode, ghost t: Tree<RbNode>, ghost c: Ctx<RbNode>,
                           ghost all: set<RbNode>)
      requires Holds(t, c) && c.Frame? && c.sib.Node? && Child(c.sib, c.side).Node? && all == Ids(t) + CtxIds(c)
      requires s == c.side && b == c.sib.id && n == Child(c.sib, c.side).id
      modifies this`root, all
      ensures Holds(t, c.(sib := FarRed(s, c.sib))) && all == Ids(t) + CtxIds(c.(sib := FarRed(s, c.sib)))
    {
      var o := Opposite(s);
      ghost var x := c.sib;
      ghost var f := Frame(o, c.id, c.color, c.key, t, c.up);
      Refocus(t, c);
      Refocus(x, f);
      SetChildColor(n, Black, s, x, f);
      x := Build(s, x.id, x.color, x.key, Blacken(Child(x, s)), Child(x, o));
      SetColor(b, Red, x, f);
      x := Paint(x, Red);
      RotateDown(o, b, x, f, all);
      assert PulledUp(x, s) == FarRed(s, c.sib);
      Refocus(FarRed(s, c.sib), f);
      Refocus(t, c.(sib := FarRed(s, c.sib)));
    }

    /** Lines 338-341 and 365-368: the sibling `b` takes the parent's place and colour. */
    method Borrow(s: Side, p: RbNode, b: RbNode, far: RbNode, ghost t: Tree<RbNode>, ghost c: Ctx<RbNode>,
                  ghost all: set<RbNode>)
      requires Holds(t, c) && c.Frame? && c.sib.Node? && Child(c.sib, Opposite(s)).Node? && all == Ids(t) + CtxIds(c)
      requires s == c.side && p == c.id && b == c.sib.id && far == Child(c.sib, Opposite(s)).id
      modifies this`root, all
      ensures Holds(Borrowed(t, c, c.sib), c.up) && all == Ids(Borrowed(t, c, c.sib)) + CtxIds(c.up)
    {
      var o := Opposite(s);
      ghost var x := c.sib;
      Refocus(t, c);
      ghost var f := FrameTree(t, c);
      SetChildColor(b, p.color, o, f, c.up);
      x := Paint(x, c.color);
      f := Build(s, c.id, c.color, c.key, t, x);
      SetColor(p, Black, f, c.up);
      f := Blacken(f);
      ghost var g := Frame(o, c.id, Black, c.key, t, c.up);
      Refocus(x, g);
      SetChildColor(far, Black, o, x, g);
      x := Build(s, x.id, x.color, x.key, Child(x, s), Blacken(Child(x, o)));
      Refocus(x, g);
      f := Build(s, c.id, Black, c.key, t, x);
      RotateDown(s, p, f, c.up, all);
      assert PulledUp(f, o) == Borrowed(t, c, c.sib);
    }

    /** Where `t` stands after the borrow. */
    ghost function BorrowedCtx(c: Ctx<RbNode>, b: Tree<RbNode>): Ctx<RbNode>
      requires c.Frame? && b.Node?
    {
      Frame(c.side, c.id, Black, c.key, Child(b, c.side),
        Frame(c.side, b.id, c.color, b.key, Blacken(Child(b, Opposite(c.side))), c.up))
    }

    lemma BorrowedPlug(t: Tree<RbNode>, c: Ctx<RbNode>, b: Tree<RbNode>)
      requires c.Frame? && b.Node?
      ensures Plug(t, BorrowedCtx(c, b)) == Plug(Borrowed(t, c, b), c.up)
      ensures Holds(t, BorrowedCtx(c, b)) <==> Holds(Borrowed(t, c, b), c.up)
      ensures Ids(t) + CtxIds(BorrowedCtx(c, b)) == Ids(Borrowed(t, c, b)) + CtxIds(c.up)
    {
      var d := BorrowedCtx(c, b);
      Refocus(t, d);
      Refocus(FrameTree(t, d), d.up);
    }

    /** The links and colours of a node and its children, as drawn. */
    lemma NodeLinks(t: Tree<RbNode>, p: RbNode?)
      requires TreeAt(t, p) && t.Node?
      ensures t.id.left == RootId(t.left) && t.id.right == RootId(t.right) && t.id.color == t.color
      ensures t.left.Node? ==> t.left.id.color == t.left.color
      ensures t.right.Node? ==> t.right.id.color == t.right.color
    {
    }

    /** Lines 313-322 and 344-351: the side of `node`, and its sibling, made black. */
    method BlackSibling(node: RbNode, p: RbNode, ghost t: Tree<RbNode>, ghost c: Ctx<RbNode>, ghost all: set<RbNode>)
      returns (s: Side, b: RbNode)
      requires Holds(t, c) && t.Node? && t.id == node && c.Frame? && c.id == p && all == Ids(t) + CtxIds(c)
      requires c.sib.Node? && SiblingBlack(c).sib.Node?
      modifies this`root, all
      ensures s == c.side && b == SiblingBlack(c).sib.id
      ensures Holds(t, SiblingBlack(c)) && all == Ids(t) + CtxIds(SiblingBlack(c))
    {
      HoleParentColor(t, c);
      s := if p.left == node then L else R;
      b := if s == L then p.right else p.left;
      if b.color == Red {
        RotateRedSibling(s, p, b, t, c, all);
        HoleParentColor(t, SiblingBlack(c));
        b := if s == L then p.right else p.left;
      }
    }

    /** Lines 331-342 and 359-369: some child of the sibling `b` is red and pays for the missing black node. */
    method BorrowFromSibling(reading: Reading, s: Side, p: RbNode, b0: RbNode,
                             ghost t: Tree<RbNode>, ghost c: Ctx<RbNode>, ghost all: set<RbNode>)
      returns (ghost x: Tree<RbNode>)
      requires Holds(t, c) && t.Node? && c.Frame? && c.id == p && c.side == s && all == Ids(t) + CtxIds(c)
      requires c.sib.Node? && b0 == c.sib.id
      requires var far := FarBlack(reading, Child(c.sib, Opposite(s)));
        far.Some? && (far.value ==> Child(c.sib, s).Node?)
      modifies this`root, all
      ensures x == if FarBlack(reading, Child(c.sib, Opposite(s))).value then FarRed(s, c.sib) else c.sib
      ensures Holds(t, BorrowedCtx(c, x)) && all == Ids(t) + CtxIds(BorrowedCtx(c, x))
    {
      NodeLinks(c.sib, c.id);
      var b := b0;
      ghost var c' := c;
      var far := if s == L then b.right else b.left;
      if (reading == Intended && far == null) || far.color == Black {
        RotateNearChild(s, b, if s == L then b.left else b.right, t, c, all);
        c' := c.(sib := FarRed(s, c.sib));
        HoleParentColor(t, c');
        b := if s == L then p.right else p.left;
        NodeLinks(c'.sib, c'.id);
      }
      x := c'.sib;
      Borrow(s, p, b, if s == L then b.right else b.left, t, c', all);
      BorrowedPlug(t, c, x);
    }

    /**
     Lines 313-371, both sides: one turn of the delete loop for the node `t` in `c`.  `u` is any tree
     standing where `t` stands; only its colour matters.
     */
    method DeleteTurn(reading: Reading, node: RbNode, p: RbNode, ghost t: Tree<RbNode>, ghost c: Ctx<RbNode>,
                      ghost u: Tree<RbNode>, ghost all: set<RbNode>)
      returns (done: bool, ghost c': Ctx<RbNode>)
      requires Holds(t, c) && t.Node? && t.id == node && c.Frame? && c.id == p && all == Ids(t) + CtxIds(c)
      requires !IsRed(u) && FixUpDelete(reading, u, c).Some?
      modifies this`root, all
      ensures c'.Frame? && c'.id == p
      ensures done ==> Holds(t, c') && all == Ids(t) + CtxIds(c') && FixUpDelete(reading, u, c) == Some(Plug(u, c'))
      ensures !done ==> c' == SiblingBlack(c) && Holds(Lowered(t, c'), c'.up)
      ensures !done ==> all == Ids(Lowered(t, c')) + CtxIds(c'.up)
      ensures !done ==> FixUpDelete(reading, u, c) == FixUpDelete(reading, Lowered(u, c'), c'.up)
    {
      var s, b := BlackSibling(node, p, t, c, all);
      c' := SiblingBlack(c);
      NodeLinks(c'.sib, c'.id);
      var bothBlack := if reading == AsWritten && s == R
                       then (b.left == null || b.left.color == Black) && (b.right == null || b.left.color == Black)
                       else (b.left == null || b.left.color == Black) && (b.right == null || b.right.color == Black);
      if bothBlack {
        LowerSibling(b, t, c', all);
        return false, c';
      }
      ghost var x := BorrowFromSibling(reading, s, p, b, t, c', all);
      BorrowedPlug(u, c', x);
      return true, BorrowedCtx(c', x);
    }

    /** Lines 132-142: cut the leaf off its parent. */
    method DeleteLeafNode(leaf: RbNode, ghost t: Tree<RbNode>, ghost c: Ctx<RbNode>, ghost all: set<RbNode>)
      requires Holds(t, c) && Childless(t) && t.id == leaf && all == Ids(t) + CtxIds(c)
      modifies this`root, CtxIds(c)
      ensures Holds(Leaf, c)
    {
      HoleParentColor(t, c);
      NotRoot(t, c);
      CutOff(leaf);
      assert c.Frame? ==> TreeAt(c.sib, c.id) && CtxAt(c.up, c.id);
    }

    /** `delete_leaf_node`, whatever the links are. */
    method CutOff(leaf: RbNode)
      requires leaf == root || leaf.parent != null
      modifies this`root, if leaf == root then {} else {leaf.parent}
      ensures root == if leaf == old(root) then null else old(root)
      ensures leaf != old(root) ==> var p := old(leaf.parent);
        var was := old(p.left) == leaf;
        Drawn(p, old(p.color), old(p.val), if was then null else old(p.left), if was then old(p.right) else null, old(p.parent))
    {
      if leaf == root {
        root := null;
        return;
      }
      var p := leaf.parent;
      if p.left == leaf {
        p.left := null;
      } else {
        p.right := null;
      }
    }

    /** The root link leads into the outermost frame. */
    lemma {:induction false} NotRoot(t: Tree<RbNode>, c: Ctx<RbNode>)
      requires Holds(t, c) && t.Node?
      ensures root == t.id <==> c.Top?
    {
      if c.Frame? {
        OutermostInCtx(c, t.id);
      }
    }

    lemma {:induction false} OutermostInCtx(c: Ctx<RbNode>, h: RbNode)
      requires c.Frame? && CtxAt(c, h)
      ensures root in CtxIds(c)
    {
      if c.up.Frame? {
        OutermostInCtx(c.up, c.id);
      }
    }

    // ---------- The doomed leaf stays in place while the loop climbs ----------

    ghost function BlackenOuter(i: Ctx<RbNode>): Ctx<RbNode> {
      if i.Top? then i
      else if i.up.Top? then i.(color := Black)
      else i.(up := BlackenOuter(i.up))
    }

    lemma {:induction false} BlackenPlug(x: Tree<RbNode>, i: Ctx<RbNode>)
      requires !IsRed(x)
      ensures Blacken(Plug(x, i)) == Plug(x, BlackenOuter(i))
      ensures Plug(x, i).Node? <==> x.Node? || i.Frame?
      ensures IsRed(Plug(x, i)) <==> i.Frame? && !RootBlack(i)
      decreases i
    {
      if i.Frame? {
        if i.up.Frame? {
          var y := Build(i.side, i.id, i.color, i.key, x, i.sib);
          BlackenPlugUp(y, i.up);
        }
      }
    }

    lemma {:induction false} BlackenPlugUp(y: Tree<RbNode>, i: Ctx<RbNode>)
      requires i.Frame?
      ensures Blacken(Plug(y, i)) == Plug(y, BlackenOuter(i))
      ensures Plug(y, i).Node? && (IsRed(Plug(y, i)) <==> !RootBlack(i))
      decreases i
    {
      if i.up.Frame? {
        BlackenPlugUp(Build(i.side, i.id, i.color, i.key, y, i.sib), i.up);
      }
    }

    lemma LoweredPlug(x: Tree<RbNode>, i: Ctx<RbNode>, c: Ctx<RbNode>)
      requires c.Frame?
      ensures Lowered(Plug(x, i), c) ==
        Plug(x, Append(i, Frame(c.side, c.id, c.color, c.key, Paint(c.sib, Red), Top)))
    {
      var f := Frame(c.side, c.id, c.color, c.key, Paint(c.sib, Red), Top);
      PlugAppend(x, i, f);
      assert Plug(Plug(x, i), f) == Plug(Lowered(Plug(x, i), c), Top);
    }

    /** Lines 309-373: the loop, run with the black leaf `d` still in place. */
    method RepairAround(reading: Reading, d: RbNode, ghost dt: Tree<RbNode>, ghost c0: Ctx<RbNode>,
                        ghost all: set<RbNode>)
      returns (ghost j: Ctx<RbNode>)
      requires Holds(dt, c0) && Childless(dt) && dt.id == d && dt.color == Black && all == Ids(dt) + CtxIds(c0)
      requires FixUpDelete(reading, Leaf, c0).Some?
      modifies this`root, all
      ensures Holds(dt, j) && all == Ids(dt) + CtxIds(j)
      ensures FixUpDelete(reading, Leaf, c0) == Some(Plug(Leaf, j))
    {
      var node, p, done := d, d.parent, false;
      ghost var i, c := Top, c0;
      HoleParentColor(dt, c0);
      NotRoot(dt, c0);
      while !done && node.color == Black && node != root
        invariant var t := Plug(dt, i);
          && Holds(t, c) && all == Ids(t) + CtxIds(c) && t.Node? && t.id == node
          && node.color == t.color && p == HoleParent(c) && (node == root <==> c.Top?)
        invariant !done ==> FixUpDelete(reading, Plug(Leaf, i), c) == FixUpDelete(reading, Leaf, c0)
        invariant done ==> !IsRed(Plug(Leaf, i))
        invariant done ==> FixUpDelete(reading, Leaf, c0) == Some(Plug(Plug(Leaf, i), c))
        decreases !done, Depth(c), node.color == Black
      {
        ghost var t, u := Plug(dt, i), Plug(Leaf, i);
        BlackenPlug(dt, i);
        BlackenPlug(Leaf, i);
        ghost var c';
        done, c' := DeleteTurn(reading, node, p, t, c, u, all);
        if done {
          c := c';
          NotRoot(t, c);
        } else {
          assert Depth(c'.up) < Depth(c) || (Depth(c'.up) == Depth(c) && c'.color == Red);
          LoweredPlug(dt, i, c');
          LoweredPlug(Leaf, i, c');
          i, c := Append(i, Frame(c'.side, c'.id, c'.color, c'.key, Paint(c'.sib, Red), Top)), c'.up;
          node := p;
          HoleParentColor(Lowered(t, c'), c);
          NotRoot(Lowered(t, c'), c);
          p := node.parent;
        }
      }
      ghost var t := Plug(dt, i);
      BlackenPlug(dt, i);
      BlackenPlug(Leaf, i);
      SetColor(node, Black, t, c);
      j := Append(BlackenOuter(i), c);
      RefocusAll(dt, BlackenOuter(i), c);
      PlugAppend(Leaf, BlackenOuter(i), c);
    }

    /** Lines 286-290 and 303-375 on the links: red leaf, or black leaf after the loop. */
    method UnlinkChildless(reading: Reading, d: RbNode, ghost dt: Tree<RbNode>, ghost c: Ctx<RbNode>,
                           ghost all: set<RbNode>) returns (ghost j: Ctx<RbNode>)
      requires Holds(dt, c) && Childless(dt) && dt.id == d && all == Ids(dt) + CtxIds(c)
      requires RemoveLeaf(reading, dt.color, c).Some?
      modifies this`root, all
      ensures Holds(Leaf, j) && CtxIds(j) == all - {d}
      ensures RemoveLeaf(reading, dt.color, c) == Some(Plug(Leaf, j))
    {
      j := c;
      if d.color == Black {
        j := RepairAround(reading, d, dt, c, all);
      }
      DeleteLeafNode(d, dt, j, all);
    }

    /**
     Delete a node without children.  Under `AsWritten` the caller answers for the null dereferences;
     under `Intended` a red-black tree has none.
     */
    method DeleteChildless(reading: Reading, d: RbNode, ghost dt: Tree<RbNode>, ghost c: Ctx<RbNode>)
      requires Valid() && shape == Plug(dt, c) && Childless(dt) && dt.id == d
      requires RemoveLeaf(reading, dt.color, c).Some?
      modifies this, nodes
      ensures Some(shape) == RemoveLeaf(reading, dt.color, c)
      ensures Valid() && nodes == old(nodes) - {d}
      ensures Keys(old(shape)) == KeysBefore(c) + [dt.key] + KeysAfter(c)
      ensures Keys(shape) == KeysBefore(c) + KeysAfter(c)
      ensures forall n :: n in nodes ==> n.val == old(n.val)
    {
      hide RemoveLeaf;
      hide Ascending;
      hide Keys;
      hide Items;
      hide CtxItems;
      DeletedKeys(reading, dt, c);
      ItemsAt(shape, null);
      RemoveLeafItems(reading, dt, c);
      FromRoot(dt, c);
      ghost var j := UnlinkChildless(reading, d, dt, c, nodes);
      FromRoot(Leaf, j);
      shape := Plug(Leaf, j);
      nodes := Ids(shape);
      ItemsAt(shape, null);
    }

    lemma DeletedKeys(reading: Reading, dt: Tree<RbNode>, c: Ctx<RbNode>)
      requires Childless(dt) && Ascending(Keys(Plug(dt, c))) && !IsRed(Plug(dt, c))
      requires RemoveLeaf(reading, dt.color, c).Some?
      ensures var r := RemoveLeaf(reading, dt.color, c).value;
        && !IsRed(r) && Ascending(Keys(r)) && Keys(r) == KeysBefore(c) + KeysAfter(c)
        && Keys(Plug(dt, c)) == KeysBefore(c) + [dt.key] + KeysAfter(c)
    {
      KeysOfPlug(dt, c);
      KeysOfPlug(Leaf, c);
      assert Keys(dt) == [dt.key];
      assert KeysBefore(c) + [] + KeysAfter(c) == KeysBefore(c) + KeysAfter(c);
      if c.Frame? {
        RootOfPlug(dt, c);
        RootOfPlug(Leaf, c);
      }
      if dt.color == Black {
        FixUpDeleteKeys(reading, Leaf, c);
        FixUpDeleteRoot(reading, Leaf, c);
      }
      DropAscending(KeysBefore(c), dt.key, KeysAfter(c));
    }

    lemma DropAscending(a: seq<int>, k: int, b: seq<int>)
      requires Ascending(a + [k] + b)
      ensures Ascending(a + b)
    {
      var s, ab := a + [k] + b, a + b;
      forall i, j | 0 <= i < j < |ab| ensures ab[i] < ab[j] {
        assert ab[i] == s[if i < |a| then i else i + 1];
        assert ab[j] == s[if j < |a| then j else j + 1];
      }
    }

    /** Lines 277-301 and on: delete the node with key `v`, when it has no children. */
    method Delete(reading: Reading, v: int)
      requires Valid()
      requires var (dt, c) := Descend(shape, v, Top);
        dt.Node? ==> Childless(dt) && RemoveLeaf(reading, dt.color, c).Some?
      modifies this, nodes
      ensures Valid()
      ensures forall x :: x in Keys(shape) <==> x in Keys(old(shape)) && x != v
      ensures v !in Keys(old(shape)) ==> shape == old(shape)
      ensures forall n :: n in old(nodes) ==> n.val == old(n.val) || n !in nodes
      ensures forall n :: n in old(nodes) ==> (n in nodes <==> old(n.val) != v)
      ensures nodes <= old(nodes)
      ensures reading == Intended && RedBlack(old(shape)) ==> RedBlack(shape)
    {
      hide Items;
      hide RedBlack;
      hide Keys;
      hide Ascending;
      hide RemoveLeaf;
      ghost var dt, c := Descend(shape, v, Top).0, Descend(shape, v, Top).1;
      var d;
      ghost var visits;
      d, visits := Search(v);
      ItemsAt(shape, null);
      if d == null {
        return;
      }
      if RedBlack(shape) {
        RemoveLeafRestores(dt, c);
      }
      DeleteChildless(reading, d, dt, c);
      GoneKey(KeysBefore(c), v, KeysAfter(c));
      ItemsAt(shape, null);
    }

    lemma GoneKey(a: seq<int>, k: int, b: seq<int>)
      requires Ascending(a + [k] + b)
      ensures forall x :: x in a + b <==> x in a + [k] + b && x != k
    {
      SplitAscending(a, k, b);
    }

    /** `n1` is higher than `n2`. */
    ghost predicate Higher(n1: RbNode, n2: RbNode)
      reads n1, n2
    {
      n2.parent != null && n2.parent !in {n2, n1.parent} && n1.parent !in {n1, n2} && n2.left != n2
    }

    /**
     `change_rb_node`, the swap for nodes with children.  It never updates the children's parent links, so
     whenever the upper node has a child the links are inconsistent afterwards: some child of `n2` does
     not name `n2` as its parent.  When `n2` is a child of `n1`, both end up as their own child.
     */
    method ChangeNode(n1: RbNode, n2: RbNode)
      requires n1 != n2 ==> Higher(n1, n2)
      modifies this`root, n1, n2, if n1.parent == null then {} else {n1.parent}, if n2.parent == null then {} else {n2.parent}
      ensures n1 == n2 ==> unchanged(this`root, n1) && (n1.parent != null ==> unchanged(n1.parent))
      ensures n1 != n2 ==> Drawn(n2, old(n1.color), old(n2.val), old(n1.left), old(n1.right), old(n1.parent))
      ensures n1 != n2 ==> Drawn(n1, old(n2.color), old(n1.val), old(n2.left),
        if old(n2.parent) == n1 then n1 else old(n2.right), old(n2.parent))
      ensures n1 != n2 ==> root == if old(n1.parent) == null then n2 else old(root)
      ensures n1 != n2 && old(n1.parent) != null ==> var p := old(n1.parent);
        var was := old(p.left) == n1;
        Drawn(p, old(p.color), old(p.val), if was then n2 else old(p.left), if was then old(p.right) else n2, old(p.parent))
      ensures n1 != n2 && old(n2.parent) != n1 ==> var p := old(n2.parent);
        var was := old(p.left) == n2;
        Drawn(p, old(p.color), old(p.val), if was then n1 else old(p.left), if was then old(p.right) else n1, old(p.parent))
      ensures n1 != n2 && old(n1.left) != null && old(n1.left.parent) == n1 ==> n2.left != null && n2.left.parent != n2
      ensures n1 != n2 && old(n1.right) != null && old(n1.right.parent) == n1 ==> n2.right != null && n2.right.parent != n2
    {
      if n1 == n2 {
        return;
      }
      var n1p, n2p := n1.parent, n2.parent;
      n1.left, n2.left := n2.left, n1.left;
      n1.right, n2.right := n2.right, n1.right;
      n1.parent, n2.parent := n2p, n1p;
      if n1p == null {
        root := n2;
      } else if n1p.left == n1 {
        n1p.left := n2;
      } else {
        n1p.right := n2;
      }
      if n2p.left == n2 {
        n2p.left := n1;
      } else {
        n2p.right := n1;
      }
      n1.color, n2.color := n2.color, n1.color;
    }

    /**
     Lines 293-301: delete a node with exactly one child.  The child takes the node's place and colour
     and becomes its own child, on the side where it hung.
     */
    method DeleteSingle(d: RbNode, ghost t: Tree<RbNode>, ghost c: Ctx<RbNode>, ghost s: Side, ghost all: set<RbNode>)
      requires Holds(t, c) && t.Node? && t.id == d && Child(t, s).Node? && Child(t, Opposite(s)).Leaf?
      requires all == Ids(t) + CtxIds(c)
      modifies this`root, all
      ensures var x := Child(t, s).id;
        && CtxAt(c, x)
        && Drawn(x, t.color, Child(t, s).key, if s == L then x else null, if s == L then null else x, HoleParent(c))
    {
      ghost var x, p := Child(t, s).id, HoleParent(c);
      assert TreeAt(Child(t, s), d) && Separate(Child(t, s)) && x in Ids(t) && p !in Ids(t);
      SelfLinkFitsNoTree(Child(t, s), d, x);
      NotRoot(t, c);
      if d.left != null {
        ChangeNode(d, d.left);
      } else {
        ChangeNode(d, d.right);
      }
      CutOff(d);
      assert c.Frame? ==> TreeAt(c.sib, c.id) && CtxAt(c.up, c.id);
    }
  }

  /** In no tree is a node its own child. */
  lemma {:induction false} SelfLinkFitsNoTree(t: Tree<RbNode>, p: RbNode?, n: RbNode)
    requires Separate(t) && TreeAt(t, p) && n in Ids(t)
    ensures n.left != n && n.right != n
  {
    if n in Ids(t.left) {
      SelfLinkFitsNoTree(t.left, t.id, n);
    } else if n in Ids(t.right) {
      SelfLinkFitsNoTree(t.right, t.id, n);
    }
  }

  /** Where the search loop for `v` stands after at most `k` turns. */
  ghost function Walk(n: RbNode?, v: int, k: nat): RbNode?
    reads *
  {
    if k == 0 || n == null || n.val == v then n else Walk(if v < n.val then n.left else n.right, v, k - 1)
  }

  /** A search that must pass a node on the side where it is its own child never ends. */
  lemma {:induction false} SearchNeverEnds(n: RbNode, v: int, k: nat)
    requires (v < n.val && n.left == n) || (v > n.val && n.right == n)
    ensures Walk(n, v, k) == n && n.val != v
  {
    if k > 0 {
      SearchNeverEnds(n, v, k - 1);
    }
  }
}
