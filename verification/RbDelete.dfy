/**
 The delete fix-up loop, as a function on trees.

 `t` is the subtree that has lost one black node, `c` what is around it.  The same function is
 run on the subtree that still holds the doomed leaf (by the code) and on the one without it
 (by the specification): only the colour of its root is ever looked at.

 `AsWritten` keeps the two null dereferences and the repeated `_lchild` of the source
 (`None` is a null dereference); `Intended` reads a null child as black and tests both children.
 */
module RbDelete {
  import opened Basics
  import opened RbShape
  import opened RbInsert

  datatype Reading = AsWritten | Intended

  /** The test "both children of the sibling are black"; `None` is a null dereference. */
  function BothBlack<I>(reading: Reading, side: Side, b: Tree<I>): Option<bool>
    requires b.Node?
  {
    if reading == AsWritten && side == R then
      // the second conjunct looks at the left child again
      if b.left.Leaf? && b.right.Node? then None
      else Some(!IsRed(b.left))
    else
      Some(!IsRed(b.left) && !IsRed(b.right))
  }

  /** The test "the far child of the sibling is black". */
  function FarBlack<I>(reading: Reading, far: Tree<I>): Option<bool> {
    if reading == AsWritten && far.Leaf? then None else Some(!IsRed(far))
  }

  /** The surroundings after a red sibling has been rotated over the parent. */
  function SiblingBlack<I>(c: Ctx<I>): (r: Ctx<I>)
    requires c.Frame? && c.sib.Node?
    ensures r.Frame? && r.side == c.side
  {
    if c.sib.color == Red then
      Frame(c.side, c.id, Red, c.key, Child(c.sib, c.side),
        Frame(c.side, c.sib.id, Black, c.sib.key, Child(c.sib, Opposite(c.side)), c.up))
    else c
  }

  /** The sibling after its red near child has been rotated over it. */
  function FarRed<I>(side: Side, b: Tree<I>): (r: Tree<I>)
    requires b.Node? && Child(b, side).Node?
    ensures r.Node? && Child(r, Opposite(side)).Node?
  {
    var n := Child(b, side);
    Build(side, n.id, Black, n.key, Child(n, side),
      Build(side, b.id, Red, b.key, Child(n, Opposite(side)), Child(b, Opposite(side))))
  }

  /** The final rotation: the sibling takes the parent's place and colour, both its children are black. */
  function Borrowed<I>(t: Tree<I>, c: Ctx<I>, b: Tree<I>): Tree<I>
    requires c.Frame? && b.Node?
  {
    Build(c.side, b.id, c.color, b.key,
      Build(c.side, c.id, Black, c.key, t, Child(b, c.side)),
      Blacken(Child(b, Opposite(c.side))))
  }

  /** The subtree one level up, after the sibling `c.sib` has been painted red. */
  function Lowered<I>(t: Tree<I>, c: Ctx<I>): Tree<I>
    requires c.Frame?
  {
    Build(c.side, c.id, c.color, c.key, t, Paint(c.sib, Red))
  }

  function FixUpDelete<I>(reading: Reading, t: Tree<I>, c: Ctx<I>): Option<Tree<I>>
    decreases Depth(c), !IsRed(t)
  {
    if c.Top? || IsRed(t) then Some(Plug(Blacken(t), c))
    else if c.sib.Leaf? then None
    else
      var d := SiblingBlack(c);
      var b := d.sib;
      if b.Leaf? then None
      else
        match BothBlack(reading, d.side, b)
        case None => None
        case Some(true) => FixUpDelete(reading, Lowered(t, d), d.up)
        case Some(false) =>
          match FarBlack(reading, Child(b, Opposite(d.side)))
          case None => None
          case Some(false) => Some(Plug(Borrowed(t, d, b), d.up))
          case Some(true) =>
            if Child(b, d.side).Leaf? then None
            else Some(Plug(Borrowed(t, d, FarRed(d.side, b)), d.up))
  }

  // ---------- The loop invariant and what each step does to it ----------

  /** Everything is red-black except that `t` is one black node short; its root may be red. */
  predicate OneShort<I>(t: Tree<I>, c: Ctx<I>) {
    && NoRedRed(Blacken(t)) && Balanced(t)
    && RootBlack(c) && CtxNoRedRed(c, false) && CtxBalanced(c, BlackHeight(t) + 1)
  }

  /** A red sibling: the rotation leaves the same deficit, one level deeper, under a red parent. */
  lemma SiblingBlackKeeps<I>(t: Tree<I>, c: Ctx<I>)
    requires OneShort(t, c) && c.Frame? && !IsRed(t)
    ensures c.sib.Node?
    ensures var d := SiblingBlack(c);
      && OneShort(t, d) && d.sib.Node? && d.sib.color == Black
      && (IsRed(c.sib) ==> d.color == Red)
  {
  }

  /** A black sibling with black children: the deficit moves exactly one level up. */
  lemma LoweredKeeps<I>(t: Tree<I>, c: Ctx<I>)
    requires OneShort(t, c) && c.Frame? && !IsRed(t)
    requires c.sib.Node? && c.sib.color == Black && !IsRed(c.sib.left) && !IsRed(c.sib.right)
    ensures OneShort(Lowered(t, c), c.up)
  {
    var b := Paint(c.sib, Red);
    assert Balanced(b) && NoRedRed(b) && BlackHeight(b) == BlackHeight(t);
    var r := Lowered(t, c);
    assert Balanced(r) && BlackHeight(r) == BlackHeight(t) + Weight(c.color);
    assert NoRedRed(t);
    CtxNoRedRedWeaken(c.up, c.color == Red);
  }

  lemma FarRedKeeps<I>(side: Side, b: Tree<I>)
    requires b.Node? && b.color == Black && Balanced(b) && NoRedRed(b)
    requires IsRed(Child(b, side)) && !IsRed(Child(b, Opposite(side)))
    ensures var r := FarRed(side, b);
      && r.color == Black && Balanced(r) && NoRedRed(r) && BlackHeight(r) == BlackHeight(b)
      && IsRed(Child(r, Opposite(side)))
  {
  }

  /** A black sibling with a red far child: one rotation removes the deficit. */
  lemma BorrowedRestores<I>(t: Tree<I>, c: Ctx<I>, b: Tree<I>)
    requires OneShort(t, c) && c.Frame? && !IsRed(t)
    requires b.Node? && b.color == Black && Balanced(b) && NoRedRed(b) && BlackHeight(b) == BlackHeight(t) + 1
    requires IsRed(Child(b, Opposite(c.side)))
    ensures RedBlack(Plug(Borrowed(t, c, b), c.up))
  {
    var r := Borrowed(t, c, b);
    var n, f := Child(b, c.side), Blacken(Child(b, Opposite(c.side)));
    assert Balanced(n) && NoRedRed(n) && BlackHeight(n) == BlackHeight(t);
    assert Balanced(f) && NoRedRed(f) && BlackHeight(f) == BlackHeight(t) + 1;
    var p := Build(c.side, c.id, Black, c.key, t, n);
    assert Balanced(p) && NoRedRed(p) && BlackHeight(p) == BlackHeight(t) + 1;
    assert Balanced(r) && NoRedRed(r) && BlackHeight(r) == BlackHeight(t) + 1 + Weight(c.color);
    if c.up.Frame? {
      RedBlackPlug(r, c.up);
    }
  }

  lemma DoneRestores<I>(t: Tree<I>, c: Ctx<I>)
    requires OneShort(t, c) && (c.Top? || IsRed(t))
    ensures RedBlack(Plug(Blacken(t), c))
  {
    if c.Frame? {
      RedBlackPlug(Blacken(t), c);
    }
  }

  /** Some step of the climb is one the text gets wrong: a null far child, or on the right side a red near child. */
  predicate MeetsDefect<I>(t: Tree<I>, c: Ctx<I>)
    decreases Depth(c), !IsRed(t)
  {
    c.Frame? && !IsRed(t) && c.sib.Node? &&
    var d := SiblingBlack(c);
    d.sib.Node? &&
    var near, far := Child(d.sib, d.side), Child(d.sib, Opposite(d.side));
    if IsRed(near) then !IsRed(far) && (d.side == R || far.Leaf?)
    else !IsRed(far) && MeetsDefect(Lowered(t, d), d.up)
  }

  /** From one black short, the loop ends in a red-black tree: always as intended, as written off its defects. */
  lemma {:induction false} FixUpDeleteRestores<I>(reading: Reading, t: Tree<I>, c: Ctx<I>)
    requires OneShort(t, c)
    requires reading == Intended || !MeetsDefect(t, c)
    ensures FixUpDelete(reading, t, c).Some? && RedBlack(FixUpDelete(reading, t, c).value)
    decreases Depth(c), !IsRed(t)
  {
    if c.Top? || IsRed(t) {
      DoneRestores(t, c);
    } else {
      SiblingBlackKeeps(t, c);
      var d := SiblingBlack(c);
      var b := d.sib;
      var near, far := Child(b, d.side), Child(b, Opposite(d.side));
      if !IsRed(near) && !IsRed(far) {
        LoweredKeeps(t, d);
        FixUpDeleteRestores(reading, Lowered(t, d), d.up);
      } else if IsRed(far) {
        BorrowedRestores(t, d, b);
      } else {
        FarRedKeeps(d.side, b);
        BorrowedRestores(t, d, FarRed(d.side, b));
      }
    }
  }

  lemma {:induction false} RedRedStays<I>(reading: Reading, t: Tree<I>, c: Ctx<I>)
    requires !NoRedRed(Blacken(t))
    ensures FixUpDelete(reading, t, c).Some? ==> !NoRedRed(FixUpDelete(reading, t, c).value)
    decreases Depth(c), !IsRed(t)
  {
    if c.Top? || IsRed(t) {
      NoRedRedPlug(Blacken(t), c);
    } else if FixUpDelete(reading, t, c).Some? {
      var d := SiblingBlack(c);
      var b := d.sib;
      var far := Child(b, Opposite(d.side));
      if BothBlack(reading, d.side, b).value {
        RedRedStays(reading, Lowered(t, d), d.up);
      } else {
        var s := if FarBlack(reading, far).value then FarRed(d.side, b) else b;
        var r := Borrowed(t, d, s);
        assert !NoRedRed(Child(r, d.side));
        NoRedRedPlug(r, d.up);
      }
    }
  }

  /** As written, a defect on the way up costs the result: a null dereference or a red pair. */
  lemma {:induction false} DefectBreaks<I>(t: Tree<I>, c: Ctx<I>)
    requires OneShort(t, c) && MeetsDefect(t, c)
    ensures FixUpDelete(AsWritten, t, c).Some? ==> !NoRedRed(FixUpDelete(AsWritten, t, c).value)
    decreases Depth(c), !IsRed(t)
  {
    SiblingBlackKeeps(t, c);
    var d := SiblingBlack(c);
    var b := d.sib;
    var near, far := Child(b, d.side), Child(b, Opposite(d.side));
    if !IsRed(near) {
      LoweredKeeps(t, d);
      DefectBreaks(Lowered(t, d), d.up);
    } else if far.Node? {
      assert !NoRedRed(Paint(b, Red));
      RedRedStays(AsWritten, Lowered(t, d), d.up);
    }
  }

  // ---------- Order ----------

  lemma BorrowedKeys<I>(t: Tree<I>, c: Ctx<I>, b: Tree<I>)
    requires c.Frame? && b.Node? && Keys(b) == Keys(c.sib)
    ensures KeysAround(Borrowed(t, c, b), c.up) == KeysAround(t, c)
  {
    KeysOfFrame(t, c);
    var n, f := Keys(Child(b, c.side)), Keys(Child(b, Opposite(c.side)));
    assert Keys(Blacken(Child(b, Opposite(c.side)))) == f;
    if c.side == L {
      Assoc(Keys(t), c.key, n, b.key, f);
    } else {
      Assoc(f, b.key, n, c.key, Keys(t));
    }
    assert Keys(Borrowed(t, c, b)) == Keys(Build(c.side, c.id, c.color, c.key, t, c.sib));
  }

  lemma FarRedKeys<I>(side: Side, b: Tree<I>)
    requires b.Node? && Child(b, side).Node?
    ensures Keys(FarRed(side, b)) == Keys(b)
  {
  }

  lemma SiblingBlackKeys<I>(t: Tree<I>, c: Ctx<I>)
    requires c.Frame? && c.sib.Node?
    ensures KeysAround(t, SiblingBlack(c)) == KeysAround(t, c)
  {
    if c.sib.color == Red {
      var d := SiblingBlack(c);
      var b := c.sib;
      var n, f := Keys(Child(b, c.side)), Keys(Child(b, Opposite(c.side)));
      if c.side == L {
        assert KeysBefore(d) == KeysBefore(d.up) == KeysBefore(c);
        assert KeysAfter(d) == [c.key] + n + ([b.key] + f + KeysAfter(c.up));
        assert KeysAfter(c) == [c.key] + (n + [b.key] + f) + KeysAfter(c.up);
        assert KeysAfter(d) == KeysAfter(c);
      } else {
        assert KeysAfter(d) == KeysAfter(d.up) == KeysAfter(c);
        assert KeysBefore(d) == KeysBefore(c.up) + f + [b.key] + n + [c.key];
        assert KeysBefore(c) == KeysBefore(c.up) + (f + [b.key] + n) + [c.key];
        assert KeysBefore(d) == KeysBefore(c);
      }
    }
  }

  lemma LoweredKeys<I>(t: Tree<I>, c: Ctx<I>)
    requires c.Frame?
    ensures KeysAround(Lowered(t, c), c.up) == KeysAround(t, c)
  {
    KeysOfFrame(t, c);
    assert Keys(Paint(c.sib, Red)) == Keys(c.sib);
  }

  /** No reading of the loop touches the order of the keys. */
  lemma {:induction false} FixUpDeleteKeys<I>(reading: Reading, t: Tree<I>, c: Ctx<I>)
    ensures FixUpDelete(reading, t, c).Some? ==> Keys(FixUpDelete(reading, t, c).value) == KeysAround(t, c)
    decreases Depth(c), !IsRed(t)
  {
    if c.Top? || IsRed(t) {
      KeysOfPlug(Blacken(t), c);
    } else if FixUpDelete(reading, t, c).Some? {
      SiblingBlackKeys(t, c);
      var d := SiblingBlack(c);
      var b := d.sib;
      var far := Child(b, Opposite(d.side));
      if BothBlack(reading, d.side, b).value {
        LoweredKeys(t, d);
        FixUpDeleteKeys(reading, Lowered(t, d), d.up);
      } else if FarBlack(reading, far).value {
        FarRedKeys(d.side, b);
        BorrowedKeys(t, d, FarRed(d.side, b));
        KeysOfPlug(Borrowed(t, d, FarRed(d.side, b)), d.up);
      } else {
        BorrowedKeys(t, d, b);
        KeysOfPlug(Borrowed(t, d, b), d.up);
      }
    }
  }

  lemma BorrowedItems<I>(t: Tree<I>, c: Ctx<I>, b: Tree<I>)
    requires c.Frame? && b.Node? && Items(b) == Items(c.sib)
    ensures Items(Borrowed(t, c, b)) + CtxItems(c.up) == Items(t) + CtxItems(c)
  {
  }

  lemma StepItems<I>(t: Tree<I>, c: Ctx<I>)
    requires c.Frame?
    ensures Items(Lowered(t, c)) + CtxItems(c.up) == Items(t) + CtxItems(c)
    ensures c.sib.Node? ==> CtxItems(SiblingBlack(c)) == CtxItems(c)
  {
  }

  lemma FarRedItems<I>(side: Side, b: Tree<I>)
    requires b.Node? && Child(b, side).Node?
    ensures Items(FarRed(side, b)) == Items(b)
  {
  }

  /** No reading of the loop gives a node another key. */
  lemma {:induction false} FixUpDeleteItems<I>(reading: Reading, t: Tree<I>, c: Ctx<I>)
    ensures FixUpDelete(reading, t, c).Some? ==> Items(FixUpDelete(reading, t, c).value) == Items(t) + CtxItems(c)
    decreases Depth(c), !IsRed(t)
  {
    if c.Top? || IsRed(t) {
      ItemsOfPlug(Blacken(t), c);
    } else if FixUpDelete(reading, t, c).Some? {
      StepItems(t, c);
      var d := SiblingBlack(c);
      var b := d.sib;
      var far := Child(b, Opposite(d.side));
      StepItems(t, d);
      if BothBlack(reading, d.side, b).value {
        FixUpDeleteItems(reading, Lowered(t, d), d.up);
      } else if FarBlack(reading, far).value {
        FarRedItems(d.side, b);
        BorrowedItems(t, d, FarRed(d.side, b));
        ItemsOfPlug(Borrowed(t, d, FarRed(d.side, b)), d.up);
      } else {
        BorrowedItems(t, d, b);
        ItemsOfPlug(Borrowed(t, d, b), d.up);
      }
    }
  }

  /** No reading of the loop leaves a red root. */
  lemma {:induction false} FixUpDeleteRoot<I>(reading: Reading, t: Tree<I>, c: Ctx<I>)
    requires RootBlack(c)
    ensures FixUpDelete(reading, t, c).Some? ==> !IsRed(FixUpDelete(reading, t, c).value)
    decreases Depth(c), !IsRed(t)
  {
    if c.Top? || IsRed(t) {
      if c.Frame? {
        RootOfPlug(Blacken(t), c);
      }
    } else if FixUpDelete(reading, t, c).Some? {
      var d := SiblingBlack(c);
      var b := d.sib;
      if BothBlack(reading, d.side, b).value {
        FixUpDeleteRoot(reading, Lowered(t, d), d.up);
      } else if d.up.Frame? {
        var far := Child(b, Opposite(d.side));
        var x := if FarBlack(reading, far).value then FarRed(d.side, b) else b;
        RootOfPlug(Borrowed(t, d, x), d.up);
      }
    }
  }

  // ---------- Deleting a childless node ----------

  /** Remove the childless node of colour `color` standing in `c`. */
  function RemoveLeaf<I>(reading: Reading, color: Color, c: Ctx<I>): Option<Tree<I>> {
    if color == Red then Some(Plug(Leaf, c)) else FixUpDelete(reading, Leaf, c)
  }

  predicate Childless<I>(t: Tree<I>) {
    t.Node? && t.left.Leaf? && t.right.Leaf?
  }

  lemma ChildlessIsOneShort<I>(s: Tree<I>, c: Ctx<I>)
    requires RedBlack(Plug(s, c)) && Childless(s)
    ensures s.color == Black ==> OneShort(Leaf, c)
    ensures s.color == Red ==> RedBlack(Plug(Leaf, c))
  {
    if c.Frame? {
      RedBlackPlug(s, c);
      CtxNoRedRedWeaken(c, IsRed(s));
      RedBlackPlug(Leaf, c);
    }
  }

  /** Under either reading: the other nodes stay, each with its key. */
  lemma RemoveLeafItems<I>(reading: Reading, s: Tree<I>, c: Ctx<I>)
    requires Childless(s) && RemoveLeaf(reading, s.color, c).Some?
    ensures Items(Plug(s, c)) == {(s.id, s.key)} + CtxItems(c)
    ensures Items(RemoveLeaf(reading, s.color, c).value) == CtxItems(c)
  {
    ItemsOfPlug(s, c);
    ItemsOfPlug(Leaf, c);
    FixUpDeleteItems(reading, Leaf, c);
  }

  /** As intended, deleting a childless node of a red-black tree leaves a red-black tree without its key. */
  lemma RemoveLeafRestores<I>(s: Tree<I>, c: Ctx<I>)
    requires RedBlack(Plug(s, c)) && Childless(s)
    ensures var r := RemoveLeaf(Intended, s.color, c);
      && r.Some? && RedBlack(r.value)
      && Keys(Plug(s, c)) == KeysBefore(c) + [s.key] + KeysAfter(c)
      && Keys(r.value) == KeysBefore(c) + KeysAfter(c)
  {
    ChildlessIsOneShort(s, c);
    KeysOfPlug(s, c);
    KeysOfPlug(Leaf, c);
    assert Keys(s) == [s.key];
    if s.color == Black {
      FixUpDeleteRestores(Intended, Leaf, c);
      FixUpDeleteKeys(Intended, Leaf, c);
    }
  }

  /** As written, it does so iff the node is red or the climb meets no defect. */
  lemma RemoveLeafAsWrittenExact<I>(s: Tree<I>, c: Ctx<I>)
    requires RedBlack(Plug(s, c)) && Childless(s)
    ensures var r := RemoveLeaf(AsWritten, s.color, c);
      (r.Some? && RedBlack(r.value)) <==> (s.color == Red || !MeetsDefect(Leaf, c))
  {
    ChildlessIsOneShort(s, c);
    if s.color == Black {
      if MeetsDefect(Leaf, c) {
        DefectBreaks(Leaf, c);
      } else {
        FixUpDeleteRestores(AsWritten, Leaf, c);
      }
    }
  }

  /** The mirror image: line 332 dereferences null. */
  lemma AsWrittenFailsLeft()
    ensures var near := Node(60, Red, 60, Leaf, Leaf);
      var c := Frame(L, 50, Black, 50, Node(70, Black, 70, near, Leaf), Top);
      RedBlack(Plug(Node(40, Black, 40, Leaf, Leaf), c)) && RemoveLeaf(AsWritten, Black, c) == None
  {
  }

  function BlackLeaf(key: int): Tree<int> {
    Node(key, Black, key, Leaf, Leaf)
  }

  /** As written, deleting 60 one level deeper: the repeated `_lchild` test paints 20 red above the red 30. */
  lemma AsWrittenLeavesRedPair()
    ensures var near := Node(30, Red, 30, BlackLeaf(25), BlackLeaf(40));
      var d := Frame(R, 50, Black, 50, Node(20, Black, 20, BlackLeaf(10), near), Top);
      var c := Frame(L, 70, Black, 70, BlackLeaf(80), d);
      && RedBlack(Plug(BlackLeaf(60), c))
      && RemoveLeaf(AsWritten, Black, c) == Some(
           Node(50, Black, 50,
             Node(20, Red, 20, BlackLeaf(10), near),
             Node(70, Black, 70, Leaf, Node(80, Red, 80, Leaf, Leaf))))
  {
    var near := Node(30, Red, 30, BlackLeaf(25), BlackLeaf(40));
    var d := Frame(R, 50, Black, 50, Node(20, Black, 20, BlackLeaf(10), near), Top);
    var c := Frame(L, 70, Black, 70, BlackLeaf(80), d);
    var t := Node(70, Black, 70, Leaf, Node(80, Red, 80, Leaf, Leaf));
    assert FixUpDelete(AsWritten, Leaf, c) == FixUpDelete(AsWritten, t, d);
    assert FixUpDelete(AsWritten, t, d) == FixUpDelete(AsWritten, Lowered(t, d), Top);
  }

  /** As written, deleting 40 (a black leaf whose sibling has a red near child only) dereferences null. */
  lemma AsWrittenFails()
    ensures var near := Node(2, Red, 2, Leaf, Leaf);
      var c := Frame(R, 30, Black, 30, Node(1, Black, 1, Leaf, near), Top);
      RedBlack(Plug(Node(40, Black, 40, Leaf, Leaf), c)) && RemoveLeaf(AsWritten, Black, c) == None
  {
  }
}
