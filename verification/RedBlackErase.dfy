/** What erasing does to a red-black tree, on values: the "one extra black"
    invariant of the delete fixup loop, each of its cases, and exactly when
    the loop as written ends in a red-black tree. */
module RedBlackErase {
  import opened RedBlackTheory

  /** `t`, with its root painted black, is a red-black tree, and the hole wants
      one black more than that when `t` was black already. */
  ghost predicate Deficient<N>(ctx: Context<N>, t: Tree<N>) {
    && RedBlack(Paint(t, Black))
    && Accepts(ctx, Wanted(t), Black) && TopBlack(ctx)
  }

  function Wanted<N>(t: Tree<N>): nat {
    BlackHeight(Paint(t, Black)) + Weight(ColorOf(t))
  }

  /** The loop test, `x != t->root && x->color == RBTREE_BLACK`. */
  predicate Short<N>(ctx: Context<N>, t: Tree<N>) {
    ctx.Hole? && ColorOf(t) == Black
  }

  /** Painting `x` black at the end of the loop finishes. */
  lemma {:induction false} EraseDone<N>(ctx: Context<N>, t: Tree<N>)
    requires Deficient(ctx, t) && !Short(ctx, t)
    ensures var r := Plug(ctx, Paint(t, Black)); RedBlack(r) && ColorOf(r) == Black
  {
    RedBlackPlug(ctx, Paint(t, Black));
    TopBlackPlug(ctx, Paint(t, Black));
  }

  /** An extra black in the hole makes the sibling a real node with real children when red. */
  lemma SiblingReal<N>(ctx: Context<N>, t: Tree<N>)
    requires Deficient(ctx, t) && Short(ctx, t)
    ensures ctx.sibling.Branch?
    ensures ctx.sibling.color == Red ==>
              && ctx.color == Black
              && ctx.sibling.left.Branch? && ctx.sibling.left.color == Black
              && ctx.sibling.right.Branch? && ctx.sibling.right.color == Black
  {
    assert BlackHeight(ctx.sibling) == Wanted(t) >= 1;
  }

  // ------------------------------------------------------ red sibling (case 1)

  /** The parent's tree after the recoloring and the rotation of the red-sibling case. */
  function RedSibling<N>(ctx: Context<N>, t: Tree<N>): (r: Tree<N>)
    requires ctx.Hole? && ctx.sibling.Branch?
    ensures r.Branch?
  {
    Rotate(ctx.side, Join(ctx.side, t, ctx.node, Red, ctx.key, Paint(ctx.sibling, Black)))
  }

  /** The context of `x` inside that tree. */
  function RedSiblingContext<N>(ctx: Context<N>): (c: Context<N>)
    requires ctx.Hole? && ctx.sibling.Branch?
    ensures c.Hole? && c.up.Hole?
  {
    var w := ctx.sibling;
    Hole(ctx.side, Hole(ctx.side, ctx.up, w.node, Black, w.key, Child(Other(ctx.side), w)),
         ctx.node, Red, ctx.key, Child(ctx.side, w))
  }

  lemma RedSiblingStep<N>(ctx: Context<N>, t: Tree<N>)
    requires Deficient(ctx, t) && Short(ctx, t) && ctx.sibling.Branch? && ctx.sibling.color == Red
    ensures var c := RedSiblingContext(ctx);
            && Deficient(c, t) && Short(c, t) && c.color == Red && c.sibling.Branch? && c.sibling.color == Black
            && Fill(c.up, Fill(c, t)) == RedSibling(ctx, t)
            && Same(Plug(c, t), Plug(ctx, t))
  {
    var c := RedSiblingContext(ctx);
    SiblingReal(ctx, t);
    assert Accepts(ctx.up, Wanted(t) + 1, Black);
    SamePlug(ctx.up, RedSibling(ctx, t), Fill(ctx, t));
    assert Plug(c, t) == Plug(ctx.up, RedSibling(ctx, t));
    assert TopBlack(c.up);
  }

  // ------------------------------------- black sibling, black nephews (case 2)

  lemma BlackNephewsStep<N>(ctx: Context<N>, t: Tree<N>)
    requires Deficient(ctx, t) && Short(ctx, t) && ctx.sibling.Branch? && ctx.sibling.color == Black
    requires ColorOf(ctx.sibling.left) == Black && ColorOf(ctx.sibling.right) == Black
    ensures Deficient(ctx.up, Join(ctx.side, t, ctx.node, ctx.color, ctx.key, Paint(ctx.sibling, Red)))
    ensures Same(Plug(ctx.up, Join(ctx.side, t, ctx.node, ctx.color, ctx.key, Paint(ctx.sibling, Red))), Plug(ctx, t))
  {
    var j := Join(ctx.side, t, ctx.node, ctx.color, ctx.key, Paint(ctx.sibling, Red));
    JoinRedBlack(ctx.side, t, ctx.node, Black, ctx.key, Paint(ctx.sibling, Red));
    assert Paint(j, Black) == Join(ctx.side, t, ctx.node, Black, ctx.key, Paint(ctx.sibling, Red));
    SamePlug(ctx.up, j, Fill(ctx, t));
    if ctx.color == Red {
      assert Accepts(ctx.up, Wanted(t), Red);
      assert ctx.up.Hole? ==> ctx.up.color == Black;
    }
  }

  // ------------------------------------------ near nephew red, far one black (3)

  function NearRed<N>(side: Side, w: Tree<N>): (r: Tree<N>)
    requires w.Branch? && Child(side, w).Branch?
    ensures r.Branch?
  {
    Rotate(Other(side), Join(side, Paint(Child(side, w), Black), w.node, Red, w.key, Child(Other(side), w)))
  }

  lemma NearRedStep<N>(ctx: Context<N>, t: Tree<N>)
    requires Deficient(ctx, t) && Short(ctx, t) && ctx.sibling.Branch? && ctx.sibling.color == Black
    requires Child(ctx.side, ctx.sibling).Branch? && Child(ctx.side, ctx.sibling).color == Red
    requires ColorOf(Child(Other(ctx.side), ctx.sibling)) == Black
    ensures var w := NearRed(ctx.side, ctx.sibling);
            var c := ctx.(sibling := w);
            && Deficient(c, t) && w.color == Black && ColorOf(Child(Other(ctx.side), w)) == Red
            && Same(w, ctx.sibling) && Same(Plug(c, t), Plug(ctx, t))
  {
    var w := NearRed(ctx.side, ctx.sibling);
    var side, near, far := ctx.side, Child(ctx.side, ctx.sibling), Child(Other(ctx.side), ctx.sibling);
    assert w == Join(side, Child(side, near), near.node, Black, near.key,
                     Join(side, Child(Other(side), near), ctx.sibling.node, Red, ctx.sibling.key, far));
    JoinRedBlack(side, Child(side, near), near.node, Red, near.key, Child(Other(side), near));
    JoinRedBlack(side, near, ctx.sibling.node, Black, ctx.sibling.key, far);
    JoinRedBlack(side, Child(Other(side), near), ctx.sibling.node, Red, ctx.sibling.key, far);
    assert Same(Paint(near, Black), near);
    RotateKeeps(Other(side), Join(side, Paint(near, Black), ctx.sibling.node, Red, ctx.sibling.key, far));
    assert Same(w, ctx.sibling);
    SamePlug(ctx.up, Fill(ctx.(sibling := w), t), Fill(ctx, t));
  }

  // -------------------------------------------------------- far nephew red (4)

  /** The parent's tree after the last case. */
  function FarRed<N>(ctx: Context<N>, t: Tree<N>): (r: Tree<N>)
    requires ctx.Hole? && ctx.sibling.Branch?
    ensures r.Branch?
  {
    var w := ctx.sibling;
    Rotate(ctx.side,
           Join(ctx.side, t, ctx.node, Black, ctx.key,
                Join(ctx.side, Child(ctx.side, w), w.node, ctx.color, w.key, Paint(Child(Other(ctx.side), w), Black))))
  }

  /** The parent's tree just before the rotation of the last case. */
  function FarPainted<N>(ctx: Context<N>, t: Tree<N>): (r: Tree<N>)
    requires ctx.Hole? && ctx.sibling.Branch?
    ensures r.Branch? && FarRed(ctx, t) == Rotate(ctx.side, r)
  {
    var w := ctx.sibling;
    Join(ctx.side, t, ctx.node, Black, ctx.key,
         Join(ctx.side, Child(ctx.side, w), w.node, ctx.color, w.key, Paint(Child(Other(ctx.side), w), Black)))
  }

  lemma FarNodes<N>(ctx: Context<N>, t: Tree<N>)
    requires ctx.Hole? && ctx.sibling.Branch?
    ensures ContextNodes(ctx.up) + Nodes(FarPainted(ctx, t)) == Nodes(Plug(ctx, t))
  {
    var far := Child(Other(ctx.side), ctx.sibling);
    assert Nodes(Paint(far, Black)) == Nodes(far);
    NodesOfPlug(ctx, t);
  }

  lemma FarRedSame<N>(ctx: Context<N>, t: Tree<N>)
    requires ctx.Hole? && ctx.sibling.Branch?
    ensures Same(Plug(ctx.up, FarRed(ctx, t)), Plug(ctx, t))
  {
    var w := ctx.sibling;
    var far := Child(Other(ctx.side), w);
    assert Same(Paint(far, Black), far);
    var w' := Join(ctx.side, Child(ctx.side, w), w.node, ctx.color, w.key, Paint(far, Black));
    assert Same(w', w);
    RotateKeeps(ctx.side, Join(ctx.side, t, ctx.node, Black, ctx.key, w'));
    SamePlug(ctx.up, FarRed(ctx, t), Fill(ctx, t));
  }

  lemma FarRedStep<N>(ctx: Context<N>, t: Tree<N>)
    requires Deficient(ctx, t) && Short(ctx, t) && ctx.sibling.Branch? && ctx.sibling.color == Black
    requires ColorOf(Child(Other(ctx.side), ctx.sibling)) == Red
    ensures var r := Plug(ctx.up, FarRed(ctx, t)); RedBlack(r) && ColorOf(r) == Black
  {
    var w := ctx.sibling;
    var far := Paint(Child(Other(ctx.side), w), Black);
    assert FarRed(ctx, t) ==
           Join(ctx.side, Join(ctx.side, t, ctx.node, Black, ctx.key, Child(ctx.side, w)), w.node, ctx.color, w.key, far);
    assert Paint(t, Black) == t;
    JoinRedBlack(ctx.side, Child(ctx.side, w), w.node, Black, w.key, Child(Other(ctx.side), w));
    PaintRedBlack(Child(Other(ctx.side), w));
    JoinRedBlack(ctx.side, t, ctx.node, Black, ctx.key, Child(ctx.side, w));
    JoinRedBlack(ctx.side, Join(ctx.side, t, ctx.node, Black, ctx.key, Child(ctx.side, w)), w.node, ctx.color, w.key, far);
    RedBlackPlug(ctx.up, FarRed(ctx, t));
    TopBlackPlug(ctx.up, FarRed(ctx, t));
  }

  // ----------------------------------- the left-hand red sibling, as written

  /** After its rotation the left-hand red-sibling case re-reads `w` through
      `w->parent` instead of `x->parent`.  The loop body then works on the wrong
      node; `MisledRepairs` says when the tree comes out red-black all the same:
      that node is the old uncle, has a red left and a black right child, and
      the real sibling has a red right child. */
  predicate MisledRepairs<N>(ctx: Context<N>)
    requires ctx.Hole? && ctx.sibling.Branch?
  {
    && ctx.up.Hole? && ctx.up.side == L && ctx.up.sibling.Branch?
    && ColorOf(ctx.up.sibling.left) == Red && ColorOf(ctx.up.sibling.right) == Black
    && ctx.sibling.left.Branch? && ColorOf(ctx.sibling.left.right) == Red
  }

  /** Whether the loop, entered with an `x` of color `c` in this context, ends in a red-black tree. */
  predicate Repairs<N>(ctx: Context<N>, c: Color) {
    if ctx.Top? || c == Red || ctx.sibling.Nil? then true
    else if ctx.sibling.color == Red then ctx.side == R || MisledRepairs(ctx)
    else if ColorOf(ctx.sibling.left) == Black && ColorOf(ctx.sibling.right) == Black then Repairs(ctx.up, ctx.color)
    else true
  }

  /** The state in which the left-hand red-sibling case goes wrong. */
  ghost predicate Misled<N>(ctx: Context<N>, t: Tree<N>) {
    Deficient(ctx, t) && Short(ctx, t) && ctx.side == L && ctx.sibling.Branch? && ctx.sibling.color == Red
  }

  /** `x` and the inner nephew end up below the same black parent one black apart. */
  lemma Lopsided<N>(ctx: Context<N>, t: Tree<N>, outer: Context<N>)
    requires Misled(ctx, t)
    ensures !RedBlack(Plug(outer, Branch(t, ctx.node, Black, ctx.key, ctx.sibling.left)))
    ensures !RedBlack(Plug(outer, Rotate(L, Branch(t, ctx.node, Black, ctx.key, ctx.sibling.left))))
    ensures ctx.sibling.left.Branch? && ctx.sibling.left.color == Black
    ensures ctx.up.Hole? ==> ctx.up.sibling.Branch?
  {
    var b := ctx.sibling.left;
    SiblingReal(ctx, t);
    assert Paint(t, Black) == t && BlackHeight(b) == BlackHeight(t) + 1;
    assert RedBlack(b) && BlackHeight(b.right) == BlackHeight(t);
    RedBlackPlug(outer, Branch(t, ctx.node, Black, ctx.key, b));
    RedBlackPlug(outer, Rotate(L, Branch(t, ctx.node, Black, ctx.key, b)));
    assert Accepts(ctx.up, Wanted(t) + 1, Black);
  }

  /** The context of `x` after the rotation, with `s` for the node `w` wrongly names. */
  function MisledContext<N>(ctx: Context<N>, s: Tree<N>): (c: Context<N>)
    requires ctx.Hole? && ctx.sibling.Branch? && ctx.up.Hole?
    ensures c.Hole? && c.up.Hole? && c.up.up.Hole?
  {
    var w := ctx.sibling;
    Hole(ctx.side, Hole(ctx.side, ctx.up.(sibling := s), w.node, Black, w.key, Child(Other(ctx.side), w)),
         ctx.node, Red, ctx.key, Child(ctx.side, w))
  }

  lemma MisledSame<N>(ctx: Context<N>, t: Tree<N>, s: Tree<N>)
    requires Misled(ctx, t) && ctx.up.Hole? && Same(s, ctx.up.sibling)
    ensures Same(Plug(MisledContext(ctx, s), t), Plug(ctx, t))
    ensures Plug(ctx.up.(sibling := s), RedSibling(ctx, t)) == Plug(MisledContext(ctx, s), t)
    ensures var r := RedSibling(ctx, t);
            && r.left == Branch(t, ctx.node, Red, ctx.key, ctx.sibling.left)
            && MisledContext(ctx, s) == Down(L, Down(L, ctx.up.(sibling := s), r), r.left)
  {
    var c, r := MisledContext(ctx, s), RedSibling(ctx, t);
    RedSiblingStep(ctx, t);
    assert Plug(c, t) == Plug(ctx.up.(sibling := s), r) == Plug(ctx.up.up, Fill(ctx.up.(sibling := s), r));
    assert Plug(ctx.up, r) == Plug(ctx.up.up, Fill(ctx.up, r));
    assert Plug(RedSiblingContext(ctx), t) == Plug(ctx.up, r);
    SamePlug(ctx.up.up, Fill(ctx.up.(sibling := s), r), Fill(ctx.up, r));
  }

  /** With the uncle's near child red and far child black, the last case is right
      exactly when the real sibling's right child is red. */
  lemma MisledLuck<N>(ctx: Context<N>, t: Tree<N>)
    requires Misled(ctx, t) && ctx.up.Hole? && ctx.up.side == L && ctx.up.sibling.Branch?
    requires ColorOf(ctx.up.sibling.left) == Red && ColorOf(ctx.up.sibling.right) == Black
    ensures var c := MisledContext(ctx, NearRed(L, ctx.up.sibling));
            var r := Plug(c.up, FarRed(c, t));
            && (RedBlack(r) <==> MisledRepairs(ctx)) && ColorOf(r) == Black
            && Same(r, Plug(ctx, t)) && Same(NearRed(L, ctx.up.sibling), ctx.up.sibling)
  {
    var s := ctx.up.sibling;
    var c := MisledContext(ctx, NearRed(L, s));
    Lopsided(ctx, t, Top);
    RedSiblingStep(ctx, t);
    assert Accepts(ctx.up, Wanted(t) + 1, Black) && TopBlack(ctx.up);
    NearRedShape(s);
    MisledSame(ctx, t, NearRed(L, s));
    FarRedSame(c, t);
    var up' := ctx.up.(sibling := NearRed(L, s));
    assert Accepts(up', Wanted(t) + 1, Black);
    assert TopBlack(up');
    if MisledRepairs(ctx) {
      assert Accepts(c.up, Wanted(t), Red);
      assert Deficient(c, t);
      FarRedStep(c, t);
    } else {
      var b := ctx.sibling.left;
      TopBlackPlug(c.up, FarRed(c, t));
      assert FarRed(c, t) == Branch(Branch(t, ctx.node, Black, ctx.key, b.left), b.node, Red, b.key, Paint(b.right, Black));
      assert Paint(b.right, Black) == b.right;
      assert BlackHeight(b.right) == BlackHeight(t);
      RedBlackPlug(c.up, FarRed(c, t));
    }
  }

  lemma NearRedShape<N>(s: Tree<N>)
    requires s.Branch? && RedBlack(s) && ColorOf(s.left) == Red && ColorOf(s.right) == Black
    ensures var r := NearRed(L, s);
            RedBlack(r) && BlackHeight(r) == BlackHeight(s) && r.color == s.color == Black && Same(r, s)
  {
    assert Same(Paint(s.left, Black), s.left);
    RotateKeeps(R, Branch(Paint(s.left, Black), s.node, Red, s.key, s.right));
  }

  // ------------------------------------------------------- the loop as a whole

  function EraseRank<N>(ctx: Context<N>, t: Tree<N>): nat {
    if Short(ctx, t) then 1 + Depth(ctx) else 0
  }

  /** The loop invariant.  `ok` is the answer of `Repairs` at the start; once
      `lost`, the loop ends with a tree that is not red-black. */
  ghost predicate Tracks<N>(ctx: Context<N>, t: Tree<N>, lost: bool, ok: bool) {
    if lost then !Short(ctx, t) && !RedBlack(Plug(ctx, Paint(t, Black))) && !ok
    else Deficient(ctx, t) && (Repairs(ctx, ColorOf(t)) <==> ok)
  }

  lemma NephewsTrack<N>(ctx: Context<N>, t: Tree<N>, ok: bool) returns (j: Tree<N>)
    requires Tracks(ctx, t, false, ok) && Short(ctx, t) && ctx.sibling.Branch? && ctx.sibling.color == Black
    requires ColorOf(ctx.sibling.left) == Black && ColorOf(ctx.sibling.right) == Black
    ensures j == Join(ctx.side, t, ctx.node, ctx.color, ctx.key, Paint(ctx.sibling, Red))
    ensures Tracks(ctx.up, j, false, ok) && j.Branch? && j.node == ctx.node
    ensures Same(Plug(ctx.up, j), Plug(ctx, t))
    ensures EraseRank(ctx.up, j) < EraseRank(ctx, t)
    ensures ctx.color == Red ==> EraseRank(ctx.up, j) == 0
  {
    j := Join(ctx.side, t, ctx.node, ctx.color, ctx.key, Paint(ctx.sibling, Red));
    BlackNephewsStep(ctx, t);
  }

  lemma FarTrack<N>(ctx: Context<N>, t: Tree<N>, ok: bool) returns (r: Tree<N>)
    requires Tracks(ctx, t, false, ok) && Short(ctx, t) && ctx.sibling.Branch? && ctx.sibling.color == Black
    requires ColorOf(Child(Other(ctx.side), ctx.sibling)) == Red
    ensures r == Plug(ctx.up, FarRed(ctx, t))
    ensures Tracks(Top, r, false, ok) && r.Branch? && Same(Plug(Top, r), Plug(ctx, t)) && EraseRank(Top, r) == 0
  {
    r := Plug(ctx.up, FarRed(ctx, t));
    FarRedStep(ctx, t);
    FarRedSame(ctx, t);
    NodesOfPlug(ctx, t);
    assert ctx.node in Nodes(r);
    assert Paint(r, Black) == r;
  }

  lemma NearTrack<N>(ctx: Context<N>, t: Tree<N>, ok: bool) returns (c: Context<N>)
    requires Tracks(ctx, t, false, ok) && Short(ctx, t) && ctx.sibling.Branch? && ctx.sibling.color == Black
    requires Child(ctx.side, ctx.sibling).Branch? && Child(ctx.side, ctx.sibling).color == Red
    requires ColorOf(Child(Other(ctx.side), ctx.sibling)) == Black
    ensures c == ctx.(sibling := NearRed(ctx.side, ctx.sibling))
    ensures Tracks(c, t, false, ok) && c.sibling.color == Black && ColorOf(Child(Other(c.side), c.sibling)) == Red
    ensures Same(Plug(c, t), Plug(ctx, t))
  {
    c := ctx.(sibling := NearRed(ctx.side, ctx.sibling));
    NearRedStep(ctx, t);
  }

  lemma RedTrack<N>(ctx: Context<N>, t: Tree<N>, ok: bool) returns (c: Context<N>)
    requires Tracks(ctx, t, false, ok) && Short(ctx, t) && ctx.sibling.Branch? && ctx.sibling.color == Red
    requires ctx.side == R
    ensures c == RedSiblingContext(ctx)
    ensures Tracks(c, t, false, ok) && Short(c, t) && c.color == Red && c.sibling.Branch? && c.sibling.color == Black
    ensures Fill(c.up, Fill(c, t)) == RedSibling(ctx, t) && Same(Plug(c, t), Plug(ctx, t))
  {
    c := RedSiblingContext(ctx);
    RedSiblingStep(ctx, t);
  }

  /** The wrong `w` is the sentinel or the old sibling itself, or an uncle the
      last two cases cannot help: the tree keeps its lopsided subtree. */
  lemma MisledLost<N>(ctx: Context<N>, t: Tree<N>, ok: bool, outer: Context<N>, r: Tree<N>)
    requires Tracks(ctx, t, false, ok) && Misled(ctx, t) && !MisledRepairs(ctx)
    requires outer.Hole? ==> TopBlack(outer)
    requires || r == Branch(t, ctx.node, Black, ctx.key, ctx.sibling.left)
             || (outer.Hole? && r == Rotate(L, Branch(t, ctx.node, Black, ctx.key, ctx.sibling.left)))
    ensures !RedBlack(Plug(outer, r)) && !ok
    ensures Tracks(Top, Plug(outer, r), true, ok)
    ensures EraseRank(Top, Plug(outer, r)) == 0
  {
    Lopsided(ctx, t, outer);
    TopBlackPlug(outer, r);
    if outer.Hole? {
      assert Paint(Plug(outer, r), Black) == Plug(outer, r);
    }
  }

  lemma MisledStop<N>(ctx: Context<N>, t: Tree<N>, ok: bool, outer: Context<N>)
    requires Tracks(ctx, t, false, ok) && Misled(ctx, t) && !MisledRepairs(ctx)
    ensures Tracks(outer, Branch(t, ctx.node, Red, ctx.key, ctx.sibling.left), true, ok)
    ensures EraseRank(outer, Branch(t, ctx.node, Red, ctx.key, ctx.sibling.left)) == 0
  {
    Lopsided(ctx, t, outer);
    var p := Branch(t, ctx.node, Red, ctx.key, ctx.sibling.left);
    assert Paint(p, Black) == Branch(t, ctx.node, Black, ctx.key, ctx.sibling.left);
  }

  /** The context of `x` when the wrong `w` is the old sibling, after that sibling's own rotation. */
  function SelfContext<N>(ctx: Context<N>): (c: Context<N>)
    requires ctx.Hole? && ctx.sibling.Branch?
    ensures c.Hole? && c.sibling.Branch?
  {
    var w := ctx.sibling;
    Hole(L, ctx.up, ctx.node, Black, ctx.key, Branch(w.left, w.node, Red, w.key, w.right))
  }

  lemma MisledSelf<N>(ctx: Context<N>, t: Tree<N>, ok: bool)
    requires Tracks(ctx, t, false, ok) && Misled(ctx, t) && ctx.up.Hole? && ctx.up.side == R
    ensures var c := SelfContext(ctx);
            var r := Plug(ctx.up, FarRed(c, t));
            && Tracks(Top, r, true, ok) && Same(r, Plug(ctx, t)) && EraseRank(Top, r) == 0
            && Fill(c, t) == NearRed(L, RedSibling(ctx, t))
            && Same(NearRed(L, RedSibling(ctx, t)), RedSibling(ctx, t))
  {
    var c, w := SelfContext(ctx), ctx.sibling;
    var outer := Hole(L, ctx.up, w.node, Black, w.key, Paint(w.right, Black));
    var low := Branch(t, ctx.node, Black, ctx.key, w.left);
    assert FarRed(c, t) == Fill(outer, low);
    MisledLost(ctx, t, ok, outer, low);
    FarRedSame(c, t);
    SamePlug(ctx.up, Fill(c, t), Fill(ctx, t));
  }

  lemma MisledVerdict<N>(ctx: Context<N>, t: Tree<N>, ok: bool, r: Tree<N>)
    requires Tracks(ctx, t, false, ok) && Misled(ctx, t)
    requires (RedBlack(r) <==> MisledRepairs(ctx)) && ColorOf(r) == Black
    ensures Tracks(Top, r, !MisledRepairs(ctx), ok) && EraseRank(Top, r) == 0
  {
    assert Paint(r, Black) == r;
  }

  /** The uncle with its far child painted black and itself red. */
  function FarUncle<N>(s: Tree<N>): (r: Tree<N>)
    requires s.Branch?
    ensures r.Branch?
  {
    s.(color := Red, right := Paint(s.right, Black))
  }

  /** The context of the parent in `RedSibling`, below the mispainted uncle. */
  function MisledFarContext<N>(ctx: Context<N>): (c: Context<N>)
    requires ctx.Hole? && ctx.sibling.Branch? && ctx.up.Hole? && ctx.up.sibling.Branch?
    ensures c.Hole? && c.up.Hole?
  {
    Hole(L, ctx.up.(sibling := FarUncle(ctx.up.sibling)), ctx.sibling.node, Black, ctx.sibling.key, ctx.sibling.right)
  }

  lemma MisledFarLost<N>(ctx: Context<N>, t: Tree<N>, ok: bool)
    requires Tracks(ctx, t, false, ok) && Misled(ctx, t) && ctx.up.Hole? && ctx.up.sibling.Branch?
    requires ctx.up.side == L && ColorOf(ctx.up.sibling.right) == Red
    ensures var c := MisledFarContext(ctx);
            var p := Branch(t, ctx.node, Black, ctx.key, ctx.sibling.left);
            var r := Plug(c, Rotate(L, p));
            && Tracks(Top, r, true, ok) && Same(r, Plug(ctx, t)) && EraseRank(Top, r) == 0
            && Same(Plug(c, p), Plug(ctx, t))
            && c == Down(L, ctx.up.(sibling := FarUncle(ctx.up.sibling)), RedSibling(ctx, t))
            && RedSibling(ctx, t).left == Paint(p, Red)
  {
    var c := MisledFarContext(ctx);
    var p := Branch(t, ctx.node, Black, ctx.key, ctx.sibling.left);
    assert TopBlack(ctx.up) && TopBlack(c.up);
    MisledLost(ctx, t, ok, c, Rotate(L, p));
    PaintSame(ctx.up.sibling.right, Black);
    assert Same(FarUncle(ctx.up.sibling), ctx.up.sibling);
    MisledSame(ctx, t, FarUncle(ctx.up.sibling));
    RotateKeeps(L, p);
    SamePlug(c, Rotate(L, p), p);
    SamePlug(c, p, Paint(p, Red));
    assert Plug(c, Paint(p, Red)) == Plug(c.up, RedSibling(ctx, t));
  }

  /** What a real iteration knows about the sibling. */
  lemma ShortFacts<N>(ctx: Context<N>, t: Tree<N>, lost: bool, ok: bool)
    requires Tracks(ctx, t, lost, ok) && Short(ctx, t)
    ensures !lost && ctx.Hole? && ctx.sibling.Branch?
    ensures ctx.sibling.color == Red && ctx.side == L ==> Misled(ctx, t)
    ensures ctx.sibling.color == Red && ctx.side == L && ctx.up.Hole? ==> ctx.up.sibling.Branch?
  {
    SiblingReal(ctx, t);
    if ctx.sibling.color == Red && ctx.side == L {
      Lopsided(ctx, t, Top);
    }
  }

  lemma EraseEnd<N>(ctx: Context<N>, t: Tree<N>, lost: bool, ok: bool)
    requires Tracks(ctx, t, lost, ok) && !Short(ctx, t)
    ensures var r := Plug(ctx, Paint(t, Black)); (RedBlack(r) && ColorOf(r) == Black <==> ok) && (lost ==> !ok)
    ensures Same(Plug(ctx, Paint(t, Black)), Plug(ctx, t))
  {
    PaintSame(t, Black);
    SamePlug(ctx, Paint(t, Black), t);
    if !lost {
      EraseDone(ctx, t);
    }
  }

  // -------------------------------------------------- unlinking a node

  /** Where node `z` is in the tree. */
  ghost function Locate<N>(ctx: Context<N>, t: Tree<N>, z: N): (r: (Context<N>, Tree<N>))
    requires z in Nodes(t)
    ensures r.1.Branch? && r.1.node == z && Plug(r.0, r.1) == Plug(ctx, t)
    decreases t
  {
    if t.node == z then (ctx, t)
    else if z in Nodes(t.left) then
      PlugDown(L, ctx, t);
      Locate(Down(L, ctx, t), t.left, z)
    else
      PlugDown(R, ctx, t);
      Locate(Down(R, ctx, t), t.right, z)
  }

  /** The context of the leftmost node of `t`, `t` itself being in `base`. */
  function LeftPath<N>(base: Context<N>, t: Tree<N>): Context<N>
    decreases t
  {
    if t.Nil? || t.left.Nil? then base else LeftPath(Down(L, base, t), t.left)
  }

  function LeftEnd<N>(t: Tree<N>): (r: Tree<N>)
    requires t.Branch?
    ensures r.Branch? && r.left.Nil?
  {
    if t.left.Nil? then t else LeftEnd(t.left)
  }

  /** `t` without its leftmost node, whose right subtree takes its place. */
  function DropMin<N>(t: Tree<N>): Tree<N>
    requires t.Branch?
  {
    if t.left.Nil? then t.right else t.(left := DropMin(t.left))
  }

  lemma {:induction false} DropMinSame<N>(t: Tree<N>)
    requires t.Branch?
    ensures var m := LeftEnd(t); Entries(t) == [(m.node, m.key)] + Entries(DropMin(t))
    ensures Nodes(t) == {LeftEnd(t).node} + Nodes(DropMin(t))
    ensures Distinct(t) ==> Distinct(DropMin(t)) && LeftEnd(t).node !in Nodes(DropMin(t))
  {
    if t.left.Branch? {
      DropMinSame(t.left);
    }
  }

  /** Contexts that differ only in which nodes and keys they hold. */
  ghost predicate SameColors<N>(a: Context<N>, b: Context<N>) {
    if a.Top? || b.Top? then a.Top? && b.Top?
    else a.side == b.side && a.color == b.color && a.sibling == b.sibling && SameColors(a.up, b.up)
  }

  lemma {:induction false} SameColorsPath<N>(a: Context<N>, b: Context<N>, t: Tree<N>)
    requires SameColors(a, b)
    ensures SameColors(LeftPath(a, t), LeftPath(b, t))
    ensures t.Branch? && t.left.Branch? ==>
              LeftPath(a, t).Hole? && LeftPath(b, t).Hole? && LeftPath(a, t).node == LeftPath(b, t).node
    decreases t
  {
    if t.Branch? && t.left.Branch? {
      SameColorsPath(Down(L, a, t), Down(L, b, t), t.left);
    }
  }

  lemma {:induction false} SameColorsAll<N>(a: Context<N>, b: Context<N>, h: nat, c: Color)
    requires SameColors(a, b)
    ensures Accepts(a, h, c) <==> Accepts(b, h, c)
    ensures TopBlack(a) <==> TopBlack(b)
    ensures Repairs(a, c) <==> Repairs(b, c)
    decreases a
  {
    if a.Hole? {
      SameColorsAll(a.up, b.up, h + Weight(a.color), a.color);
      assert a.sibling.Branch? ==> (MisledRepairs(a) <==> MisledRepairs(b));
    }
  }

  lemma {:induction false} PlugPath<N>(base: Context<N>, t: Tree<N>)
    requires t.Branch?
    ensures Plug(LeftPath(base, t), LeftEnd(t)) == Plug(base, t)
    ensures Plug(LeftPath(base, t), LeftEnd(t).right) == Plug(base, DropMin(t))
    decreases t
  {
    if t.left.Branch? {
      PlugPath(Down(L, base, t), t.left);
      PlugDown(L, base, t);
    }
  }

  /** Whether erasing node `z` leaves a red-black tree. */
  ghost predicate EraseRepairs<N>(t: Tree<N>, z: N)
    requires z in Nodes(t)
  {
    var (ctx, s) := Locate(Top, t, z);
    if s.left.Nil? then s.color == Red || Repairs(ctx, ColorOf(s.right))
    else if s.right.Nil? then s.color == Red || Repairs(ctx, ColorOf(s.left))
    else LeftEnd(s.right).color == Red
         || Repairs(LeftPath(Down(R, ctx, s), s.right), ColorOf(LeftEnd(s.right).right))
  }

  /** Taking out a black node with one child leaves that child one black short. */
  lemma UnlinkOne<N>(ctx: Context<N>, s: Tree<N>, x: Tree<N>)
    requires RedBlack(Plug(ctx, s)) && ColorOf(Plug(ctx, s)) == Black && s.Branch?
    requires (s.left.Nil? && x == s.right) || (s.right.Nil? && x == s.left)
    ensures s.color == Black ==> Deficient(ctx, x)
    ensures s.color == Red ==> RedBlack(Plug(ctx, x)) && ColorOf(Plug(ctx, x)) == Black
  {
    hide RedBlack, BlackHeight, Accepts, TopBlack, Plug;
    RedBlackPlug(ctx, s);
    TopBlackPlug(ctx, s);
    ChildOfSpine(s, x);
    PaintRedBlack(x);
    AcceptsBlack(ctx, BlackHeight(s), s.color);
    RedBlackPlug(ctx, x);
    TopBlackPlug(ctx, x);
  }

  lemma ChildOfSpine<N>(s: Tree<N>, x: Tree<N>)
    requires RedBlack(s) && s.Branch? && (x == s.left || x == s.right)
    ensures RedBlack(x) && BlackHeight(s) == BlackHeight(x) + Weight(s.color)
    ensures s.color == Red ==> ColorOf(x) == Black
  {
  }

  lemma {:induction false} AcceptsBlack<N>(ctx: Context<N>, h: nat, c: Color)
    requires Accepts(ctx, h, c)
    ensures Accepts(ctx, h, Black)
  {
  }

  /** Taking out the successor `y` of a node with two children, and putting `y` in that node's place. */
  lemma UnlinkTwo<N>(ctx: Context<N>, s: Tree<N>)
    requires RedBlack(Plug(ctx, s)) && ColorOf(Plug(ctx, s)) == Black
    requires s.Branch? && s.right.Branch?
    ensures var y := LeftEnd(s.right);
            var s' := Replaced(s);
            var c, c' := LeftPath(Down(R, ctx, s), s.right), LeftPath(Down(R, ctx, s'), s.right);
            && Plug(c', y.right) == Plug(ctx, s')
            && (y.color == Black ==> Deficient(c', y.right))
            && (y.color == Red ==> RedBlack(Plug(ctx, s')) && ColorOf(Plug(ctx, s')) == Black)
            && (Repairs(c, ColorOf(y.right)) <==> Repairs(c', ColorOf(y.right)))
  {
    var y := LeftEnd(s.right);
    var s' := Replaced(s);
    var b, b' := Down(R, ctx, s), Down(R, ctx, s');
    var c, c' := LeftPath(b, s.right), LeftPath(b', s.right);
    PlugDown(R, ctx, s);
    PlugDown(R, ctx, s');
    PlugPath(b, s.right);
    PlugPath(b', s.right);
    SameColorsRefl(ctx);
    SameColorsPath(b, b', s.right);
    UnlinkOne(c, y, y.right);
    SameColorsAll(c, c', Wanted(y.right), ColorOf(y.right));
    SameColorsAll(c, c', Wanted(y.right), Black);
    SameColorsAll(c, c', BlackHeight(y.right), ColorOf(y.right));
    RedBlackPlug(c, y.right);
    RedBlackPlug(c', y.right);
    TopBlackPlug(c, y.right);
    TopBlackPlug(c', y.right);
  }

  lemma {:induction false} SameColorsRefl<N>(a: Context<N>)
    ensures SameColors(a, a)
  {
    if a.Hole? {
      SameColorsRefl(a.up);
    }
  }

  /** `es` without its entry for `z`, which is at `i`. */
  ghost predicate RemovedAt<N>(es: seq<(N, int)>, i: nat, z: N, es': seq<(N, int)>) {
    i < |es| && es[i].0 == z && es' == es[..i] + es[i + 1..]
  }

  lemma RemovedSorted<N>(es: seq<(N, int)>, i: nat, z: N, es': seq<(N, int)>)
    requires Sorted(es) && RemovedAt(es, i, z, es')
    ensures Sorted(es')
  {
  }

  lemma CutOut<N>(es: seq<(N, int)>, es': seq<(N, int)>, i: nat, b: seq<(N, int)>, l: seq<(N, int)>, e: (N, int),
                  r: seq<(N, int)>, a: seq<(N, int)>)
    requires es == b + (l + [e] + r) + a && es' == b + (l + r) + a && i == |b| + |l|
    ensures RemovedAt(es, i, e.0, es')
  {
    assert es[..i] == b + l;
    assert es[i + 1..] == r + a;
  }

  lemma EntriesOfBranch<N>(s: Tree<N>)
    requires s.Branch?
    ensures Entries(s) == Entries(s.left) + [(s.node, s.key)] + Entries(s.right)
  {
  }

  /** Replacing a subtree by its children's entries removes exactly its root from the order. */
  lemma RemovedInHole<N>(ctx: Context<N>, s: Tree<N>, t: Tree<N>)
    requires s.Branch? && Entries(t) == Entries(s.left) + Entries(s.right)
    ensures RemovedAt(Entries(Plug(ctx, s)), |Before(ctx)| + |Entries(s.left)|, s.node, Entries(Plug(ctx, t)))
  {
    hide *;
    EntriesOfBranch(s);
    EntriesOfPlug(ctx, s);
    EntriesOfPlug(ctx, t);
    CutOut(Entries(Plug(ctx, s)), Entries(Plug(ctx, t)), |Before(ctx)| + |Entries(s.left)|,
           Before(ctx), Entries(s.left), (s.node, s.key), Entries(s.right), After(ctx));
  }

  /** The subtree of a node with two children once its successor has taken its place. */
  function Replaced<N>(s: Tree<N>): (r: Tree<N>)
    requires s.Branch? && s.right.Branch?
    ensures r.Branch?
  {
    Branch(s.left, LeftEnd(s.right).node, s.color, LeftEnd(s.right).key, DropMin(s.right))
  }

  lemma ReplacedSets<N>(ctx: Context<N>, s: Tree<N>)
    requires Apart(ctx, s) && s.Branch? && s.right.Branch?
    ensures Apart(ctx, Replaced(s))
    ensures Nodes(Replaced(s)) == Nodes(s) - {s.node}
    ensures Entries(Replaced(s)) == Entries(s.left) + Entries(s.right)
    ensures LeftEnd(s.right).node != s.node
    ensures LeftEnd(s.right).node == s.right.node <==> s.right.left.Nil?
  {
    DropMinSame(s.right);
    if s.right.left.Branch? {
      DropMinSame(s.right.left);
    }
  }

  function BlackLeaf(n: int): Tree<int> {
    Branch(Nil, n, Black, n, Nil)
  }

  /** The smallest failing tree: erasing the black left child of a root whose
      right child is red ends in a tree that is not red-black. */
  lemma EraseCanFail()
    ensures var t := Branch(BlackLeaf(0), 1, Black, 1, Branch(BlackLeaf(2), 3, Red, 3, BlackLeaf(4)));
            && RedBlack(t) && ColorOf(t) == Black && Distinct(t) && Sorted(Entries(t))
            && 0 in Nodes(t) && !EraseRepairs(t, 0)
  {
    var a, c, e := BlackLeaf(0), BlackLeaf(2), BlackLeaf(4);
    var r := Branch(c, 3, Red, 3, e);
    var t := Branch(a, 1, Black, 1, r);
    assert Entries(a) == [(0, 0)] && Entries(c) == [(2, 2)] && Entries(e) == [(4, 4)];
    assert Entries(r) == [(2, 2), (3, 3), (4, 4)];
    assert Entries(t) == [(0, 0), (1, 1), (2, 2), (3, 3), (4, 4)];
    assert Nodes(a) == {0} && Nodes(c) == {2} && Nodes(e) == {4} && Nodes(r) == {2, 3, 4};
    assert RedBlack(a) && RedBlack(c) && RedBlack(e) && RedBlack(r);
    assert Distinct(r);
    assert Locate(Top, t, 0) == (Down(L, Top, t), a);
  }
}
