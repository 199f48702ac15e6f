/** rbtree.c in its sentinel configuration: linked nodes with parent pointers
    and one shared `nil` node. */
module RedBlackTree {
  import opened RedBlackTheory
  import opened RedBlackErase

  class Node {
    var color: Color
    var key: int
    var parent: Node
    var left: Node
    var right: Node

    constructor Sentinel()
      ensures color == Black && parent == left == right == this
    {
      color, key := Black, 0;
      parent, left, right := this, this, this;
    }

    constructor (nil: Node, key: int)
      ensures color == Red && this.key == key && parent == left == right == nil
    {
      this.color, this.key := Red, key;
      parent, left, right := nil, nil, nil;
    }
  }

  type Shape = Tree<Node>
  type Around = Context<Node>

  ghost function RootOf(t: Shape, nil: Node): Node {
    if t.Nil? then nil else t.node
  }

  ghost function HolderOf(ctx: Around, nil: Node): Node {
    if ctx.Top? then nil else ctx.node
  }

  ghost function TopOf(ctx: Around, hole: Node): Node {
    if ctx.Top? then hole else TopOf(ctx.up, ctx.node)
  }

  ghost function Kid(n: Node, side: Side): Node
    reads n
  {
    if side == L then n.left else n.right
  }

  /** The nodes of `t` carry the colors, keys and links that `t` says, below parent `p`. */
  ghost predicate Linked(t: Shape, nil: Node, p: Node)
    reads Nodes(t)
  {
    t.Branch? ==>
      && t.node.color == t.color && t.node.key == t.key && t.node.parent == p
      && t.node.left == RootOf(t.left, nil) && t.node.right == RootOf(t.right, nil)
      && Linked(t.left, nil, t.node) && Linked(t.right, nil, t.node)
  }

  ghost predicate ContextLinked(ctx: Around, nil: Node, hole: Node)
    reads ContextNodes(ctx)
  {
    ctx.Hole? ==>
      && ctx.node.color == ctx.color && ctx.node.key == ctx.key
      && ctx.node.parent == HolderOf(ctx.up, nil)
      && Kid(ctx.node, ctx.side) == hole
      && Kid(ctx.node, Other(ctx.side)) == RootOf(ctx.sibling, nil)
      && Linked(ctx.sibling, nil, ctx.node) && ContextLinked(ctx.up, nil, ctx.node)
  }

  class RBTree {
    const nil: Node
    var root: Node
    ghost var tree: Shape

    constructor ()
      ensures tree == Nil && Focus(Top, tree) && nil.color == Black
      ensures fresh(nil)
    {
      var sentinel := new Node.Sentinel();
      nil := sentinel;
      root := sentinel;
      tree := Nil;
    }

    /** The whole tree is `t` plugged into `ctx`, and the links say so. */
    ghost predicate Focus(ctx: Around, t: Shape)
      reads this`root, nil`left, nil`right, ContextNodes(ctx), Nodes(t)
    {
      && nil !in ContextNodes(ctx) && nil !in Nodes(t)
      && Apart(ctx, t)
      && nil.left == nil && nil.right == nil
      && root == TopOf(ctx, RootOf(t, nil))
      && ContextLinked(ctx, nil, RootOf(t, nil))
      && Linked(t, nil, HolderOf(ctx, nil))
    }

    // ---------------------------------------------------- moving the focus

    lemma Ascend(ctx: Around, t: Shape)
      requires ctx.Hole?
      ensures Focus(ctx, t) <==> Focus(ctx.up, Fill(ctx, t))
    {
    }

    lemma Descend(side: Side, ctx: Around, t: Shape)
      requires t.Branch?
      ensures Focus(ctx, t) <==> Focus(Down(side, ctx, t), Child(side, t))
    {
      Ascend(Down(side, ctx, t), Child(side, t));
      assert Fill(Down(side, ctx, t), Child(side, t)) == t;
    }

    lemma {:induction false} FocusPlug(ctx: Around, t: Shape)
      ensures Focus(Top, Plug(ctx, t)) <==> Focus(ctx, t)
      decreases ctx
    {
      if ctx.Hole? {
        FocusPlug(ctx.up, Fill(ctx, t));
        Ascend(ctx, t);
      }
    }

    // ------------------------------------- reading and writing at the focus

    ghost predicate OneNode(t: Shape)
      requires t.Branch?
      reads Nodes(t)
    {
      && t.node.color == t.color && t.node.key == t.key
      && t.node.left == RootOf(t.left, nil) && t.node.right == RootOf(t.right, nil)
      && Linked(t.left, nil, t.node) && Linked(t.right, nil, t.node)
      && Distinct(t.left) && Distinct(t.right)
      && t.node !in Nodes(t.left) && t.node !in Nodes(t.right) && Nodes(t.left) !! Nodes(t.right)
    }

    ghost predicate OneHole(ctx: Around, hole: Node)
      reads this`root, ContextNodes(ctx)
    {
      if ctx.Top? then root == hole
      else
        && Kid(ctx.node, ctx.side) == hole
        && Kid(ctx.node, Other(ctx.side)) == RootOf(ctx.sibling, nil)
        && ctx.node.color == ctx.color && ctx.node.key == ctx.key
        && ctx.node.parent == HolderOf(ctx.up, nil)
        && root == TopOf(ctx.up, ctx.node)
        && Linked(ctx.sibling, nil, ctx.node) && ContextLinked(ctx.up, nil, ctx.node)
        && ctx.node !in Nodes(ctx.sibling) && ctx.node !in ContextNodes(ctx.up)
    }

    lemma Open(ctx: Around, t: Shape)
      requires Focus(ctx, t)
      ensures nil !in ContextNodes(ctx) && nil !in Nodes(t) && ContextNodes(ctx) !! Nodes(t)
      ensures OneHole(ctx, RootOf(t, nil))
      ensures nil.left == nil == nil.right
      ensures t.Branch? ==>
                && t.node in Nodes(t) && t.node != nil && nil !in Nodes(t.left) && nil !in Nodes(t.right)
                && OneNode(t) && t.node.parent == HolderOf(ctx, nil)
      ensures ctx.Hole? ==>
                && ContextNodes(ctx) == ContextNodes(ctx.up) + {ctx.node} + Nodes(ctx.sibling)
                && ctx.node != nil
      ensures ctx.Hole? && t.Branch? ==> Kid(ctx.node, Other(ctx.side)) != t.node
    {
    }

    lemma Close(ctx: Around, t: Shape)
      requires t.Branch? && t.node != nil && nil !in Nodes(t.left) && nil !in Nodes(t.right)
      requires OneNode(t) && t.node.parent == HolderOf(ctx, nil)
      requires OneHole(ctx, t.node)
      requires nil.left == nil == nil.right
      requires nil !in ContextNodes(ctx) && Apart(ctx, t)
      ensures Focus(ctx, t)
    {
    }

    lemma CloseTree(t: Shape)
      requires t.Branch? && OneNode(t)
      ensures Linked(t, nil, t.node.parent) && Distinct(t)
    {
    }

    lemma OpenTree(t: Shape, p: Node)
      requires t.Branch? && Linked(t, nil, p) && Distinct(t)
      ensures OneNode(t) && t.node.parent == p
    {
    }

    lemma ApartFocus(ctx: Around, t: Shape)
      requires Focus(ctx, t)
      ensures Apart(ctx, t)
    {
    }

    /** The assignment `n->color = c`. */
    method SetColor(n: Node, c: Color, ghost ctx: Around, ghost t: Shape)
      requires Focus(ctx, t) && t.Branch? && t.node == n
      modifies n`color
      ensures Focus(ctx, Paint(t, c))
    {
      hide Focus, Linked, ContextLinked, ContextDistinct, TopOf, ContextNodes;
      Open(ctx, t);
      ApartFocus(ctx, t);
      n.color := c;
      Close(ctx, Paint(t, c));
    }

    /** Everything a rotation at `t.node` leaves alone: the outer subtrees, the
        insides of the one that changes sides, and the context beyond its innermost node. */
    ghost predicate Rest(side: Side, ctx: Around, t: Shape)
      requires Rotatable(side, t)
      reads RestNodes(side, ctx, t)
    {
      var u := Child(Other(side), t);
      var b := Child(side, u);
      && Linked(Child(side, t), nil, t.node)
      && Linked(Child(Other(side), u), nil, u.node)
      && (b.Branch? ==> Linked(b.left, nil, b.node) && Linked(b.right, nil, b.node))
      && (ctx.Hole? ==> Linked(ctx.sibling, nil, ctx.node) && ContextLinked(ctx.up, nil, ctx.node))
    }

    ghost function RestNodes(side: Side, ctx: Around, t: Shape): set<Node>
      requires Rotatable(side, t)
    {
      var u := Child(Other(side), t);
      var b := Child(side, u);
      Nodes(Child(side, t)) + Nodes(Child(Other(side), u))
      + (if b.Branch? then Nodes(b.left) + Nodes(b.right) else {})
      + (if ctx.Hole? then Nodes(ctx.sibling) + ContextNodes(ctx.up) else {})
    }

    ghost predicate Rotatable(side: Side, t: Shape) {
      t.Branch? && Child(Other(side), t).Branch?
    }

    /** The fields of the nodes whose links a rotation changes; `h` is in the context's hole. */
    ghost predicate Near(side: Side, ctx: Around, h: Node, t: Shape)
      requires Rotatable(side, t)
      reads this`root, if ctx.Hole? then {ctx.node} else {}, t.node, Child(Other(side), t).node,
            if Child(side, Child(Other(side), t)).Branch? then {Child(side, Child(Other(side), t)).node} else {}
    {
      var u := Child(Other(side), t);
      var b := Child(side, u);
      && t.node.color == t.color && t.node.key == t.key && Kid(t.node, side) == RootOf(Child(side, t), nil)
      && u.node.color == u.color && u.node.key == u.key
      && Kid(u.node, Other(side)) == RootOf(Child(Other(side), u), nil)
      && (b.Branch? ==> b.node.color == b.color && b.node.key == b.key
                        && b.node.left == RootOf(b.left, nil) && b.node.right == RootOf(b.right, nil))
      && (if ctx.Top? then root == h else
            && root == TopOf(ctx.up, ctx.node)
            && Kid(ctx.node, ctx.side) == h && Kid(ctx.node, Other(ctx.side)) == RootOf(ctx.sibling, nil)
            && ctx.node.color == ctx.color && ctx.node.key == ctx.key
            && ctx.node.parent == HolderOf(ctx.up, nil))
    }

    lemma OpenRotation(side: Side, ctx: Around, t: Shape)
      requires Focus(ctx, t) && Rotatable(side, t)
      ensures var u := Child(Other(side), t);
              var b := Child(side, u);
              && Rest(side, ctx, t) && Near(side, ctx, t.node, t)
              && t.node !in RestNodes(side, ctx, t) && u.node !in RestNodes(side, ctx, t)
              && (b.Branch? ==> b.node !in RestNodes(side, ctx, t))
              && (ctx.Hole? ==> ctx.node !in RestNodes(side, ctx, t))
              && t.node.parent == HolderOf(ctx, nil)
              && Kid(t.node, Other(side)) == u.node && u.node.parent == t.node
              && Kid(u.node, side) == RootOf(b, nil) && (b.Branch? ==> b.node.parent == u.node)
    {
      var u := Child(Other(side), t);
      assert Linked(u, nil, t.node) && Distinct(u);
      assert Linked(Child(side, u), nil, u.node) && Distinct(Child(side, u));
    }

    lemma NodesOfRotation(side: Side, ctx: Around, t: Shape)
      requires Focus(ctx, t) && Rotatable(side, t)
      ensures var u := Child(Other(side), t);
              var b := Child(side, u);
              && nil !in Nodes(t) && t.node in Nodes(t) && u.node in Nodes(t) && t.node != u.node
              && nil !in ContextNodes(ctx)
              && (b.Branch? ==> b.node in Nodes(t) && b.node != t.node && b.node != u.node)
              && (ctx.Hole? ==> ctx.node in ContextNodes(ctx) && ctx.node !in Nodes(t)
                                && Kid(ctx.node, Other(ctx.side)) != t.node)
              && Apart(ctx, t) && nil.left == nil == nil.right
    {
      var u := Child(Other(side), t);
      assert Distinct(u) && u.node in Nodes(u) && Nodes(u) <= Nodes(t);
      assert Distinct(Child(side, u));
    }

    lemma CloseRotation(side: Side, ctx: Around, t: Shape)
      requires Rotatable(side, t)
      requires Apart(ctx, t) && nil !in Nodes(t) && nil !in ContextNodes(ctx) && nil.left == nil == nil.right
      requires Rest(side, ctx, t) && Near(side, ctx, Child(Other(side), t).node, t)
      requires var u := Child(Other(side), t);
               var b := Child(side, u);
               && t.node.parent == u.node && u.node.parent == HolderOf(ctx, nil)
               && Kid(t.node, Other(side)) == RootOf(b, nil) && Kid(u.node, side) == t.node
               && (b.Branch? ==> b.node.parent == t.node)
      ensures Focus(ctx, Rotate(side, t))
    {
      RotateKeeps(side, t);
    }

    lemma RootIsNil(t: Shape)
      requires nil !in Nodes(t)
      ensures RootOf(t, nil) == nil <==> t.Nil?
    {
    }

    method LeftRotate(x: Node, ghost ctx: Around, ghost t: Shape)
      requires Focus(ctx, t) && t.Branch? && t.node == x
      modifies this`root, ContextNodes(ctx), Nodes(t)
      ensures Focus(ctx, Rotate(L, t))
    {
      hide Focus, Linked, ContextLinked, Distinct, ContextDistinct, TopOf, ContextNodes, Nodes, Rest, RestNodes, Apart;
      Open(ctx, t);
      if x.right == nil {
        RootIsNil(t.right);
        return;
      }
      OpenRotation(L, ctx, t);
      NodesOfRotation(L, ctx, t);
      var y := x.right;
      x.right := y.left;
      if y.left != nil {
        y.left.parent := x;
      }
      y.parent := x.parent;
      if y.parent == nil {
        root := y;
      } else if x.parent.left == x {
        x.parent.left := y;
      } else {
        x.parent.right := y;
      }
      y.left := x;
      x.parent := y;
      CloseRotation(L, ctx, t);
    }

    method RightRotate(y: Node, ghost ctx: Around, ghost t: Shape)
      requires Focus(ctx, t) && t.Branch? && t.node == y
      modifies this`root, ContextNodes(ctx), Nodes(t)
      ensures Focus(ctx, Rotate(R, t))
    {
      hide Focus, Linked, ContextLinked, Distinct, ContextDistinct, TopOf, ContextNodes, Nodes, Rest, RestNodes, Apart;
      Open(ctx, t);
      if y.left == nil {
        RootIsNil(t.left);
        return;
      }
      OpenRotation(R, ctx, t);
      NodesOfRotation(R, ctx, t);
      var x := y.left;
      y.left := x.right;
      if x.right != nil {
        x.right.parent := y;
      }
      x.parent := y.parent;
      if x.parent == nil {
        root := x;
      } else if y.parent.right == y {
        y.parent.right := x;
      } else {
        y.parent.left := x;
      }
      x.right := y;
      y.parent := x;
      CloseRotation(R, ctx, t);
    }

    // ------------------------------------------------------------- insertion

    /** What the code can read around the focus. */
    lemma See(ctx: Around, t: Shape)
      requires Focus(ctx, t)
      ensures RootOf(t, nil) == nil <==> t.Nil?
      ensures t.Branch? ==>
                && t.node.color == t.color && t.node.key == t.key && t.node.parent == HolderOf(ctx, nil)
                && t.node.left == RootOf(t.left, nil) && t.node.right == RootOf(t.right, nil)
      ensures ctx.Top? ==> root == RootOf(t, nil)
      ensures ctx.Hole? ==>
                && ctx.node in ContextNodes(ctx)
                && ctx.node != nil && ctx.node.color == ctx.color && ctx.node.key == ctx.key
                && ctx.node.parent == HolderOf(ctx.up, nil)
                && Kid(ctx.node, ctx.side) == RootOf(t, nil)
                && Kid(ctx.node, Other(ctx.side)) == RootOf(ctx.sibling, nil)
                && (ctx.sibling.Branch? ==>
                      && ctx.sibling.node != nil && ctx.sibling.node.color == ctx.sibling.color)
                && (ctx.sibling.Nil? <==> RootOf(ctx.sibling, nil) == nil)
                && (t.Branch? ==> Kid(ctx.node, Other(ctx.side)) != t.node)
      ensures Nodes(Plug(ctx, t)) == ContextNodes(ctx) + Nodes(t)
      ensures t.Branch? ==> t.node in Nodes(t)
      ensures nil !in Nodes(Plug(ctx, t))
    {
      NodesOfPlug(ctx, t);
    }

    /** Moving the focus to the sibling. */
    lemma ToSibling(ctx: Around, t: Shape)
      requires ctx.Hole?
      ensures Focus(ctx, t) <==> Focus(Beside(ctx, t), ctx.sibling)
    {
      Ascend(ctx, t);
      Descend(Other(ctx.side), ctx.up, Fill(ctx, t));
    }

    /** Two levels up from the focus. */
    lemma SeeTwo(ctx: Around, t: Shape)
      requires Focus(ctx, t) && t.Branch? && ctx.Hole? && ctx.up.Hole?
      ensures t.node.parent == ctx.node && ctx.node.parent == ctx.up.node
      ensures Kid(ctx.node, ctx.side) == t.node && Kid(ctx.node, Other(ctx.side)) != t.node
      ensures Kid(ctx.up.node, ctx.up.side) == ctx.node && Kid(ctx.up.node, Other(ctx.up.side)) != ctx.node
      ensures Kid(ctx.up.node, Other(ctx.up.side)) == RootOf(ctx.up.sibling, nil)
      ensures ctx.node.color == ctx.color && ctx.up.node.color == ctx.up.color
      ensures {t.node, ctx.node, ctx.up.node} <= Nodes(Plug(ctx, t))
      ensures ctx.up.sibling.Branch? ==>
                && ctx.up.sibling.node in Nodes(Plug(ctx, t))
                && ctx.up.sibling.node.color == ctx.up.sibling.color
      ensures nil !in Nodes(Plug(ctx, t))
    {
      See(ctx, t);
      Ascend(ctx, t);
      See(ctx.up, Fill(ctx, t));
    }

    /** The black parent, red uncle case of the loop, at the same place in both halves. */
    method Recolor(z: Node, uncle: Node, ghost ctx: Around, ghost t: Shape)
      requires Focus(ctx, t) && t.Branch? && t.node == z && ctx.Hole? && ctx.up.Hole?
      requires uncle == RootOf(ctx.up.sibling, nil) && ctx.up.sibling.Branch?
      modifies Nodes(Plug(ctx, t))`color
      ensures Focus(ctx.up.up, Recolored(ctx, t))
    {
      hide Focus, Nodes, Plug;
      SeeTwo(ctx, t);
      Ascend(ctx, t);
      SetColor(z.parent, Black, ctx.up, Fill(ctx, t));
      ghost var p := Paint(Fill(ctx, t), Black);
      ToSibling(ctx.up, p);
      ghost var c1 := Beside(ctx.up, p);
      SetColor(uncle, Black, c1, ctx.up.sibling);
      Ascend(c1, Paint(ctx.up.sibling, Black));
      SetColor(z.parent.parent, Red, c1.up, Fill(c1, Paint(ctx.up.sibling, Black)));
    }

    /** Case 3 before its rotation: the parent black, the grandparent red. */
    method PaintTwo(z: Node, ghost ctx: Around, ghost t: Shape)
      requires Focus(ctx, t) && t.Branch? && t.node == z && ctx.Hole? && ctx.up.Hole?
      modifies Nodes(Plug(ctx, t))`color
      ensures Focus(ctx.up.up, Repainted(ctx, t))
    {
      hide Focus, Nodes, Plug;
      SeeTwo(ctx, t);
      Ascend(ctx, t);
      SetColor(z.parent, Black, ctx.up, Fill(ctx, t));
      Ascend(ctx.up, Paint(Fill(ctx, t), Black));
      SetColor(z.parent.parent, Red, ctx.up.up, Fill(ctx.up, Paint(Fill(ctx, t), Black)));
    }

    /** One iteration of the loop with the parent on the left. */
    method FixupLeft(z0: Node, ghost ctx0: Around, ghost t0: Shape)
      returns (z: Node, ghost ctx: Around, ghost t: Shape)
      requires Focus(ctx0, t0) && RedRed(ctx0, t0) && ctx0.up.Hole? && ctx0.up.side == L && t0.node == z0
      requires nil.color == Black
      modifies this`root, Nodes(Plug(ctx0, t0))
      ensures Focus(ctx, t) && Inserting(ctx, t) && t.Branch? && t.node == z && nil.color == Black
      ensures Same(Plug(ctx, t), Plug(ctx0, t0)) && Rank(ctx) < Rank(ctx0)
    {
      hide Focus, Nodes, ContextNodes, Plug, Inserting, Entries, Depth;
      z, ctx, t := z0, ctx0, t0;
      InsertingRed(ctx, t);
      SeeTwo(ctx, t);
      var uncle := z.parent.parent.right;
      if uncle.color == Red {
        Recolor(z, uncle, ctx, t);
        RecolorStep(ctx, t);
        z := z.parent.parent;
        t, ctx := Recolored(ctx, t), ctx.up.up;
      } else {
        if z == z.parent.right {
          z := z.parent;
          Ascend(ctx, t);
          RepaintedNodes(ctx, t);
          LeftRotate(z, ctx.up, Fill(ctx, t));
          ctx, t := Straighten(ctx, t);
          SeeTwo(ctx, t);
        }
        RepaintedNodes(ctx, t);
        PaintTwo(z, ctx, t);
        RightRotate(z.parent.parent, ctx.up.up, Repainted(ctx, t));
        ctx := Lift(ctx, t);
      }
    }

    /** One iteration of the loop with the parent on the right. */
    method FixupRight(z0: Node, ghost ctx0: Around, ghost t0: Shape)
      returns (z: Node, ghost ctx: Around, ghost t: Shape)
      requires Focus(ctx0, t0) && RedRed(ctx0, t0) && ctx0.up.Hole? && ctx0.up.side == R && t0.node == z0
      requires nil.color == Black
      modifies this`root, Nodes(Plug(ctx0, t0))
      ensures Focus(ctx, t) && Inserting(ctx, t) && t.Branch? && t.node == z && nil.color == Black
      ensures Same(Plug(ctx, t), Plug(ctx0, t0)) && Rank(ctx) < Rank(ctx0)
    {
      hide Focus, Nodes, ContextNodes, Plug, Inserting, Entries, Depth;
      z, ctx, t := z0, ctx0, t0;
      InsertingRed(ctx, t);
      SeeTwo(ctx, t);
      var uncle := z.parent.parent.left;
      if uncle.color == Red {
        Recolor(z, uncle, ctx, t);
        RecolorStep(ctx, t);
        z := z.parent.parent;
        t, ctx := Recolored(ctx, t), ctx.up.up;
      } else {
        if z == z.parent.left {
          z := z.parent;
          Ascend(ctx, t);
          RepaintedNodes(ctx, t);
          RightRotate(z, ctx.up, Fill(ctx, t));
          ctx, t := Straighten(ctx, t);
          SeeTwo(ctx, t);
        }
        RepaintedNodes(ctx, t);
        PaintTwo(z, ctx, t);
        LeftRotate(z.parent.parent, ctx.up.up, Repainted(ctx, t));
        ctx := Lift(ctx, t);
      }
    }

    method Fixup(z0: Node, ghost ctx0: Around, ghost t0: Shape) returns (ghost r: Shape)
      requires Focus(ctx0, t0) && Inserting(ctx0, t0) && t0.node == z0 && nil.color == Black
      modifies this`root, Nodes(Plug(ctx0, t0))
      ensures Focus(Top, r) && Same(r, Plug(ctx0, t0))
      ensures RedBlack(r) && ColorOf(r) == Black && nil.color == Black
    {
      hide Focus, Nodes, ContextNodes, Plug, Inserting, Entries, Depth, RedBlack;
      var z := z0;
      ghost var ctx, t := ctx0, t0;
      InsertingRed(ctx, t);
      See(ctx, t);
      while z.parent.color == Red
        invariant Focus(ctx, t) && Inserting(ctx, t) && t.Branch? && t.node == z && nil.color == Black
        invariant Same(Plug(ctx, t), Plug(ctx0, t0))
        decreases Rank(ctx)
      {
        See(ctx, t);
        HasGrandparent(ctx, t);
        SeeTwo(ctx, t);
        if z.parent == z.parent.parent.left {
          z, ctx, t := FixupLeft(z, ctx, t);
        } else {
          z, ctx, t := FixupRight(z, ctx, t);
        }
      }
      See(ctx, t);
      FocusPlug(ctx, t);
      InsertDone(ctx, t);
      r := Plug(ctx, t);
      PlugBranch(ctx, t);
      See(Top, r);
      SetColor(root, Black, Top, r);
      r := Paint(r, Black);
    }

    lemma PlugBranch(ctx: Around, t: Shape)
      requires t.Branch?
      ensures Plug(ctx, t).Branch? && Same(Paint(Plug(ctx, t), Black), Plug(ctx, t))
      decreases ctx
    {
    }

    /** After the rotation of case 2 the old parent is the focus. */
    lemma Straighten(ctx: Around, t: Shape) returns (ctx': Around, t': Shape)
      requires RedRed(ctx, t) && ctx.up.Hole? && ctx.side != ctx.up.side
      requires Focus(ctx.up, Rotate(ctx.up.side, Fill(ctx, t)))
      ensures Focus(ctx', t') && RedRed(ctx', t') && t'.Branch? && t'.node == ctx.node
      ensures ctx'.side == ctx.up.side && ctx'.up == ctx.up
      ensures Same(Plug(ctx', t'), Plug(ctx, t))
    {
      StraightenStep(ctx, t);
      var r := Rotate(ctx.up.side, Fill(ctx, t));
      Descend(ctx.up.side, ctx.up, r);
      ctx', t' := Down(ctx.up.side, ctx.up, r), Child(ctx.up.side, r);
    }

    /** After the rotation of case 3 the parent is black and the loop ends. */
    lemma Lift(ctx: Around, t: Shape) returns (ctx': Around)
      requires RedRed(ctx, t) && ctx.up.Hole? && ctx.side == ctx.up.side && ColorOf(ctx.up.sibling) == Black
      requires Focus(ctx.up.up, Lifted(ctx, t))
      ensures Focus(ctx', t) && Inserting(ctx', t) && ctx'.Hole? && ctx'.color == Black
      ensures Same(Plug(ctx', t), Plug(ctx, t))
    {
      LiftStep(ctx, t);
      ctx' := Down(ctx.side, ctx.up.up, Lifted(ctx, t));
      Descend(ctx.side, ctx.up.up, Lifted(ctx, t));
    }

    lemma InsertingRed(ctx: Around, t: Shape)
      requires Inserting(ctx, t)
      ensures t.Branch?
    {
    }

    lemma HasGrandparent(ctx: Around, t: Shape)
      requires Inserting(ctx, t) && ctx.Hole? && ctx.color == Red
      ensures ctx.up.Hole? && RedRed(ctx, t)
    {
    }

    ghost predicate Valid()
      reads this, nil, Nodes(tree)
    {
      && Focus(Top, tree) && nil.color == Black
      && RedBlack(tree) && ColorOf(tree) == Black
      && Sorted(Entries(tree))
    }

    /** Hanging a new red leaf into an empty hole. */
    lemma CloseLeaf(ctx: Around, z: Node)
      requires z != nil && z !in ContextNodes(ctx) && nil !in ContextNodes(ctx) && ContextDistinct(ctx)
      requires z.color == Red && z.left == nil == z.right && z.parent == HolderOf(ctx, nil)
      requires OneHole(ctx, z) && nil.left == nil == nil.right
      ensures Focus(ctx, Branch(Nil, z, Red, z.key, Nil))
    {
      EntriesOfLeaf(z, z.key);
      assert Distinct(Branch(Nil, z, Red, z.key, Nil));
    }

    /** Returns the new node; `i` is its place in the order, behind all equal keys. */
    method Insert(key: int) returns (z: Node, ghost i: nat)
      requires Valid()
      modifies this`root, this`tree, Nodes(tree)
      ensures Valid()
      ensures fresh(z) && InsertedAt(old(Entries(tree)), i, (z, key), Entries(tree))
      ensures Nodes(tree) == old(Nodes(tree)) + {z}
    {
      hide Linked, ContextLinked, Nodes, ContextNodes, Plug, Inserting, Entries, Depth, RedBlack, ContextDistinct,
           Distinct, Before, After, Fits, Sorted, InsertedAt, TopOf, Focus;
      FitsTop(key);
      PlugTop(tree);
      var x, y := root, nil;
      AllocatedNodes(tree);
      z := new Node(nil, key);
      ghost var ctx: Around, t := Top, tree;
      See(ctx, t);
      while x != nil
        invariant Focus(ctx, t) && x == RootOf(t, nil) && y == HolderOf(ctx, nil)
        invariant z.key == key && z.color == Red && z.left == z.right == nil
        invariant Plug(ctx, t) == tree == old(tree) && Fits(ctx, key)
        decreases t
      {
        See(ctx, t);
        FitsDown(ctx, t, key);
        Descend(L, ctx, t);
        Descend(R, ctx, t);
        PlugDown(L, ctx, t);
        PlugDown(R, ctx, t);
        y := x;
        if z.key < x.key {
          x := x.left;
          ctx, t := Down(L, ctx, t), t.left;
        } else {
          x := x.right;
          ctx, t := Down(R, ctx, t), t.right;
        }
      }
      See(ctx, t);
      Open(ctx, t);
      ApartFocus(ctx, t);
      if ctx.Hole? {
        FitsSide(ctx, key);
        assert y in old(Nodes(tree));
      }
      assert z !in old(Nodes(tree));
      assert nil !in old(Nodes(tree));
      z.parent := y;
      if y == nil {
        root := z;
      } else if z.key < y.key {
        y.left := z;
      } else {
        y.right := z;
      }
      t := Branch(Nil, z, Red, key, Nil);
      CloseLeaf(ctx, z);
      InsertStart(ctx, z, key);
      EntriesOfLeaf(z, key);
      InsertedInHole(ctx, t, z, key);
      InsertedSorted(Entries(tree), |Before(ctx)|, (z, key), Entries(Plug(ctx, t)));
      i := |Before(ctx)|;
      NodesOfPlug(ctx, t);
      NodesOfPlug(ctx, Nil);
      tree := Fixup(z, ctx, t);
    }

    lemma AllocatedNodes(t: Shape)
      ensures forall n :: n in Nodes(t) ==> allocated(n)
    {
    }

    lemma PlugTop(t: Shape)
      ensures Plug(Top, t) == t && ContextNodes<Node>(Top) == {}
    {
    }

    lemma FitsTop(key: int)
      ensures Fits<Node>(Top, key)
    {
    }

    lemma FitsSide(ctx: Around, key: int)
      requires Fits(ctx, key) && ctx.Hole?
      ensures ctx.side == L <==> key < ctx.key
    {
    }

    lemma EntriesOfLeaf(z: Node, key: int)
      ensures Entries(Branch(Nil, z, Red, key, Nil)) == [(z, key)]
      ensures Nodes(Branch(Nil, z, Red, key, Nil)) == {z} && Nodes<Node>(Nil) == {}
    {
    }

    // --------------------------------------------------------------- erasing

    /** The parent of the focus, its other child and that child's children. */
    lemma SeeFamily(ctx: Around, t: Shape)
      requires Focus(ctx, t) && ctx.Hole? && ctx.sibling.Branch?
      ensures var p, w, W := ctx.node, ctx.sibling.node, ctx.sibling;
              && p.color == ctx.color && p.parent == HolderOf(ctx.up, nil)
              && Kid(p, ctx.side) == RootOf(t, nil) && Kid(p, Other(ctx.side)) == w
              && w.color == W.color && w.parent == p && w != RootOf(t, nil)
              && w.left == RootOf(W.left, nil) && w.right == RootOf(W.right, nil)
              && (W.left.Branch? ==> w.left.color == W.left.color && w.left in Nodes(Plug(ctx, t)))
              && (W.right.Branch? ==> w.right.color == W.right.color && w.right in Nodes(Plug(ctx, t)))
              && {p, w} <= Nodes(Plug(ctx, t)) && nil !in Nodes(Plug(ctx, t)) && p != w
              && p != RootOf(t, nil)
    {
      See(ctx, t);
      ToSibling(ctx, t);
      var c := Beside(ctx, t);
      See(c, ctx.sibling);
      Descend(L, c, ctx.sibling);
      Descend(R, c, ctx.sibling);
      See(Down(L, c, ctx.sibling), ctx.sibling.left);
      See(Down(R, c, ctx.sibling), ctx.sibling.right);
      PlugSibling(ctx, t);
      PlugDown(L, c, ctx.sibling);
      PlugDown(R, c, ctx.sibling);
    }

    lemma PlugSibling(ctx: Around, t: Shape)
      requires ctx.Hole?
      ensures Plug(Beside(ctx, t), ctx.sibling) == Plug(ctx, t)
    {
    }

    /** `n->color = RBTREE_BLACK` where `n` may be the sentinel. */
    method Blacken(n: Node, ghost ctx: Around, ghost t: Shape)
      requires Focus(ctx, t) && n == RootOf(t, nil)
      modifies n`color
      ensures Focus(ctx, Paint(t, Black)) && n.color == Black
    {
      See(ctx, t);
      if n == nil {
        hide Linked, ContextLinked;
        n.color := Black;
      } else {
        SetColor(n, Black, ctx, t);
      }
    }

    ghost function Beside(ctx: Around, t: Shape): Around
      requires ctx.Hole?
    {
      Hole(Other(ctx.side), ctx.up, ctx.node, ctx.color, ctx.key, t)
    }

    lemma NearNodes(ctx: Around, t: Shape)
      requires ctx.Hole? && ctx.sibling.Branch?
      ensures var W := ctx.sibling;
              && ContextNodes(Beside(ctx, t)) + Nodes(W.(left := Paint(W.left, Black), color := Red)) == Nodes(Plug(ctx, t))
              && ContextNodes(Beside(ctx, t)) + Nodes(W.(right := Paint(W.right, Black), color := Red)) == Nodes(Plug(ctx, t))
    {
      NodesOfPlug(ctx, t);
      assert Nodes(Paint(ctx.sibling.left, Black)) == Nodes(ctx.sibling.left);
      assert Nodes(Paint(ctx.sibling.right, Black)) == Nodes(ctx.sibling.right);
    }

    /** Case 4 with `x` on the left: `w` takes the parent's color, the parent goes down on that side. */
    method FarFixLeft(p: Node, w: Node, ghost ctx: Around, ghost t: Shape)
      requires Focus(ctx, t) && ctx.Hole? && ctx.side == L && ctx.sibling.Branch?
      requires p == ctx.node && w == ctx.sibling.node && nil.color == Black
      modifies this`root, nil`color, Nodes(Plug(ctx, t))
      ensures Focus(ctx.up, FarRed(ctx, t)) && nil.color == Black
    {
      hide Focus, Nodes, ContextNodes, Plug, Linked, ContextLinked;
      SeeFamily(ctx, t);
      FarNodes(ctx, t);
      ghost var W := ctx.sibling;
      ToSibling(ctx, t);
      SetColor(w, p.color, Beside(ctx, t), W);
      ghost var c1 := ctx.(sibling := Paint(W, ctx.color));
      ToSibling(c1, t);
      Ascend(c1, t);
      SetColor(p, Black, ctx.up, Fill(c1, t));
      ghost var c2 := c1.(color := Black);
      Ascend(c2, t);
      ToSibling(c2, t);
      Descend(R, Beside(c2, t), c2.sibling);
      Blacken(w.right, Down(R, Beside(c2, t), c2.sibling), W.right);
      ghost var W' := W.(color := ctx.color, right := Paint(W.right, Black));
      Ascend(Down(R, Beside(c2, t), c2.sibling), Paint(W.right, Black));
      ToSibling(c2.(sibling := W'), t);
      Ascend(c2.(sibling := W'), t);
      LeftRotate(p, ctx.up, FarPainted(ctx, t));
    }

    /** Case 3 with `x` on the left: the near nephew comes up in place of `w`. */
    method NearFixLeft(w: Node, ghost ctx: Around, ghost t: Shape)
      requires Focus(ctx, t) && ctx.Hole? && ctx.side == L && ctx.sibling.Branch? && ctx.sibling.left.Branch?
      requires w == ctx.sibling.node
      modifies this`root, Nodes(Plug(ctx, t))
      ensures Focus(ctx.(sibling := NearRed(L, ctx.sibling)), t)
    {
      hide Focus, Nodes, ContextNodes, Plug, Linked, ContextLinked;
      SeeFamily(ctx, t);
      ghost var W := ctx.sibling;
      NearNodes(ctx, t);
      ghost var b := Beside(ctx, t);
      ToSibling(ctx, t);
      Descend(L, b, W);
      SetColor(w.left, Black, Down(L, b, W), W.left);
      Ascend(Down(L, b, W), Paint(W.left, Black));
      SetColor(w, Red, b, W.(left := Paint(W.left, Black)));
      RightRotate(w, b, W.(left := Paint(W.left, Black), color := Red));
      ToSibling(ctx.(sibling := NearRed(L, W)), t);
    }

    /** Case 4 with `x` on the right: `w` takes the parent's color, the parent goes down on that side. */
    method FarFixRight(p: Node, w: Node, ghost ctx: Around, ghost t: Shape)
      requires Focus(ctx, t) && ctx.Hole? && ctx.side == R && ctx.sibling.Branch?
      requires p == ctx.node && w == ctx.sibling.node && nil.color == Black
      modifies this`root, nil`color, Nodes(Plug(ctx, t))
      ensures Focus(ctx.up, FarRed(ctx, t)) && nil.color == Black
    {
      hide Focus, Nodes, ContextNodes, Plug, Linked, ContextLinked;
      SeeFamily(ctx, t);
      FarNodes(ctx, t);
      ghost var W := ctx.sibling;
      ToSibling(ctx, t);
      SetColor(w, p.color, Beside(ctx, t), W);
      ghost var c1 := ctx.(sibling := Paint(W, ctx.color));
      ToSibling(c1, t);
      Ascend(c1, t);
      SetColor(p, Black, ctx.up, Fill(c1, t));
      ghost var c2 := c1.(color := Black);
      Ascend(c2, t);
      ToSibling(c2, t);
      Descend(L, Beside(c2, t), c2.sibling);
      Blacken(w.left, Down(L, Beside(c2, t), c2.sibling), W.left);
      ghost var W' := W.(color := ctx.color, left := Paint(W.left, Black));
      Ascend(Down(L, Beside(c2, t), c2.sibling), Paint(W.left, Black));
      ToSibling(c2.(sibling := W'), t);
      Ascend(c2.(sibling := W'), t);
      RightRotate(p, ctx.up, FarPainted(ctx, t));
    }

    /** Case 3 with `x` on the right: the near nephew comes up in place of `w`. */
    method NearFixRight(w: Node, ghost ctx: Around, ghost t: Shape)
      requires Focus(ctx, t) && ctx.Hole? && ctx.side == R && ctx.sibling.Branch? && ctx.sibling.right.Branch?
      requires w == ctx.sibling.node
      modifies this`root, Nodes(Plug(ctx, t))
      ensures Focus(ctx.(sibling := NearRed(R, ctx.sibling)), t)
    {
      hide Focus, Nodes, ContextNodes, Plug, Linked, ContextLinked;
      SeeFamily(ctx, t);
      ghost var W := ctx.sibling;
      NearNodes(ctx, t);
      ghost var b := Beside(ctx, t);
      ToSibling(ctx, t);
      Descend(R, b, W);
      SetColor(w.right, Black, Down(R, b, W), W.right);
      Ascend(Down(R, b, W), Paint(W.right, Black));
      SetColor(w, Red, b, W.(right := Paint(W.right, Black)));
      LeftRotate(w, b, W.(right := Paint(W.right, Black), color := Red));
      ToSibling(ctx.(sibling := NearRed(R, W)), t);
    }

    lemma RedNodes(ctx: Around, t: Shape)
      requires ctx.Hole? && ctx.sibling.Branch?
      ensures ContextNodes(ctx.up) + Nodes(Fill(ctx.(sibling := Paint(ctx.sibling, Black), color := Red), t)) == Nodes(Plug(ctx, t))
    {
      NodesOfPlug(ctx, t);
    }

    lemma ShortRank(ctx: Around, t: Shape)
      requires Short(ctx, t)
      ensures EraseRank(ctx, t) > 0
    {
    }

    /** Case 1 with `x` on the left: sibling black, parent red, rotation at the parent. */
    method RedFixLeft(p: Node, w: Node, ghost ctx: Around, ghost t: Shape)
      requires Focus(ctx, t) && ctx.Hole? && ctx.side == L && ctx.sibling.Branch?
      requires p == ctx.node && w == ctx.sibling.node
      modifies this`root, Nodes(Plug(ctx, t))
      ensures Focus(ctx.up, RedSibling(ctx, t))
    {
      hide Focus, Nodes, ContextNodes, Plug, Linked, ContextLinked;
      SeeFamily(ctx, t);
      RedNodes(ctx, t);
      ToSibling(ctx, t);
      SetColor(w, Black, Beside(ctx, t), ctx.sibling);
      ghost var c1 := ctx.(sibling := Paint(ctx.sibling, Black));
      ToSibling(c1, t);
      Ascend(c1, t);
      SetColor(p, Red, ctx.up, Fill(c1, t));
      LeftRotate(p, ctx.up, Fill(c1.(color := Red), t));
    }

    /** The rest of an iteration with `x` on the left and a black sibling `w0`. */
    method TailLeft(x0: Node, w0: Node, ghost ctx0: Around, ghost t0: Shape, ghost ok: bool)
      returns (x: Node, ghost ctx: Around, ghost t: Shape)
      requires Focus(ctx0, t0) && Tracks(ctx0, t0, false, ok) && Short(ctx0, t0) && ctx0.side == L
      requires ctx0.sibling.Branch? && ctx0.sibling.color == Black && w0 == ctx0.sibling.node
      requires x0 == RootOf(t0, nil) && x0.parent == ctx0.node && nil.color == Black
      modifies this`root, nil`color, Nodes(Plug(ctx0, t0))
      ensures Focus(ctx, t) && Tracks(ctx, t, false, ok) && t.Branch?
      ensures x == RootOf(t, nil) && nil.color == Black
      ensures Same(Plug(ctx, t), Plug(ctx0, t0))
      ensures EraseRank(ctx, t) < EraseRank(ctx0, t0) && (ctx0.color == Red ==> EraseRank(ctx, t) == 0)
    {
      hide Focus, Nodes, ContextNodes, Plug, Linked, ContextLinked, Tracks, Entries, EraseRank, Depth;
      var w := w0;
      x, ctx, t := x0, ctx0, t0;
      SeeFamily(ctx, t);
      if w.left.color == Black && w.right.color == Black {
        ToSibling(ctx, t);
        SetColor(w, Red, Beside(ctx, t), ctx.sibling);
        ToSibling(ctx.(sibling := Paint(ctx.sibling, Red)), t);
        Ascend(ctx.(sibling := Paint(ctx.sibling, Red)), t);
        x := x.parent;
        t := NephewsTrack(ctx, t, ok);
        ctx := ctx.up;
      } else {
        ShortRank(ctx, t);
        if w.right.color == Black {
          NearFixLeft(w, ctx, t);
          ctx := NearTrack(ctx, t, ok);
          See(ctx, t);
          SeeFamily(ctx, t);
          w := x.parent.right;
        }
        FarFixLeft(x.parent, w, ctx, t);
        FocusPlug(ctx.up, FarRed(ctx, t));
        t := FarTrack(ctx, t, ok);
        See(Top, t);
        ctx := Top;
        x := root;
      }
    }

    /** Case 1 with `x` on the right: sibling black, parent red, rotation at the parent. */
    method RedFixRight(p: Node, w: Node, ghost ctx: Around, ghost t: Shape)
      requires Focus(ctx, t) && ctx.Hole? && ctx.side == R && ctx.sibling.Branch?
      requires p == ctx.node && w == ctx.sibling.node
      modifies this`root, Nodes(Plug(ctx, t))
      ensures Focus(ctx.up, RedSibling(ctx, t))
    {
      hide Focus, Nodes, ContextNodes, Plug, Linked, ContextLinked;
      SeeFamily(ctx, t);
      RedNodes(ctx, t);
      ToSibling(ctx, t);
      SetColor(w, Black, Beside(ctx, t), ctx.sibling);
      ghost var c1 := ctx.(sibling := Paint(ctx.sibling, Black));
      ToSibling(c1, t);
      Ascend(c1, t);
      SetColor(p, Red, ctx.up, Fill(c1, t));
      RightRotate(p, ctx.up, Fill(c1.(color := Red), t));
    }

    /** The rest of an iteration with `x` on the right and a black sibling `w0`. */
    method TailRight(x0: Node, w0: Node, ghost ctx0: Around, ghost t0: Shape, ghost ok: bool)
      returns (x: Node, ghost ctx: Around, ghost t: Shape)
      requires Focus(ctx0, t0) && Tracks(ctx0, t0, false, ok) && Short(ctx0, t0) && ctx0.side == R
      requires ctx0.sibling.Branch? && ctx0.sibling.color == Black && w0 == ctx0.sibling.node
      requires x0 == RootOf(t0, nil) && x0.parent == ctx0.node && nil.color == Black
      modifies this`root, nil`color, Nodes(Plug(ctx0, t0))
      ensures Focus(ctx, t) && Tracks(ctx, t, false, ok) && t.Branch?
      ensures x == RootOf(t, nil) && nil.color == Black
      ensures Same(Plug(ctx, t), Plug(ctx0, t0))
      ensures EraseRank(ctx, t) < EraseRank(ctx0, t0) && (ctx0.color == Red ==> EraseRank(ctx, t) == 0)
    {
      hide Focus, Nodes, ContextNodes, Plug, Linked, ContextLinked, Tracks, Entries, EraseRank, Depth;
      var w := w0;
      x, ctx, t := x0, ctx0, t0;
      SeeFamily(ctx, t);
      if w.left.color == Black && w.right.color == Black {
        ToSibling(ctx, t);
        SetColor(w, Red, Beside(ctx, t), ctx.sibling);
        ToSibling(ctx.(sibling := Paint(ctx.sibling, Red)), t);
        Ascend(ctx.(sibling := Paint(ctx.sibling, Red)), t);
        x := x.parent;
        t := NephewsTrack(ctx, t, ok);
        ctx := ctx.up;
      } else {
        ShortRank(ctx, t);
        if w.left.color == Black {
          NearFixRight(w, ctx, t);
          ctx := NearTrack(ctx, t, ok);
          See(ctx, t);
          SeeFamily(ctx, t);
          w := x.parent.left;
        }
        FarFixRight(x.parent, w, ctx, t);
        FocusPlug(ctx.up, FarRed(ctx, t));
        t := FarTrack(ctx, t, ok);
        See(Top, t);
        ctx := Top;
        x := root;
      }
    }

    /** The subtree at the node `w` names after line 221: the right child of its own new parent. */
    ghost function Reread(ctx: Around, t: Shape): Shape
      requires ctx.Hole? && ctx.sibling.Branch?
    {
      if ctx.up.Top? then Nil else if ctx.up.side == R then RedSibling(ctx, t) else ctx.up.sibling
    }

    lemma RedSiblingSame(ctx: Around, t: Shape)
      requires ctx.Hole? && ctx.sibling.Branch?
      ensures Same(Plug(ctx.up, RedSibling(ctx, t)), Plug(ctx, t))
    {
      RotateKeeps(ctx.side, Join(ctx.side, t, ctx.node, Red, ctx.key, Paint(ctx.sibling, Black)));
      SamePlug(ctx.up, RedSibling(ctx, t), Fill(ctx, t));
    }

    /** After the bad re-read, black nephews: the wrong node is painted red and the loop ends. */
    method MisledNephews(x0: Node, w: Node, ghost ctx0: Around, ghost t0: Shape, ghost ok: bool)
      returns (x: Node, ghost ctx: Around, ghost t: Shape)
      requires Tracks(ctx0, t0, false, ok) && Misled(ctx0, t0) && Focus(ctx0.up, RedSibling(ctx0, t0))
      requires x0 == RootOf(t0, nil) && x0.parent == ctx0.node && w == RootOf(Reread(ctx0, t0), nil)
      requires ctx0.up.Hole? ==>
                 && ctx0.up.side == L && ctx0.up.sibling.Branch?
                 && ColorOf(ctx0.up.sibling.left) == Black && ColorOf(ctx0.up.sibling.right) == Black
      modifies nil`color, Nodes(Plug(ctx0, t0))`color
      ensures Focus(ctx, t) && Tracks(ctx, t, true, ok) && t.Branch? && x == t.node
      ensures Same(Plug(ctx, t), Plug(ctx0, t0)) && EraseRank(ctx, t) == 0
    {
      hide Focus, Nodes, ContextNodes, Plug, Linked, ContextLinked, Entries, EraseRank, Depth, Tracks;
      ghost var r := RedSibling(ctx0, t0);
      ghost var up := ctx0.up;
      RedSiblingSame(ctx0, t0);
      See(up, r);
      if w == nil {
        w.color := Red;
      } else {
        ToSibling(up, r);
        See(Beside(up, r), up.sibling);
        PlugSibling(up, r);
        SetColor(w, Red, Beside(up, r), up.sibling);
        PaintSame(up.sibling, Red);
        MisledSame(ctx0, t0, Paint(up.sibling, Red));
        up := up.(sibling := Paint(up.sibling, Red));
        ToSibling(up, r);
      }
      x := x0.parent;
      MisledStop(ctx0, t0, ok, Down(L, up, r));
      Descend(L, up, r);
      PlugDown(L, up, r);
      ctx, t := Down(L, up, r), r.left;
      See(ctx, t);
    }

    /** After the bad re-read, far child black: the wrong node takes both last cases. */
    method MisledNear(x0: Node, w0: Node, ghost ctx0: Around, ghost t0: Shape, ghost ok: bool)
      returns (x: Node, ghost t: Shape, ghost lost: bool)
      requires Tracks(ctx0, t0, false, ok) && Misled(ctx0, t0) && Focus(ctx0.up, RedSibling(ctx0, t0))
      requires x0 == RootOf(t0, nil) && x0.parent == ctx0.node && w0 == RootOf(Reread(ctx0, t0), nil)
      requires ctx0.up.Hole? && nil.color == Black
      requires ctx0.up.side == L ==>
                 && ctx0.up.sibling.Branch?
                 && ColorOf(ctx0.up.sibling.left) == Red && ColorOf(ctx0.up.sibling.right) == Black
      modifies this`root, nil`color, Nodes(Plug(ctx0, t0))
      ensures Focus(Top, t) && Tracks(Top, t, lost, ok) && t.Branch? && x == t.node && nil.color == Black
      ensures Same(t, Plug(ctx0, t0)) && EraseRank(Top, t) == 0
    {
      hide Focus, Nodes, ContextNodes, Plug, Linked, ContextLinked, Entries, EraseRank, Depth, Tracks;
      ghost var r := RedSibling(ctx0, t0);
      ghost var up := ctx0.up;
      RedSiblingSame(ctx0, t0);
      x := x0;
      Lopsided(ctx0, t0, Top);
      MisledRoot(ctx0, t0);
      See(up, r);
      Descend(L, up, r);
      See(Down(L, up, r), r.left);
      PlugDown(L, up, r);
      if up.side == R {
        ToSibling(up, r);
        PlugSibling(up, r);
      }
      ghost var k := if up.side == R then Beside(up, r) else up;
      ghost var kt := if up.side == R then up.sibling else r;
      SeeFamily(k, kt);
      NearFixLeft(w0, k, kt);
      ghost var k' := k.(sibling := NearRed(L, k.sibling));
      ghost var c: Around;
      if up.side == R {
        ToSibling(k', kt);
        c := SelfContext(ctx0);
        MisledSelf(ctx0, t0, ok);
        Ascend(c, t0);
        lost := true;
      } else {
        c := MisledContext(ctx0, NearRed(L, up.sibling));
        MisledLuck(ctx0, t0);
        MisledSame(ctx0, t0, NearRed(L, up.sibling));
        Descend(L, k', r);
        Descend(L, Down(L, k', r), r.left);
        lost := !MisledRepairs(ctx0);
        MisledVerdict(ctx0, t0, ok, Plug(c.up, FarRed(c, t0)));
      }
      See(c, t0);
      SeeFamily(c, t0);
      var w := x.parent.right;
      FarFixLeft(x.parent, w, c, t0);
      FocusPlug(c.up, FarRed(c, t0));
      t := Plug(c.up, FarRed(c, t0));
      SameBranch(t, ctx0, t0);
      See(Top, t);
      x := root;
    }

    lemma MisledRoot(ctx: Around, t: Shape)
      requires Misled(ctx, t)
      ensures var r := RedSibling(ctx, t);
              && r.node == ctx.sibling.node && r.left == Branch(t, ctx.node, Red, ctx.key, ctx.sibling.left)
              && r.right == ctx.sibling.right && ColorOf(r.right) == Black && r.right.Branch?
    {
      SiblingReal(ctx, t);
    }

    /** After the bad re-read, far child red: the uncle is mispainted and the parent rotated. */
    method MisledFar(x0: Node, w: Node, ghost ctx0: Around, ghost t0: Shape, ghost ok: bool)
      returns (x: Node, ghost t: Shape)
      requires Tracks(ctx0, t0, false, ok) && Misled(ctx0, t0) && Focus(ctx0.up, RedSibling(ctx0, t0))
      requires x0 == RootOf(t0, nil) && x0.parent == ctx0.node && w == RootOf(Reread(ctx0, t0), nil)
      requires ctx0.up.Hole? && nil.color == Black && ctx0.up.side == L
      requires ctx0.up.sibling.Branch? && ColorOf(ctx0.up.sibling.right) == Red
      modifies this`root, nil`color, Nodes(Plug(ctx0, t0))
      ensures Focus(Top, t) && Tracks(Top, t, true, ok) && t.Branch? && x == t.node && nil.color == Black
      ensures Same(t, Plug(ctx0, t0)) && EraseRank(Top, t) == 0
    {
      hide Focus, Nodes, ContextNodes, Plug, Linked, ContextLinked, Entries, EraseRank, Depth, Tracks;
      ghost var r, up, s := RedSibling(ctx0, t0), ctx0.up, ctx0.up.sibling;
      RedSiblingSame(ctx0, t0);
      MisledRoot(ctx0, t0);
      MisledFarLost(ctx0, t0, ok);
      See(up, r);
      SeeFamily(up, r);
      Descend(L, up, r);
      See(Down(L, up, r), r.left);
      PlugDown(L, up, r);
      x := x0;
      ToSibling(up, r);
      SetColor(w, x.parent.color, Beside(up, r), s);
      Descend(R, Beside(up, r), s.(color := Red));
      ghost var p := Branch(t0, ctx0.node, Black, ctx0.key, ctx0.sibling.left);
      ToSibling(up.(sibling := s.(color := Red)), r);
      Descend(L, up.(sibling := s.(color := Red)), r);
      SetColor(x.parent, Black, Down(L, up.(sibling := s.(color := Red)), r), r.left);
      Ascend(Down(L, up.(sibling := s.(color := Red)), r), p);
      ghost var r' := r.(left := p);
      ToSibling(up.(sibling := s.(color := Red)), r');
      ghost var d := Down(R, Beside(up, r'), s.(color := Red));
      Descend(R, Beside(up, r'), s.(color := Red));
      Blacken(w.right, d, s.right);
      Ascend(d, Paint(s.right, Black));
      ToSibling(up.(sibling := FarUncle(s)), r');
      Descend(L, up.(sibling := FarUncle(s)), r');
      ghost var c := MisledFarContext(ctx0);
      NodesOfPlug(c, p);
      LeftRotate(x.parent, c, p);
      FocusPlug(c, Rotate(L, p));
      t := Plug(c, Rotate(L, p));
      SameBranch(t, ctx0, t0);
      See(Top, t);
      x := root;
    }

    lemma RootTest(ctx: Around, t: Shape)
      requires Focus(ctx, t)
      ensures root == RootOf(t, nil) <==> ctx.Top?
    {
      if ctx.Hole? {
        TopInContext(ctx, RootOf(t, nil));
      }
    }

    lemma TopInContext(ctx: Around, hole: Node)
      requires ctx.Hole?
      ensures TopOf(ctx, hole) in ContextNodes(ctx)
    {
    }

    /** One iteration with `x` a left child. */
    method IterateLeft(x0: Node, ghost ctx0: Around, ghost t0: Shape, ghost ok: bool)
      returns (x: Node, ghost ctx: Around, ghost t: Shape, ghost lost: bool)
      requires Focus(ctx0, t0) && Tracks(ctx0, t0, false, ok) && Short(ctx0, t0) && ctx0.side == L
      requires ctx0.sibling.Branch? && x0 == RootOf(t0, nil) && x0.parent == ctx0.node && nil.color == Black
      modifies this`root, nil`color, Nodes(Plug(ctx0, t0))
      ensures Focus(ctx, t) && Tracks(ctx, t, lost, ok) && t.Branch? && x == t.node
      ensures !lost ==> nil.color == Black
      ensures Same(Plug(ctx, t), Plug(ctx0, t0)) && EraseRank(ctx, t) < EraseRank(ctx0, t0)
    {
      hide Focus, Nodes, ContextNodes, Plug, Linked, ContextLinked, Entries, EraseRank, Depth, Tracks;
      x, ctx, t, lost := x0, ctx0, t0, false;
      ShortFacts(ctx, t, false, ok);
      See(ctx, t);
      SeeFamily(ctx, t);
      ShortRank(ctx, t);
      var w := x.parent.right;
      if w.color == Red {
        RedFixLeft(x.parent, w, ctx, t);
        MisledTurn(ctx0, t0);
        x, ctx, t, lost := MisledTail(x, w, ctx0, t0, ok);
      } else {
        x, ctx, t := TailLeft(x, w, ctx, t, ok);
      }
    }

    /** One iteration with `x` a right child. */
    method IterateRight(x0: Node, ghost ctx0: Around, ghost t0: Shape, ghost ok: bool)
      returns (x: Node, ghost ctx: Around, ghost t: Shape)
      requires Focus(ctx0, t0) && Tracks(ctx0, t0, false, ok) && Short(ctx0, t0) && ctx0.side == R
      requires ctx0.sibling.Branch? && x0 == RootOf(t0, nil) && x0.parent == ctx0.node && nil.color == Black
      modifies this`root, nil`color, Nodes(Plug(ctx0, t0))
      ensures Focus(ctx, t) && Tracks(ctx, t, false, ok) && t.Branch? && x == t.node
      ensures nil.color == Black
      ensures Same(Plug(ctx, t), Plug(ctx0, t0)) && EraseRank(ctx, t) < EraseRank(ctx0, t0)
    {
      hide Focus, Nodes, ContextNodes, Plug, Linked, ContextLinked, Entries, EraseRank, Depth, Tracks;
      x, ctx, t := x0, ctx0, t0;
      ShortFacts(ctx, t, false, ok);
      See(ctx, t);
      SeeFamily(ctx, t);
      ShortRank(ctx, t);
      var w := x.parent.left;
      if w.color == Red {
        RedFixRight(x.parent, w, ctx, t);
        ctx := RedTurn(ctx, t, ok);
        See(ctx, t);
        SeeFamily(ctx, t);
        w := x.parent.left;
      }
      x, ctx, t := TailRight(x, w, ctx, t, ok);
    }

    /** `rbtree_delete_fixup`: the tree comes out red-black exactly when `Repairs` says so. */
    method DeleteFixup(x0: Node, ghost ctx0: Around, ghost t0: Shape) returns (ghost r: Shape)
      requires Focus(ctx0, t0) && Deficient(ctx0, t0) && nil.color == Black
      requires x0 == RootOf(t0, nil) && x0.parent == HolderOf(ctx0, nil)
      modifies this`root, nil`color, Nodes(Plug(ctx0, t0))
      ensures Focus(Top, r) && Same(r, Plug(ctx0, t0))
      ensures RedBlack(r) && ColorOf(r) == Black && nil.color == Black <==> Repairs(ctx0, ColorOf(t0))
    {
      ghost var ok := Repairs(ctx0, ColorOf(t0));
      ghost var ctx, t, lost := ctx0, t0, false;
      var x := x0;
      assert Tracks(ctx, t, lost, ok);
      hide Focus, Nodes, ContextNodes, Plug, Linked, ContextLinked, Entries, EraseRank, Depth, Tracks, Misled, Repairs,
           RedBlack, Deficient;
      RootTest(ctx, t);
      See(ctx, t);
      while x != root && x.color == Black
        invariant Focus(ctx, t) && Tracks(ctx, t, lost, ok) && Same(Plug(ctx, t), Plug(ctx0, t0))
        invariant x == RootOf(t, nil) && (x == root <==> ctx.Top?) && (t.Branch? ==> x.color == ColorOf(t))
        invariant if lost then t.Branch? else nil.color == Black && x.parent == HolderOf(ctx, nil)
        invariant x == nil <==> t.Nil?
        decreases EraseRank(ctx, t)
      {
        ShortFacts(ctx, t, lost, ok);
        See(ctx, t);
        SeeFamily(ctx, t);
        if x == x.parent.left {
          x, ctx, t, lost := IterateLeft(x, ctx, t, ok);
        } else {
          x, ctx, t := IterateRight(x, ctx, t, ok);
        }
        See(ctx, t);
        RootTest(ctx, t);
      }
      EraseEnd(ctx, t, lost, ok);
      See(ctx, t);
      Blacken(x, ctx, t);
      t := Paint(t, Black);
      FocusPlug(ctx, t);
      r := Plug(ctx, t);
    }

    lemma MisledTurn(ctx: Around, t: Shape)
      requires Misled(ctx, t) && Focus(ctx.up, RedSibling(ctx, t))
      ensures t.Branch? ==> t.node.parent == ctx.node
    {
      var r := RedSibling(ctx, t);
      MisledRoot(ctx, t);
      Descend(L, ctx.up, r);
      Descend(L, Down(L, ctx.up, r), r.left);
      See(Down(L, Down(L, ctx.up, r), r.left), t);
    }

    /** The focus on `x` after the rotation of the right-hand red-sibling case. */
    lemma RedTurn(ctx: Around, t: Shape, ok: bool) returns (c: Around)
      requires Tracks(ctx, t, false, ok) && Short(ctx, t) && ctx.sibling.Branch? && ctx.sibling.color == Red
      requires ctx.side == R && Focus(ctx.up, RedSibling(ctx, t))
      ensures c == RedSiblingContext(ctx) && Focus(c, t)
      ensures Tracks(c, t, false, ok) && Short(c, t) && c.color == Red && c.side == R
      ensures c.sibling.Branch? && c.sibling.color == Black && c.node == ctx.node
      ensures Same(Plug(c, t), Plug(ctx, t))
    {
      c := RedTrack(ctx, t, ok);
      Ascend(c.up, Fill(c, t));
      Ascend(c, t);
    }

    /** The left-hand red-sibling case from line 221 on. */
    method MisledTail(x0: Node, w0: Node, ghost ctx0: Around, ghost t0: Shape, ghost ok: bool)
      returns (x: Node, ghost ctx: Around, ghost t: Shape, ghost lost: bool)
      requires Tracks(ctx0, t0, false, ok) && Misled(ctx0, t0) && Focus(ctx0.up, RedSibling(ctx0, t0))
      requires x0 == RootOf(t0, nil) && x0.parent == ctx0.node && w0 == ctx0.sibling.node && nil.color == Black
      modifies this`root, nil`color, Nodes(Plug(ctx0, t0))
      ensures Focus(ctx, t) && Tracks(ctx, t, lost, ok) && t.Branch? && x == t.node && (!lost ==> nil.color == Black)
      ensures Same(Plug(ctx, t), Plug(ctx0, t0)) && EraseRank(ctx, t) == 0
    {
      hide Focus, Nodes, ContextNodes, Plug, Linked, ContextLinked, Entries, EraseRank, Depth, Tracks;
      x := x0;
      ghost var r, up := RedSibling(ctx0, t0), ctx0.up;
      MisledRoot(ctx0, t0);
      Lopsided(ctx0, t0, Top);
      SeeReread(ctx0, t0);
      var w := w0.parent.right;
      if w.left.color == Black && w.right.color == Black {
        x, ctx, t := MisledNephews(x, w, ctx0, t0, ok);
        lost := true;
      } else if w.right.color == Black {
        x, t, lost := MisledNear(x, w, ctx0, t0, ok);
        ctx := Top;
        PlugTop(t);
      } else {
        x, t := MisledFar(x, w, ctx0, t0, ok);
        lost := true;
        ctx := Top;
        PlugTop(t);
      }
    }

    lemma SeeReread(ctx: Around, t: Shape)
      requires Misled(ctx, t) && Focus(ctx.up, RedSibling(ctx, t)) && nil.color == Black
      ensures ctx.sibling.node.parent.right == RootOf(Reread(ctx, t), nil)
      ensures var w := RootOf(Reread(ctx, t), nil);
              var s := Reread(ctx, t);
              if s.Nil? then w.left == nil == w.right
              else w.left.color == ColorOf(s.left) && w.right.color == ColorOf(s.right)
      ensures ctx.up.Hole? ==> Reread(ctx, t).Branch?
    {
      var r, up := RedSibling(ctx, t), ctx.up;
      MisledRoot(ctx, t);
      Lopsided(ctx, t, Top);
      See(up, r);
      Descend(L, up, r);
      Descend(R, up, r);
      See(Down(L, up, r), r.left);
      See(Down(R, up, r), r.right);
      if up.Hole? {
        SeeFamily(up, r);
      }
    }

    // ------------------------------------------------------- unlinking a node

    /** `rbtree_transplant`: `v` takes the place of `u` in the context of `u`. */
    method Transplant(u: Node, v: Node, ghost ctx: Around)
      requires OneHole(ctx, u) && u.parent == HolderOf(ctx, nil)
      requires nil !in ContextNodes(ctx) && v !in ContextNodes(ctx)
      requires ctx.Hole? ==> ctx.node in ContextNodes(ctx) && Kid(ctx.node, Other(ctx.side)) != u
      modifies this`root, v`parent, ContextNodes(ctx)`left, ContextNodes(ctx)`right
      ensures OneHole(ctx, v) && v.parent == HolderOf(ctx, nil)
    {
      if u.parent == nil {
        root := v;
      } else if u == u.parent.left {
        u.parent.left := v;
      } else {
        u.parent.right := v;
      }
      v.parent := u.parent;
    }

    lemma CloseAny(ctx: Around, t: Shape)
      requires OneHole(ctx, RootOf(t, nil))
      requires t.Branch? ==> OneNode(t) && t.node.parent == HolderOf(ctx, nil)
      requires nil.left == nil == nil.right
      requires nil !in ContextNodes(ctx) && nil !in Nodes(t) && Apart(ctx, t)
      ensures Focus(ctx, t)
    {
    }

    method TreeMinimum(x0: Node, ghost base: Around, ghost t: Shape) returns (x: Node)
      requires Focus(base, t) && t.Branch? && x0 == t.node
      ensures Focus(LeftPath(base, t), LeftEnd(t)) && x == LeftEnd(t).node
    {
      x := x0;
      ghost var c, u := base, t;
      hide Focus, Nodes, ContextNodes, Plug, Linked, ContextLinked;
      See(c, u);
      Descend(L, c, u);
      See(Down(L, c, u), u.left);
      while x.left != nil
        invariant Focus(c, u) && u.Branch? && x == u.node
        invariant LeftPath(c, u) == LeftPath(base, t) && LeftEnd(u) == LeftEnd(t)
        invariant x.left == nil <==> u.left.Nil?
        decreases u
      {
        Descend(L, c, u);
        x := x.left;
        c, u := Down(L, c, u), u.left;
        See(c, u);
        Descend(L, c, u);
        See(Down(L, c, u), u.left);
      }
    }

    /** The links `Supplant` leaves alone. */
    ghost predicate Kept(l: Shape, y: Node, r: Shape)
      requires l.Branch?
      reads KeptNodes(l, r)
    {
      Linked(r, nil, y) && Linked(l.left, nil, l.node) && Linked(l.right, nil, l.node)
    }

    ghost function KeptNodes(l: Shape, r: Shape): set<Node>
      requires l.Branch?
    {
      Nodes(r) + Nodes(l.left) + Nodes(l.right)
    }

    /** `y`, unlinked and already above `r`, takes the place of `z`. */
    method Supplant(z: Node, y: Node, ghost ctx: Around, ghost s: Shape, ghost r: Shape)
      requires s.Branch? && s.node == z && s.left.Branch?
      requires OneHole(ctx, z) && z.parent == HolderOf(ctx, nil)
      requires z.left == s.left.node && z.color == s.color
      requires Linked(s.left, nil, z) && Linked(r, nil, y) && y.right == RootOf(r, nil)
      requires nil.left == nil == nil.right
      requires Apart(ctx, Branch(s.left, y, s.color, y.key, r))
      requires nil !in ContextNodes(ctx) && nil !in Nodes(s.left) && nil !in Nodes(r) && y != nil
      requires z != y && z !in ContextNodes(ctx) && z !in Nodes(s.left) && z !in Nodes(r)
      requires ctx.Hole? ==> Kid(ctx.node, Other(ctx.side)) != z
      modifies this`root, y`parent, y`left, y`color, ContextNodes(ctx), Nodes(s.left)`parent
      ensures Focus(ctx, Branch(s.left, y, s.color, y.key, r))
    {
      ghost var l := s.left;
      SupplantSets(ctx, l, y, s.color, r);
      OpenTree(l, z);
      assert Kept(l, y, r);
      hide *;
      Transplant(z, y, ctx);
      TakeOver(z, y, ctx, s, r);
    }

    /** `y->left = z->left; y->left->parent = y; y->color = z->color`. */
    method TakeOver(z: Node, y: Node, ghost ctx: Around, ghost s: Shape, ghost r: Shape)
      requires s.Branch? && s.node == z && s.left.Branch?
      requires OneHole(ctx, y) && y.parent == HolderOf(ctx, nil)
      requires z.left == s.left.node && z.color == s.color && Kept(s.left, y, r) && y.right == RootOf(r, nil)
      requires s.left.node.color == s.left.color && s.left.node.key == s.left.key
      requires s.left.node.left == RootOf(s.left.left, nil) && s.left.node.right == RootOf(s.left.right, nil)
      requires nil.left == nil == nil.right
      requires Apart(ctx, Branch(s.left, y, s.color, y.key, r))
      requires nil !in ContextNodes(ctx) && nil !in Nodes(s.left) && nil !in Nodes(r) && y != nil && z != y
      requires s.left.node != z
      modifies y`left, y`color, s.left.node`parent
      ensures Focus(ctx, Branch(s.left, y, s.color, y.key, r))
    {
      ghost var l := s.left;
      hide *;
      SupplantSets(ctx, l, y, s.color, r);
      y.left := z.left;
      y.left.parent := y;
      y.color := z.color;
      assert Kept(l, y, r);
      assert OneHole(ctx, y);
      CloseSupplant(ctx, l, y, s.color, r);
    }

    lemma CloseSupplant(ctx: Around, l: Shape, y: Node, c: Color, r: Shape)
      requires l.Branch? && Kept(l, y, r) && Apart(ctx, Branch(l, y, c, y.key, r))
      requires y.color == c && y.left == l.node && y.right == RootOf(r, nil) && y.parent == HolderOf(ctx, nil)
      requires l.node.parent == y && l.node.color == l.color && l.node.key == l.key
      requires l.node.left == RootOf(l.left, nil) && l.node.right == RootOf(l.right, nil)
      requires OneHole(ctx, y) && nil.left == nil == nil.right
      requires nil !in ContextNodes(ctx) && nil !in Nodes(l) && nil !in Nodes(r) && y != nil
      ensures Focus(ctx, Branch(l, y, c, y.key, r))
    {
    }

    lemma SupplantSets(ctx: Around, l: Shape, y: Node, c: Color, r: Shape)
      requires l.Branch? && Apart(ctx, Branch(l, y, c, y.key, r))
      ensures y !in ContextNodes(ctx) && y !in Nodes(l.left) && y !in Nodes(l.right) && y !in Nodes(r) && y != l.node
      ensures l.node !in Nodes(l.left) && l.node !in Nodes(l.right) && l.node !in Nodes(r)
      ensures l.node !in ContextNodes(ctx) && l.node in Nodes(l)
      ensures ctx.Hole? ==> ctx.node in ContextNodes(ctx)
      ensures ContextNodes(ctx) !! Nodes(l.left) && ContextNodes(ctx) !! Nodes(l.right) && ContextNodes(ctx) !! Nodes(r)
      ensures ContextNodes(ctx) !! KeptNodes(l, r) && y !in KeptNodes(l, r) && l.node !in KeptNodes(l, r)
      ensures Distinct(l) && forall n :: n in KeptNodes(l, r) ==> allocated(n)
    {
      var t := Branch(l, y, c, y.key, r);
      assert Nodes(t) == Nodes(l) + {y} + Nodes(r);
      assert Nodes(l) == Nodes(l.left) + {l.node} + Nodes(l.right);
      assert Distinct(l);
      assert l.node in Nodes(t);
      AllocatedNodes(l.left);
      AllocatedNodes(l.right);
      AllocatedNodes(r);
    }

    lemma LocateFocus(z: Node) returns (ctx: Around, s: Shape)
      requires Focus(Top, tree) && z in Nodes(tree)
      ensures Locate(Top, tree, z) == (ctx, s) && Focus(ctx, s) && s.Branch? && s.node == z && Plug(ctx, s) == tree
    {
      var at := Locate(Top, tree, z);
      ctx, s := at.0, at.1;
      FocusPlug(ctx, s);
    }

    /** Erasing a node with at most one child `v`. */
    method Splice(z: Node, v: Node, ghost ctx: Around, ghost s: Shape, ghost t: Shape)
      requires Focus(ctx, s) && s.Branch? && s.node == z && v == RootOf(t, nil)
      requires (s.left.Nil? && t == s.right) || (s.right.Nil? && t == s.left)
      modifies this`root, nil`parent, Nodes(Plug(ctx, s))`parent, Nodes(Plug(ctx, s))`left, Nodes(Plug(ctx, s))`right
      ensures Focus(ctx, t) && v.parent == HolderOf(ctx, nil)
    {
      Open(ctx, s);
      ApartFocus(ctx, s);
      NodesOfPlug(ctx, s);
      if t.Branch? {
        OpenTree(t, z);
      }
      AllocatedNodes(t);
      hide Focus, Linked, ContextLinked, ContextDistinct, TopOf, ContextNodes, OneHole;
      Transplant(z, v, ctx);
      CloseAny(ctx, t);
    }

    lemma {:induction false} FocusPath(base: Around, t: Shape)
      requires t.Branch?
      ensures Focus(LeftPath(base, t), LeftEnd(t).right) <==> Focus(base, DropMin(t))
      decreases t
    {
      if t.left.Branch? {
        FocusPath(Down(L, base, t), t.left);
        Ascend(Down(L, base, t), DropMin(t.left));
      }
    }

    /** Puts the right subtree `r` of `z`, which no longer holds `y`, below `y`. */
    method HangBelow(z: Node, y: Node, ghost ctx: Around, ghost s: Shape)
      requires Focus(ctx, s) && s.Branch? && s.node == z && s.left.Branch? && s.right.Branch?
      requires y !in ContextNodes(ctx) && y !in Nodes(s) && y != nil
      modifies y`right, s.right.node`parent
      ensures OneHole(ctx, z) && z.parent == HolderOf(ctx, nil) && z.left == s.left.node && z.color == s.color
      ensures Linked(s.left, nil, z) && Linked(s.right, nil, y) && y.right == s.right.node
      ensures nil.left == nil == nil.right
    {
      Open(ctx, s);
      OpenTree(s.right, z);
      HangSets(ctx, s);
      hide Focus, Linked, ContextLinked, Distinct, ContextDistinct, TopOf, ContextNodes, Nodes, OneHole, Apart;
      y.right := z.right;
      y.right.parent := y;
      CloseTree(s.right);
    }

    lemma HangSets(ctx: Around, s: Shape)
      requires Focus(ctx, s) && s.Branch? && s.right.Branch?
      ensures s.right.node !in ContextNodes(ctx) && s.right.node !in Nodes(s.left) && s.right.node != s.node
      ensures s.right.node !in Nodes(s.right.left) && s.right.node !in Nodes(s.right.right)
      ensures s.right.node != nil
      ensures Nodes(s.right.left) <= Nodes(s) && Nodes(s.right.right) <= Nodes(s) && Nodes(s.left) <= Nodes(s)
    {
      assert Distinct(s.right) && s.right.node in Nodes(s.right);
    }

    /** Unlinks the successor `y` of `z` and hangs what is left of the right subtree below `y`. */
    method Detach(z: Node, y: Node, x: Node, ghost ctx: Around, ghost s: Shape)
      requires Focus(ctx, s) && s.Branch? && s.node == z && s.left.Branch? && s.right.Branch?
      requires y == LeftEnd(s.right).node && x == RootOf(LeftEnd(s.right).right, nil)
      modifies this`root, nil`parent, Nodes(Plug(ctx, s))`parent, Nodes(Plug(ctx, s))`left, Nodes(Plug(ctx, s))`right
      ensures OneHole(ctx, z) && z.parent == HolderOf(ctx, nil) && z.left == s.left.node && z.color == s.color
      ensures Linked(s.left, nil, z) && Linked(DropMin(s.right), nil, y) && y.right == RootOf(DropMin(s.right), nil)
      ensures nil.left == nil == nil.right
      ensures x.parent == HolderOf(LeftPath(Down(R, ctx, Replaced(s)), s.right), nil)
    {
      ghost var base, ye := Down(R, ctx, s), LeftEnd(s.right);
      ghost var cy := LeftPath(base, s.right);
      See(ctx, s);
      Descend(R, ctx, s);
      PlugDown(R, ctx, s);
      PlugPath(base, s.right);
      SameColorsRefl(ctx);
      SameColorsPath(base, Down(R, ctx, Replaced(s)), s.right);
      SuccessorSets(ctx, s);
      FocusLeftEnd(base, s.right);
      hide Focus, Linked, ContextLinked, ContextDistinct, Distinct, TopOf, ContextNodes, OneHole, Nodes, Plug, Apart,
           LeftPath, LeftEnd, DropMin;
      See(base, s.right);
      See(cy, ye);
      if y != z.right {
        DetachDeep(z, y, x, ctx, s);
      } else {
        NextToZ(z, y, x, ctx, s);
      }
    }

    /** The case where the successor is further down. */
    method DetachDeep(z: Node, y: Node, x: Node, ghost ctx: Around, ghost s: Shape)
      requires Focus(ctx, s) && s.Branch? && s.node == z && s.left.Branch? && s.right.Branch? && s.right.left.Branch?
      requires y == LeftEnd(s.right).node && x == RootOf(LeftEnd(s.right).right, nil) == y.right
      modifies this`root, nil`parent, Nodes(Plug(ctx, s))`parent, Nodes(Plug(ctx, s))`left, Nodes(Plug(ctx, s))`right
      ensures OneHole(ctx, z) && z.parent == HolderOf(ctx, nil) && z.left == s.left.node && z.color == s.color
      ensures Linked(s.left, nil, z) && Linked(DropMin(s.right), nil, y) && y.right == RootOf(DropMin(s.right), nil)
      ensures nil.left == nil == nil.right
      ensures x.parent == HolderOf(LeftPath(Down(R, ctx, s), s.right), nil)
    {
      ghost var base, ye := Down(R, ctx, s), LeftEnd(s.right);
      ghost var cy, r := LeftPath(base, s.right), DropMin(s.right);
      Descend(R, ctx, s);
      PlugDown(R, ctx, s);
      PlugPath(base, s.right);
      SuccessorSets(ctx, s);
      FocusLeftEnd(base, s.right);
      InnerSets(ctx, s);
      NodesOfPlug(ctx, s);
      hide Focus, Linked, ContextLinked, ContextDistinct, Distinct, TopOf, ContextNodes, OneHole, Plug, Apart,
           LeftPath, LeftEnd, DropMin;
      Splice(y, y.right, cy, ye, ye.right);
      FocusPath(base, s.right);
      Ascend(base, r);
      HangBelow(z, y, ctx, s.(right := r));
    }

    lemma {:induction false} FocusLeftEnd(base: Around, t: Shape)
      requires t.Branch?
      ensures Focus(LeftPath(base, t), LeftEnd(t)) <==> Focus(base, t)
      decreases t
    {
      if t.left.Branch? {
        FocusLeftEnd(Down(L, base, t), t.left);
        Descend(L, base, t);
      }
    }

    /** `y = tree_minimum(t, z->right)`. */
    method Successor(z: Node, ghost ctx: Around, ghost s: Shape) returns (y: Node)
      requires Focus(ctx, s) && s.Branch? && s.node == z && s.right.Branch?
      ensures Focus(ctx, s) && y == LeftEnd(s.right).node
      ensures y.color == LeftEnd(s.right).color && y.key == LeftEnd(s.right).key
      ensures y.right == RootOf(LeftEnd(s.right).right, nil)
    {
      ghost var base := Down(R, ctx, s);
      See(ctx, s);
      Descend(R, ctx, s);
      See(base, s.right);
      hide Focus, Plug, Nodes, ContextNodes, LeftPath, LeftEnd;
      y := TreeMinimum(z.right, base, s.right);
      See(LeftPath(base, s.right), LeftEnd(s.right));
      FocusLeftEnd(base, s.right);
      Descend(R, ctx, s);
    }

    /** The two-children branch of `rbtree_erase`: the successor `y` takes the place of `z`;
        returns the color `y` had and the node `x` that moved up. */
    method EraseInner(z: Node, ghost ctx: Around, ghost s: Shape) returns (x: Node, yColor: Color)
      requires Focus(ctx, s) && s.Branch? && s.node == z && s.left.Branch? && s.right.Branch?
      modifies this`root, nil`parent, Nodes(Plug(ctx, s))
      ensures Focus(ctx, Replaced(s)) && yColor == LeftEnd(s.right).color
      ensures x == RootOf(LeftEnd(s.right).right, nil)
      ensures x.parent == HolderOf(LeftPath(Down(R, ctx, Replaced(s)), s.right), nil)
    {
      ApartFocus(ctx, s);
      ReplacedSets(ctx, s);
      InnerSets(ctx, s);
      hide Focus, Linked, ContextLinked, ContextDistinct, Distinct, TopOf, ContextNodes, OneHole, Nodes, Plug, Apart,
           LeftPath, LeftEnd, DropMin;
      var y := Successor(z, ctx, s);
      Open(ctx, s);
      yColor := y.color;
      x := y.right;
      Detach(z, y, x, ctx, s);
      Supplant(z, y, ctx, s, DropMin(s.right));
    }

    lemma InnerSets(ctx: Around, s: Shape)
      requires Focus(ctx, s) && s.Branch? && s.left.Branch? && s.right.Branch?
      ensures var x, y := RootOf(LeftEnd(s.right).right, nil), LeftEnd(s.right).node;
              && x != y && x !in ContextNodes(ctx) && x !in Nodes(s.left) && (s.right.left.Branch? ==> x != s.right.node)
              && y in Nodes(Plug(ctx, s)) && y != nil && y !in ContextNodes(ctx) && y !in Nodes(s.left)
      ensures ContextNodes(ctx) <= Nodes(Plug(ctx, s)) && Nodes(s.left) <= Nodes(Plug(ctx, s))
      ensures s.node !in ContextNodes(ctx) && s.node !in Nodes(s.left) && s.node !in Nodes(DropMin(s.right))
      ensures nil !in Nodes(DropMin(s.right))
      ensures forall n :: n in ContextNodes(ctx) || n in Nodes(s) ==> allocated(n)
    {
      NodesOfPlug(ctx, s);
      DropMinSame(s.right);
      LeftEndDistinct(s.right);
      if s.right.left.Branch? {
        LeftEndDistinct(s.right.left);
      }
      AllocatedContext(ctx);
      AllocatedNodes(s);
      assert LeftEnd(s.right).node in Nodes(LeftEnd(s.right));
    }

    lemma {:induction false} LeftEndDistinct(t: Shape)
      requires t.Branch? && Distinct(t)
      ensures Nodes(LeftEnd(t)) <= Nodes(t) && Distinct(LeftEnd(t))
    {
      if t.left.Branch? {
        LeftEndDistinct(t.left);
      }
    }

    lemma AllocatedContext(ctx: Around)
      ensures forall n :: n in ContextNodes(ctx) ==> allocated(n)
    {
      if ctx.Hole? {
        AllocatedContext(ctx.up);
        AllocatedNodes(ctx.sibling);
        assert allocated(ctx.node);
      }
    }

    /** The `else x->parent = y` branch: the successor is the right child itself. */
    method NextToZ(z: Node, y: Node, x: Node, ghost ctx: Around, ghost s: Shape)
      requires Focus(ctx, s) && s.Branch? && s.node == z && s.left.Branch? && s.right.Branch? && s.right.left.Nil?
      requires y == s.right.node && x == RootOf(s.right.right, nil)
      modifies x`parent
      ensures OneHole(ctx, z) && z.parent == HolderOf(ctx, nil) && z.left == s.left.node && z.color == s.color
      ensures Linked(s.left, nil, z) && Linked(s.right.right, nil, y) && y.right == RootOf(s.right.right, nil)
      ensures nil.left == nil == nil.right && x.parent == y
    {
      ghost var r := s.right.right;
      Open(ctx, s);
      OpenTree(s.right, z);
      if r.Branch? {
        OpenTree(r, y);
        NextSets(ctx, s);
      }
      hide Focus, Linked, ContextLinked, Distinct, ContextDistinct, TopOf, ContextNodes, Nodes, OneHole, Apart;
      x.parent := y;
      if r.Branch? {
        CloseTree(r);
      }
    }

    lemma NextSets(ctx: Around, s: Shape)
      requires Focus(ctx, s) && s.Branch? && s.right.Branch? && s.right.right.Branch?
      ensures var x := s.right.right.node;
              && x !in ContextNodes(ctx) && x !in Nodes(s.left) && x != s.node && x != s.right.node && x != nil
              && x !in Nodes(s.right.right.left) && x !in Nodes(s.right.right.right)
    {
      assert Distinct(s.right) && Distinct(s.right.right);
      assert s.right.right.node in Nodes(s.right.right) && Nodes(s.right.right) <= Nodes(s.right) <= Nodes(s);
    }

    lemma SuccessorSets(ctx: Around, s: Shape)
      requires Focus(ctx, s) && s.Branch? && s.left.Branch? && s.right.Branch?
      ensures s.right.left.Branch? ==>
                && DropMin(s.right).Branch? && DropMin(s.right).node == s.right.node
                && LeftEnd(s.right).node !in Nodes(s.(right := DropMin(s.right)))
      ensures s.right.left.Nil? ==>
                DropMin(s.right) == s.right.right && LeftEnd(s.right) == s.right
                && LeftPath(Down(R, ctx, s), s.right) == Down(R, ctx, s)
                && LeftPath(Down(R, ctx, Replaced(s)), s.right) == Down(R, ctx, Replaced(s))
      ensures LeftEnd(s.right).node !in ContextNodes(ctx) && LeftEnd(s.right).node != nil
    {
      DropMinSame(s.right);
    }

    /** What unlinking `z` out of `s` in `ctx0` leaves for the fixup at `t` in `ctx`. */
    ghost predicate Unlinked(whole: Shape, z: Node, i: nat, yColor: Color, ctx: Around, t: Shape) {
      && z in Nodes(whole)
      && RemovedAt(Entries(whole), i, z, Entries(Plug(ctx, t))) && Nodes(Plug(ctx, t)) == Nodes(whole) - {z}
      && (yColor == Black ==> Deficient(ctx, t))
      && (yColor == Red ==> RedBlack(Plug(ctx, t)) && ColorOf(Plug(ctx, t)) == Black)
      && (EraseRepairs(whole, z) <==> yColor == Red || Repairs(ctx, ColorOf(t)))
    }

    lemma UnlinkedOne(whole: Shape, ctx: Around, s: Shape, t: Shape)
      requires s.Branch? && s.node in Nodes(whole) && Locate(Top, whole, s.node) == (ctx, s) && Plug(ctx, s) == whole
      requires RedBlack(whole) && ColorOf(whole) == Black && Focus(ctx, s)
      requires t == if s.left.Nil? then s.right else s.left
      requires s.left.Nil? || s.right.Nil?
      ensures Unlinked(whole, s.node, |Before(ctx)| + |Entries(s.left)|, s.color, ctx, t)
    {
      hide Focus, Linked, ContextLinked, Distinct, ContextDistinct, Plug, Nodes, ContextNodes, Entries, Before, Locate,
           RedBlack, Deficient, Repairs, LeftPath, LeftEnd, DropMin, Replaced;
      UnlinkSets(ctx, s);
      UnlinkOne(ctx, s, t);
      RemovedInHole(ctx, s, t);
    }

    lemma UnlinkedTwo(whole: Shape, ctx: Around, s: Shape)
      requires s.Branch? && s.node in Nodes(whole) && Locate(Top, whole, s.node) == (ctx, s) && Plug(ctx, s) == whole
      requires RedBlack(whole) && ColorOf(whole) == Black && Focus(ctx, s)
      requires s.left.Branch? && s.right.Branch?
      ensures Unlinked(whole, s.node, |Before(ctx)| + |Entries(s.left)|, LeftEnd(s.right).color,
                       LeftPath(Down(R, ctx, Replaced(s)), s.right), LeftEnd(s.right).right)
    {
      hide Focus, Linked, ContextLinked, Distinct, ContextDistinct, Plug, Nodes, ContextNodes, Entries, Before, Locate,
           RedBlack, Deficient, Repairs, LeftPath, LeftEnd, DropMin, Replaced;
      UnlinkSets(ctx, s);
      UnlinkTwo(ctx, s);
      RemovedInHole(ctx, s, Replaced(s));
    }

    /** The three ways of unlinking `z`; the focus ends on the node that moved up. */
    method Unlink(z: Node) returns (x: Node, yColor: Color, ghost ctx: Around, ghost t: Shape, ghost i: nat)
      requires Valid() && z in Nodes(tree)
      modifies this`root, nil`parent, Nodes(tree)
      ensures Focus(ctx, t) && x == RootOf(t, nil) && x.parent == HolderOf(ctx, nil)
      ensures Unlinked(tree, z, i, yColor, ctx, t)
    {
      hide *;
      ghost var s: Shape;
      ctx, s, i := Prepare(z);
      yColor := z.color;
      if z.left == nil {
        x := z.right;
        t := s.right;
        Splice(z, z.right, ctx, s, t);
      } else if z.right == nil {
        x := z.left;
        t := s.left;
        Splice(z, z.left, ctx, s, t);
      } else {
        x, yColor := EraseInner(z, ctx, s);
        t := LeftEnd(s.right).right;
        ctx := InnerFocus(ctx, s);
      }
    }

    lemma Prepare(z: Node) returns (ctx: Around, s: Shape, i: nat)
      requires Valid() && z in Nodes(tree)
      ensures Focus(ctx, s) && s.Branch? && s.node == z && Plug(ctx, s) == tree && z.color == s.color
      ensures z.left == RootOf(s.left, nil) && z.right == RootOf(s.right, nil)
      ensures (z.left == nil <==> s.left.Nil?) && (z.right == nil <==> s.right.Nil?)
      ensures s.left.Nil? ==> Unlinked(tree, z, i, s.color, ctx, s.right)
      ensures s.left.Branch? && s.right.Nil? ==> Unlinked(tree, z, i, s.color, ctx, s.left)
      ensures s.left.Branch? && s.right.Branch? ==>
                Unlinked(tree, z, i, LeftEnd(s.right).color,
                         LeftPath(Down(R, ctx, Replaced(s)), s.right), LeftEnd(s.right).right)
    {
      ctx, s := LocateFocus(z);
      SeeKids(ctx, s);
      hide *;
      See(ctx, s);
      i := |Before(ctx)| + |Entries(s.left)|;
      assert RedBlack(tree) && ColorOf(tree) == Black;
      if s.left.Nil? {
        UnlinkedOne(tree, ctx, s, s.right);
      } else if s.right.Nil? {
        UnlinkedOne(tree, ctx, s, s.left);
      } else {
        UnlinkedTwo(tree, ctx, s);
      }
    }

    lemma InnerFocus(ctx: Around, s: Shape) returns (c: Around)
      requires s.Branch? && s.right.Branch? && Focus(ctx, Replaced(s))
      ensures c == LeftPath(Down(R, ctx, Replaced(s)), s.right) && Focus(c, LeftEnd(s.right).right)
    {
      c := LeftPath(Down(R, ctx, Replaced(s)), s.right);
      Descend(R, ctx, Replaced(s));
      FocusPath(Down(R, ctx, Replaced(s)), s.right);
    }

    lemma SeeKids(ctx: Around, s: Shape)
      requires Focus(ctx, s) && s.Branch?
      ensures s.node.left == nil <==> s.left.Nil?
      ensures s.node.right == nil <==> s.right.Nil?
    {
      Descend(L, ctx, s);
      Descend(R, ctx, s);
      See(ctx, s);
      See(Down(L, ctx, s), s.left);
      See(Down(R, ctx, s), s.right);
    }

    lemma UnlinkSets(ctx: Around, s: Shape)
      requires Focus(ctx, s) && s.Branch?
      ensures s.left.Nil? ==> Entries(s.right) == Entries(s.left) + Entries(s.right)
      ensures s.right.Nil? ==> Entries(s.left) == Entries(s.left) + Entries(s.right)
      ensures s.right.Branch? ==> Entries(Replaced(s)) == Entries(s.left) + Entries(s.right)
      ensures s.left.Nil? ==> Nodes(Plug(ctx, s.right)) == Nodes(Plug(ctx, s)) - {s.node}
      ensures s.right.Nil? ==> Nodes(Plug(ctx, s.left)) == Nodes(Plug(ctx, s)) - {s.node}
      ensures s.right.Branch? ==> Nodes(Plug(ctx, Replaced(s))) == Nodes(Plug(ctx, s)) - {s.node}
    {
      ApartFocus(ctx, s);
      NodesOfPlug(ctx, s);
      NodesOfPlug(ctx, s.left);
      NodesOfPlug(ctx, s.right);
      assert s.node in Nodes(s) && s.node !in ContextNodes(ctx);
      if s.right.Branch? {
        ReplacedSets(ctx, s);
        NodesOfPlug(ctx, Replaced(s));
      }
    }

    /** `rbtree_erase`: exactly node `z` leaves the order, and the result is a valid
        red-black tree exactly when `EraseRepairs` holds of the tree before. */
    method Erase(z: Node) returns (ghost i: nat)
      requires Valid() && z in Nodes(tree)
      modifies this`root, this`tree, nil`parent, nil`color, Nodes(tree)
      ensures Focus(Top, tree) && Sorted(Entries(tree))
      ensures RemovedAt(old(Entries(tree)), i, z, Entries(tree)) && Nodes(tree) == old(Nodes(tree)) - {z}
      ensures Valid() <==> old(EraseRepairs(tree, z))
    {
      hide Linked, ContextLinked, ContextDistinct, Distinct, TopOf, ContextNodes, Nodes, Plug, Apart, Focus,
           Repairs, RedBlack, Deficient, Entries, EraseRepairs, RemovedAt, Sorted;
      See(Top, tree);
      PlugTop(tree);
      ghost var ctx, t;
      var x, yColor;
      x, yColor, ctx, t, i := Unlink(z);
      ghost var r := Plug(ctx, t);
      RemovedSorted(Entries(tree), i, z, Entries(r));
      if yColor == Black {
        r := DeleteFixup(x, ctx, t);
      } else {
        FocusPlug(ctx, t);
      }
      tree := r;
    }

    // --------------------------------------------------------------- reading

    /** `rbtree_find`: a node with the key, or `nil` when there is none; it looks at no
        more nodes than the tree is high. */
    method Find(key: int) returns (node: Node, ghost steps: nat)
      requires Valid()
      ensures if node == nil then !HasKey(Entries(tree), key)
              else (node, key) in Entries(tree) && HasKey(Entries(tree), key)
      ensures steps <= Height(tree)
    {
      node, steps := root, 0;
      ghost var ctx: Around, t := Top, tree;
      MissesTop(key);
      PlugTop(tree);
      hide Focus, Nodes, ContextNodes, Plug, Entries, Sorted, Misses, HasKey;
      See(ctx, t);
      while node != nil
        invariant Focus(ctx, t) && node == RootOf(t, nil) && (node == nil <==> t.Nil?)
        invariant Plug(ctx, t) == tree && Misses(ctx, key) && steps + Height(t) <= Height(tree)
        decreases t
      {
        See(ctx, t);
        FocusEntry(ctx, t);
        if node.key == key {
          return;
        }
        steps := steps + 1;
        MissesDown(ctx, t, key);
        Descend(L, ctx, t);
        Descend(R, ctx, t);
        PlugDown(L, ctx, t);
        PlugDown(R, ctx, t);
        if node.key > key {
          node := node.left;
          ctx, t := Down(L, ctx, t), t.left;
        } else {
          node := node.right;
          ctx, t := Down(R, ctx, t), t.right;
        }
        See(ctx, t);
      }
      MissedAll(ctx, key);
    }

    lemma MissesTop(key: int)
      ensures Misses<Node>(Top, key)
    {
    }

    /** `rbtree_min`: the first node in order. */
    method Min() returns (node: Node)
      requires Valid()
      ensures if tree.Nil? then node == nil else (node, node.key) == Entries(tree)[0]
    {
      See(Top, tree);
      if root == nil {
        return nil;
      }
      node := root;
      ghost var ctx: Around, t := Top, tree;
      while node.left != nil
        invariant Focus(ctx, t) && t.Branch? && node == t.node && Plug(ctx, t) == tree && Before(ctx) == []
        decreases t
      {
        SeeKids(ctx, t);
        Descend(L, ctx, t);
        PlugDown(L, ctx, t);
        See(ctx, t);
        node := node.left;
        ctx, t := Down(L, ctx, t), t.left;
      }
      SeeKids(ctx, t);
      See(ctx, t);
      EntriesOfPlug(ctx, t);
    }

    /** `rbtree_max`: the last node in order. */
    method Max() returns (node: Node)
      requires Valid()
      ensures if tree.Nil? then node == nil else (node, node.key) == Entries(tree)[|Entries(tree)| - 1]
    {
      See(Top, tree);
      if root == nil {
        return nil;
      }
      node := root;
      ghost var ctx: Around, t := Top, tree;
      while node.right != nil
        invariant Focus(ctx, t) && t.Branch? && node == t.node && Plug(ctx, t) == tree && After(ctx) == []
        decreases t
      {
        SeeKids(ctx, t);
        Descend(R, ctx, t);
        PlugDown(R, ctx, t);
        See(ctx, t);
        node := node.right;
        ctx, t := Down(R, ctx, t), t.right;
      }
      SeeKids(ctx, t);
      See(ctx, t);
      EntriesOfPlug(ctx, t);
    }

    /** `inorder_traversal`: writes the keys below `node` from `index` on. */
    method InorderTraversal(node: Node, arr: array<int>, index: nat, ghost t: Shape, ghost p: Node) returns (next: nat)
      requires nil !in Nodes(t) && Linked(t, nil, p) && node == RootOf(t, nil)
      requires index + |Entries(t)| <= arr.Length
      modifies arr
      ensures next == index + |Entries(t)|
      ensures forall i :: 0 <= i < |Entries(t)| ==> arr[index + i] == Entries(t)[i].1
      ensures forall i :: 0 <= i < arr.Length && !(index <= i < next) ==> arr[i] == old(arr[i])
      decreases t
    {
      next := index;
      if node == nil {
        return;
      }
      AllocatedNodes(t);
      assert Linked(t.right, nil, node);
      next := InorderTraversal(node.left, arr, next, t.left, node);
      assert Linked(t.right, nil, node);
      arr[next] := node.key;
      next := next + 1;
      next := InorderTraversal(node.right, arr, next, t.right, node);
    }

    /** `rbtree_to_array`: all keys in order.  The size `n` the caller passes is not looked at. */
    method ToArray(arr: array<int>, n: nat) returns (count: nat)
      requires Valid() && |Entries(tree)| <= arr.Length
      modifies arr
      ensures count == |Entries(tree)|
      ensures forall i :: 0 <= i < count ==> arr[i] == Entries(tree)[i].1
      ensures forall i :: count <= i < arr.Length ==> arr[i] == old(arr[i])
    {
      See(Top, tree);
      PlugTop(tree);
      count := InorderTraversal(root, arr, 0, tree, nil);
    }
  }
}
