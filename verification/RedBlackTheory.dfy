/** Red-black trees as values: what the linked nodes of rbtree.c denote.

    `Tree` is the shape hanging from one pointer and `Context` is everything
    around that pointer, so that a pointer into the middle of a tree is a pair
    of the two.  The rotations and the fixup loops of `RedBlackTree` are
    described by what they do to such a pair. */
module RedBlackTheory {

  datatype Color = Red | Black

  datatype Tree<N> =
    | Nil
    | Branch(left: Tree<N>, node: N, color: Color, key: int, right: Tree<N>)

  datatype Side = L | R

  function Other(side: Side): Side {
    if side == L then R else L
  }

  /** A tree with one subtree cut out, on the given side of `node`. */
  datatype Context<N> =
    | Top
    | Hole(side: Side, up: Context<N>, node: N, color: Color, key: int, sibling: Tree<N>)

  function Join<N>(side: Side, t: Tree<N>, n: N, c: Color, k: int, sibling: Tree<N>): Tree<N> {
    if side == L then Branch(t, n, c, k, sibling) else Branch(sibling, n, c, k, t)
  }

  /** The tree one level up, with `t` in the hole. */
  function Fill<N>(ctx: Context<N>, t: Tree<N>): Tree<N>
    requires ctx.Hole?
  {
    Join(ctx.side, t, ctx.node, ctx.color, ctx.key, ctx.sibling)
  }

  function Plug<N>(ctx: Context<N>, t: Tree<N>): Tree<N>
    decreases ctx
  {
    if ctx.Top? then t else Plug(ctx.up, Fill(ctx, t))
  }

  function Depth<N>(ctx: Context<N>): nat {
    if ctx.Top? then 0 else Depth(ctx.up) + 1
  }

  function Child<N>(side: Side, t: Tree<N>): Tree<N>
    requires t.Branch?
  {
    if side == L then t.left else t.right
  }

  /** The inverse of `Fill`: the context of the child on `side` when `t` sits in `ctx`. */
  function Down<N>(side: Side, ctx: Context<N>, t: Tree<N>): Context<N>
    requires t.Branch?
  {
    Hole(side, ctx, t.node, t.color, t.key, Child(Other(side), t))
  }

  // ---------------------------------------------------------------- contents

  /** The nodes in order, each with its key. */
  function Entries<N>(t: Tree<N>): seq<(N, int)> {
    match t
    case Nil => []
    case Branch(l, n, _, k, r) => Entries(l) + [(n, k)] + Entries(r)
  }

  function Before<N>(ctx: Context<N>): seq<(N, int)> {
    if ctx.Top? then []
    else if ctx.side == L then Before(ctx.up)
    else Before(ctx.up) + Entries(ctx.sibling) + [(ctx.node, ctx.key)]
  }

  function After<N>(ctx: Context<N>): seq<(N, int)> {
    if ctx.Top? then []
    else if ctx.side == R then After(ctx.up)
    else [(ctx.node, ctx.key)] + Entries(ctx.sibling) + After(ctx.up)
  }

  /** A change below a pointer leaves what comes before and after it in order alone. */
  lemma {:induction false} EntriesOfPlug<N>(ctx: Context<N>, t: Tree<N>)
    ensures Entries(Plug(ctx, t)) == Before(ctx) + Entries(t) + After(ctx)
    decreases ctx
  {
    if ctx.Hole? {
      EntriesOfPlug(ctx.up, Fill(ctx, t));
    }
  }

  function Nodes<N>(t: Tree<N>): set<N> {
    match t
    case Nil => {}
    case Branch(l, n, _, _, r) => Nodes(l) + {n} + Nodes(r)
  }

  function ContextNodes<N>(ctx: Context<N>): set<N> {
    if ctx.Top? then {} else ContextNodes(ctx.up) + {ctx.node} + Nodes(ctx.sibling)
  }

  lemma {:induction false} NodesOfPlug<N>(ctx: Context<N>, t: Tree<N>)
    ensures Nodes(Plug(ctx, t)) == ContextNodes(ctx) + Nodes(t)
    decreases ctx
  {
    if ctx.Hole? {
      NodesOfPlug(ctx.up, Fill(ctx, t));
    }
  }

  /** No node occurs twice. */
  ghost predicate Distinct<N>(t: Tree<N>) {
    match t
    case Nil => true
    case Branch(l, n, _, _, r) =>
      && Distinct(l) && Distinct(r)
      && n !in Nodes(l) && n !in Nodes(r) && Nodes(l) !! Nodes(r)
  }

  ghost predicate ContextDistinct<N>(ctx: Context<N>) {
    ctx.Hole? ==>
      && ContextDistinct(ctx.up) && Distinct(ctx.sibling)
      && ctx.node !in Nodes(ctx.sibling) && ctx.node !in ContextNodes(ctx.up)
      && Nodes(ctx.sibling) !! ContextNodes(ctx.up)
  }

  ghost predicate Apart<N>(ctx: Context<N>, t: Tree<N>) {
    ContextDistinct(ctx) && Distinct(t) && ContextNodes(ctx) !! Nodes(t)
  }

  lemma {:induction false} DistinctPlug<N>(ctx: Context<N>, t: Tree<N>)
    ensures Distinct(Plug(ctx, t)) <==> Apart(ctx, t)
    decreases ctx
  {
    if ctx.Hole? {
      DistinctPlug(ctx.up, Fill(ctx, t));
    }
  }

  function Size<N>(t: Tree<N>): nat {
    match t
    case Nil => 0
    case Branch(l, _, _, _, r) => Size(l) + 1 + Size(r)
  }

  /** Keys in non-strict order: the tree is a multiset. */
  ghost predicate Sorted<N>(es: seq<(N, int)>) {
    forall i, j :: 0 <= i < j < |es| ==> es[i].1 <= es[j].1
  }

  /** The two trees hold the same nodes in the same order. */
  ghost predicate Same<N>(a: Tree<N>, b: Tree<N>) {
    Entries(a) == Entries(b) && Nodes(a) == Nodes(b)
  }

  lemma PaintSame<N>(t: Tree<N>, c: Color)
    ensures Same(Paint(t, c), t)
  {
  }

  lemma SameBranch<N>(a: Tree<N>, ctx: Context<N>, t: Tree<N>)
    requires Same(a, Plug(ctx, t)) && ctx.Hole?
    ensures a.Branch?
  {
    NodesOfPlug(ctx, t);
    assert ctx.node in Nodes(a);
  }

  lemma {:induction false} SamePlug<N>(ctx: Context<N>, a: Tree<N>, b: Tree<N>)
    requires Same(a, b)
    ensures Same(Plug(ctx, a), Plug(ctx, b))
  {
    EntriesOfPlug(ctx, a);
    EntriesOfPlug(ctx, b);
    NodesOfPlug(ctx, a);
    NodesOfPlug(ctx, b);
  }

  /** `key` belongs in the hole: nothing larger before it, nothing smaller or equal after it. */
  ghost predicate Fits<N>(ctx: Context<N>, key: int) {
    && (forall i :: 0 <= i < |Before(ctx)| ==> Before(ctx)[i].1 <= key)
    && (forall i :: 0 <= i < |After(ctx)| ==> key < After(ctx)[i].1)
    && (ctx.Hole? ==> (ctx.side == L <==> key < ctx.key))
  }

  lemma SortedParts<N>(b: seq<(N, int)>, l: seq<(N, int)>, e: (N, int), r: seq<(N, int)>, a: seq<(N, int)>)
    requires Sorted(b + (l + [e] + r) + a)
    ensures forall i :: 0 <= i < |l| ==> l[i].1 <= e.1
    ensures forall i :: 0 <= i < |r| ==> e.1 <= r[i].1
  {
    var es := b + (l + [e] + r) + a;
    var o := |b| + |l|;
    assert es[o] == e;
    forall i | 0 <= i < |l|
      ensures l[i].1 <= e.1
    {
      assert l[i] == es[|b| + i];
    }
    forall i | 0 <= i < |r|
      ensures e.1 <= r[i].1
    {
      assert r[i] == es[o + 1 + i];
    }
  }

  /** One step of the search keeps the place of `key`. */
  lemma FitsDown<N>(ctx: Context<N>, t: Tree<N>, key: int)
    requires Fits(ctx, key) && t.Branch? && Sorted(Entries(Plug(ctx, t)))
    ensures key < t.key ==> Fits(Down(L, ctx, t), key)
    ensures t.key <= key ==> Fits(Down(R, ctx, t), key)
  {
    EntriesOfPlug(ctx, t);
    SortedParts(Before(ctx), Entries(t.left), (t.node, t.key), Entries(t.right), After(ctx));
    assert After(Down(L, ctx, t)) == [(t.node, t.key)] + Entries(t.right) + After(ctx);
    assert Before(Down(R, ctx, t)) == Before(ctx) + Entries(t.left) + [(t.node, t.key)];
  }

  /** `key` is nowhere around the hole, and belongs in it. */
  ghost predicate Misses<N>(ctx: Context<N>, key: int) {
    && (forall i :: 0 <= i < |Before(ctx)| ==> Before(ctx)[i].1 < key)
    && (forall i :: 0 <= i < |After(ctx)| ==> key < After(ctx)[i].1)
  }

  lemma MissesDown<N>(ctx: Context<N>, t: Tree<N>, key: int)
    requires Misses(ctx, key) && t.Branch? && Sorted(Entries(Plug(ctx, t)))
    ensures key < t.key ==> Misses(Down(L, ctx, t), key)
    ensures t.key < key ==> Misses(Down(R, ctx, t), key)
  {
    EntriesOfPlug(ctx, t);
    SortedParts(Before(ctx), Entries(t.left), (t.node, t.key), Entries(t.right), After(ctx));
    assert After(Down(L, ctx, t)) == [(t.node, t.key)] + Entries(t.right) + After(ctx);
    assert Before(Down(R, ctx, t)) == Before(ctx) + Entries(t.left) + [(t.node, t.key)];
  }

  ghost predicate HasKey<N>(es: seq<(N, int)>, key: int) {
    exists i :: 0 <= i < |es| && es[i].1 == key
  }

  lemma MissedAll<N>(ctx: Context<N>, key: int)
    requires Misses(ctx, key)
    ensures !HasKey(Entries(Plug(ctx, Nil)), key)
  {
    EntriesOfPlug(ctx, Nil);
    assert Entries(Plug(ctx, Nil)) == Before(ctx) + After(ctx);
  }

  lemma FocusEntry<N>(ctx: Context<N>, t: Tree<N>)
    requires t.Branch?
    ensures (t.node, t.key) in Entries(Plug(ctx, t)) && HasKey(Entries(Plug(ctx, t)), t.key)
  {
    EntriesOfPlug(ctx, t);
    var es, i := Entries(Plug(ctx, t)), |Before(ctx)| + |Entries(t.left)|;
    assert es == Before(ctx) + (Entries(t.left) + [(t.node, t.key)] + Entries(t.right)) + After(ctx);
    assert es[i] == (t.node, t.key);
  }

  /** `es` with `e` put in at `i`, behind every key that is not larger. */
  ghost predicate InsertedAt<N>(es: seq<(N, int)>, i: nat, e: (N, int), es': seq<(N, int)>) {
    && i <= |es| && es' == es[..i] + [e] + es[i..]
    && (forall j :: 0 <= j < i ==> es[j].1 <= e.1)
    && (forall j :: i <= j < |es| ==> e.1 < es[j].1)
  }

  lemma InsertedSorted<N>(es: seq<(N, int)>, i: nat, e: (N, int), es': seq<(N, int)>)
    requires Sorted(es) && InsertedAt(es, i, e, es')
    ensures Sorted(es')
  {
  }

  lemma InsertedInHole<N>(ctx: Context<N>, t: Tree<N>, n: N, key: int)
    requires Fits(ctx, key) && Entries(t) == [(n, key)]
    ensures InsertedAt(Entries(Plug(ctx, Nil)), |Before(ctx)|, (n, key), Entries(Plug(ctx, t)))
  {
    EntriesOfPlug(ctx, Nil);
    EntriesOfPlug(ctx, t);
    assert Entries(Plug(ctx, Nil)) == Before(ctx) + After(ctx);
  }

  // ------------------------------------------------------ red-black invariants

  function ColorOf<N>(t: Tree<N>): Color {
    if t.Nil? then Black else t.color
  }

  function Weight(c: Color): nat {
    if c == Black then 1 else 0
  }

  function BlackHeight<N>(t: Tree<N>): nat {
    if t.Nil? then 0 else BlackHeight(t.left) + Weight(t.color)
  }

  /** No red node has a red child, and every path down sees as many black nodes. */
  predicate RedBlack<N>(t: Tree<N>) {
    t.Branch? ==>
      && RedBlack(t.left) && RedBlack(t.right)
      && BlackHeight(t.left) == BlackHeight(t.right)
      && (t.color == Red ==> ColorOf(t.left) == Black && ColorOf(t.right) == Black)
  }

  /** The context accepts a subtree of black height `h` whose root has color `c`. */
  predicate Accepts<N>(ctx: Context<N>, h: nat, c: Color) {
    ctx.Hole? ==>
      && RedBlack(ctx.sibling) && BlackHeight(ctx.sibling) == h
      && (ctx.color == Red ==> c == Black && ColorOf(ctx.sibling) == Black)
      && Accepts(ctx.up, h + Weight(ctx.color), ctx.color)
  }

  lemma {:induction false} RedBlackPlug<N>(ctx: Context<N>, t: Tree<N>)
    ensures RedBlack(Plug(ctx, t)) <==> RedBlack(t) && Accepts(ctx, BlackHeight(t), ColorOf(t))
    decreases ctx
  {
    if ctx.Hole? {
      RedBlackPlug(ctx.up, Fill(ctx, t));
    }
  }

  /** The outermost node of the context, if there is one, is black. */
  predicate TopBlack<N>(ctx: Context<N>) {
    ctx.Hole? ==> (ctx.up.Top? ==> ctx.color == Black) && TopBlack(ctx.up)
  }

  lemma {:induction false} TopBlackPlug<N>(ctx: Context<N>, t: Tree<N>)
    ensures ColorOf(Plug(ctx, t)) == Black <==> TopBlack(ctx) && (ctx.Top? ==> ColorOf(t) == Black)
    decreases ctx
  {
    if ctx.Hole? {
      TopBlackPlug(ctx.up, Fill(ctx, t));
    }
  }

  function Paint<N>(t: Tree<N>, c: Color): Tree<N> {
    if t.Nil? then t else t.(color := c)
  }

  // --------------------------------------------------------------- rotations

  /** The child opposite to `side` comes up; `t.node` goes down on `side`. */
  function Rotate<N>(side: Side, t: Tree<N>): (r: Tree<N>)
    requires t.Branch?
    ensures r.Branch?
  {
    var up := Child(Other(side), t);
    if up.Nil? then t
    else Join(side, Join(side, Child(side, t), t.node, t.color, t.key, Child(side, up)),
              up.node, up.color, up.key, Child(Other(side), up))
  }

  lemma RotateKeeps<N>(side: Side, t: Tree<N>)
    requires t.Branch?
    ensures Same(Rotate(side, t), t)
    ensures Distinct(t) ==> Distinct(Rotate(side, t))
  {
    var up := Child(Other(side), t);
    assert up.Branch? && Distinct(t) ==> Distinct(up);
  }

  // ------------------------------------------------------------------ height

  function Height<N>(t: Tree<N>): nat {
    match t
    case Nil => 0
    case Branch(l, _, _, _, r) => 1 + (if Height(l) < Height(r) then Height(r) else Height(l))
  }

  function Pow2(n: nat): nat {
    if n == 0 then 1 else 2 * Pow2(n - 1)
  }

  lemma {:induction false} Pow2Sum(a: nat, b: nat)
    ensures Pow2(a + b) == Pow2(a) * Pow2(b)
  {
    if a != 0 {
      Pow2Sum(a - 1, b);
    }
  }

  lemma {:induction false} Pow2Monotone(a: nat, b: nat)
    requires a <= b
    ensures Pow2(a) <= Pow2(b)
  {
    if a < b {
      Pow2Monotone(a, b - 1);
    }
  }

  lemma {:induction false} HeightBound<N>(t: Tree<N>)
    requires RedBlack(t)
    ensures Height(t) <= 2 * BlackHeight(t) + (1 - Weight(ColorOf(t)))
    ensures Pow2(BlackHeight(t)) <= Size(t) + 1
  {
    if t.Branch? {
      HeightBound(t.left);
      HeightBound(t.right);
    }
  }

  /** height <= 2 * log2(size + 1), with the logarithm written as a power. */
  lemma {:induction false} HeightIsLogarithmic<N>(t: Tree<N>)
    requires RedBlack(t) && ColorOf(t) == Black
    ensures Pow2(Height(t)) <= (Size(t) + 1) * (Size(t) + 1)
  {
    HeightBound(t);
    var b := BlackHeight(t);
    Pow2Monotone(Height(t), b + b);
    Pow2Sum(b, b);
    SquareMonotone(Pow2(b), Size(t) + 1);
  }

  lemma SquareMonotone(a: nat, b: nat)
    requires a <= b
    ensures a * a <= b * b
  {
    assert a * a <= a * b <= b * b;
  }

  // ----------------------------------------------------------- insert fixup

  /** The tree is red-black except that the red root of `t` may hang below a red node. */
  ghost predicate Inserting<N>(ctx: Context<N>, t: Tree<N>) {
    && t.Branch? && t.color == Red && RedBlack(t)
    && Accepts(ctx, BlackHeight(t), Black) && TopBlack(ctx)
  }

  /** There is a red parent, hence a grandparent. */
  ghost predicate RedRed<N>(ctx: Context<N>, t: Tree<N>) {
    Inserting(ctx, t) && ctx.Hole? && ctx.color == Red
  }

  /** The grandparent's tree after case 1: parent and uncle black, grandparent red. */
  function Recolored<N>(ctx: Context<N>, t: Tree<N>): Tree<N>
    requires ctx.Hole? && ctx.up.Hole?
  {
    Join(ctx.up.side, Paint(Fill(ctx, t), Black), ctx.up.node, Red, ctx.up.key, Paint(ctx.up.sibling, Black))
  }

  lemma JoinRedBlack<N>(side: Side, t: Tree<N>, n: N, c: Color, k: int, s: Tree<N>)
    ensures RedBlack(Join(side, t, n, c, k, s)) <==>
              && RedBlack(t) && RedBlack(s) && BlackHeight(t) == BlackHeight(s)
              && (c == Red ==> ColorOf(t) == Black && ColorOf(s) == Black)
    ensures BlackHeight(t) == BlackHeight(s) ==> BlackHeight(Join(side, t, n, c, k, s)) == BlackHeight(t) + Weight(c)
  {
  }

  lemma PaintRedBlack<N>(t: Tree<N>)
    requires RedBlack(t)
    ensures RedBlack(Paint(t, Black))
    ensures BlackHeight(Paint(t, Black)) == BlackHeight(t) + Weight(Black) - Weight(ColorOf(t))
    ensures Same(Paint(t, Black), t)
  {
  }

  /** How far the loop can still climb; nothing below a black parent. */
  function Rank<N>(ctx: Context<N>): nat {
    if ctx.Hole? && ctx.color == Red then 1 + Depth(ctx) else 0
  }

  lemma RecolorStep<N>(ctx: Context<N>, t: Tree<N>)
    requires RedRed(ctx, t) && ColorOf(ctx.up.sibling) == Red
    ensures Inserting(ctx.up.up, Recolored(ctx, t))
    ensures Same(Plug(ctx.up.up, Recolored(ctx, t)), Plug(ctx, t)) && Rank(ctx.up.up) < Rank(ctx)
  {
    SamePlug(ctx.up.up, Recolored(ctx, t), Fill(ctx.up, Fill(ctx, t)));
    var up := ctx.up;
    assert Accepts(up, BlackHeight(t), Red) && TopBlack(up);
    assert Depth(ctx) == Depth(up) + 1;
    JoinRedBlack(ctx.side, t, ctx.node, Black, ctx.key, ctx.sibling);
    PaintRedBlack(up.sibling);
    JoinRedBlack(up.side, Paint(Fill(ctx, t), Black), up.node, Red, up.key, Paint(up.sibling, Black));
  }

  lemma PlugDown<N>(side: Side, ctx: Context<N>, t: Tree<N>)
    requires t.Branch?
    ensures Plug(Down(side, ctx, t), Child(side, t)) == Plug(ctx, t)
  {
    assert Fill(Down(side, ctx, t), Child(side, t)) == t;
  }

  /** Case 2 rotates at the parent, which becomes the new focus. */
  lemma StraightenStep<N>(ctx: Context<N>, t: Tree<N>)
    requires RedRed(ctx, t) && ctx.side != ctx.up.side
    ensures var r := Rotate(ctx.up.side, Fill(ctx, t));
            && r.Branch? && Child(ctx.up.side, r).Branch?
            && Child(ctx.up.side, r).node == ctx.node
            && RedRed(Down(ctx.up.side, ctx.up, r), Child(ctx.up.side, r))
            && Same(Plug(Down(ctx.up.side, ctx.up, r), Child(ctx.up.side, r)), Plug(ctx, t))
  {
    var r := Rotate(ctx.up.side, Fill(ctx, t));
    PlugDown(ctx.up.side, ctx.up, r);
    RotateKeeps(ctx.up.side, Fill(ctx, t));
    SamePlug(ctx.up, r, Fill(ctx, t));
  }

  /** The grandparent's tree in case 3: parent black, grandparent red, then one rotation. */
  function Repainted<N>(ctx: Context<N>, t: Tree<N>): (r: Tree<N>)
    requires ctx.Hole? && ctx.up.Hole?
    ensures r.Branch?
  {
    Paint(Fill(ctx.up, Paint(Fill(ctx, t), Black)), Red)
  }

  lemma RepaintedNodes<N>(ctx: Context<N>, t: Tree<N>)
    requires ctx.Hole? && ctx.up.Hole?
    ensures ContextNodes(ctx.up.up) + Nodes(Repainted(ctx, t)) == Nodes(Plug(ctx, t))
    ensures ContextNodes(ctx.up) + Nodes(Fill(ctx, t)) == Nodes(Plug(ctx, t))
  {
    NodesOfPlug(ctx.up.up, Fill(ctx.up, Fill(ctx, t)));
    NodesOfPlug(ctx.up, Fill(ctx, t));
  }

  function Lifted<N>(ctx: Context<N>, t: Tree<N>): (r: Tree<N>)
    requires ctx.Hole? && ctx.up.Hole?
    ensures r.Branch?
  {
    Rotate(Other(ctx.up.side), Repainted(ctx, t))
  }

  lemma LiftStep<N>(ctx: Context<N>, t: Tree<N>)
    requires RedRed(ctx, t) && ctx.side == ctx.up.side && ColorOf(ctx.up.sibling) == Black
    ensures var r := Lifted(ctx, t);
            && r.Branch? && r.color == Black && Child(ctx.side, r) == t
            && Inserting(Down(ctx.side, ctx.up.up, r), t)
            && Same(Plug(Down(ctx.side, ctx.up.up, r), t), Plug(ctx, t))
  {
    SamePlug(ctx.up.up, Lifted(ctx, t), Fill(ctx.up, Fill(ctx, t)));
    PlugDown(ctx.side, ctx.up.up, Lifted(ctx, t));
    var up := ctx.up;
    assert Accepts(up, BlackHeight(t), Red) && TopBlack(up);
    assert Lifted(ctx, t) ==
           Join(ctx.side, t, ctx.node, Black, ctx.key,
                Join(ctx.side, ctx.sibling, up.node, Red, up.key, up.sibling));
    JoinRedBlack(ctx.side, ctx.sibling, up.node, Red, up.key, up.sibling);
  }

  lemma InsertStart<N>(ctx: Context<N>, n: N, key: int)
    requires RedBlack(Plug(ctx, Nil)) && ColorOf(Plug(ctx, Nil)) == Black
    ensures Inserting(ctx, Branch(Nil, n, Red, key, Nil))
  {
    RedBlackPlug(ctx, Nil);
    TopBlackPlug(ctx, Nil);
  }

  /** With no red parent, painting the root black finishes. */
  lemma InsertDone<N>(ctx: Context<N>, t: Tree<N>)
    requires Inserting(ctx, t) && !RedRed(ctx, t)
    ensures RedBlack(Paint(Plug(ctx, t), Black)) && ColorOf(Paint(Plug(ctx, t), Black)) == Black
  {
    RedBlackPlug(ctx, t);
    if ctx.Top? {
    } else {
      TopBlackPlug(ctx, t);
      assert Paint(Plug(ctx, t), Black) == Plug(ctx, t);
    }
  }
}
