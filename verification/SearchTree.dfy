/** Data-Structures/tests/binary_search_tree.c: traversals of a binary tree by
    explicit stacks, and removal from a binary search tree. */
module SearchTree {

  class Node {
    var item: int
    var left: Node?
    var right: Node?

    constructor (item: int)
    {
      this.item, left, right := item, null, null;
    }
  }

  /** The nodes of a tree with their items. */
  datatype Tree = Leaf | Branch(left: Tree, node: Node, item: int, right: Tree)

  ghost function Nodes(t: Tree): set<Node> {
    if t.Leaf? then {} else Nodes(t.left) + {t.node} + Nodes(t.right)
  }

  /** No node occurs twice. */
  ghost predicate Apart(t: Tree) {
    t.Branch? ==>
      && Apart(t.left) && Apart(t.right) && Nodes(t.left) !! Nodes(t.right)
      && t.node !in Nodes(t.left) && t.node !in Nodes(t.right)
  }

  /** The tree in memory at `root`. */
  ghost predicate At(t: Tree, root: Node?)
    reads Nodes(t)
  {
    if t.Leaf? then root == null
    else root == t.node && t.node.item == t.item && At(t.left, t.node.left) && At(t.right, t.node.right)
  }

  ghost function Size(t: Tree): nat {
    if t.Leaf? then 0 else Size(t.left) + 1 + Size(t.right)
  }

  /** The recursive definitions. */
  ghost function InOrder(t: Tree): seq<Node> {
    if t.Leaf? then [] else InOrder(t.left) + [t.node] + InOrder(t.right)
  }

  ghost function PostOrder(t: Tree): seq<Node> {
    if t.Leaf? then [] else PostOrder(t.left) + PostOrder(t.right) + [t.node]
  }

  ghost predicate Distinct(s: seq<Node>) {
    forall i, j :: 0 <= i < j < |s| ==> s[i] != s[j]
  }

  lemma DistinctJoin(a: seq<Node>, b: seq<Node>, x: set<Node>, y: set<Node>)
    requires Distinct(a) && Distinct(b) && x !! y
    requires (forall n :: n in a <==> n in x) && (forall n :: n in b <==> n in y)
    ensures Distinct(a + b) && forall n :: n in a + b <==> n in x + y
  {
    forall i, j | 0 <= i < j < |a + b|
      ensures (a + b)[i] != (a + b)[j]
    {
      assert i < |a| ==> a[i] in a;
      assert j >= |a| ==> b[j - |a|] in b;
    }
  }

  lemma {:induction false} PostOrderNodes(t: Tree)
    requires Apart(t)
    ensures forall n :: n in PostOrder(t) <==> n in Nodes(t)
    ensures Distinct(PostOrder(t))
  {
    if t.Branch? {
      PostOrderNodes(t.left);
      PostOrderNodes(t.right);
      DistinctJoin(PostOrder(t.left), PostOrder(t.right), Nodes(t.left), Nodes(t.right));
      DistinctJoin(PostOrder(t.left) + PostOrder(t.right), [t.node], Nodes(t.left) + Nodes(t.right), {t.node});
    }
  }

  // ------------------------------------------------------------- in order

  /** What is still to be printed: `cur`'s tree, then each stacked node and its right subtree. */
  ghost function InRest(cur: Tree, stack: seq<Tree>): seq<Node> {
    InOrder(cur) + InStacked(stack)
  }

  ghost function InStacked(stack: seq<Tree>): seq<Node> {
    if stack == [] then []
    else if stack[0].Leaf? then InStacked(stack[1..])
    else [stack[0].node] + InOrder(stack[0].right) + InStacked(stack[1..])
  }

  /** The stack's nodes, top first, are the roots of trees in memory. */
  ghost predicate Stacked(ns: seq<Node>, stack: seq<Tree>, all: set<Node>)
    reads all
  {
    |ns| == |stack| && forall i :: 0 <= i < |ns| ==>
      stack[i].Branch? && stack[i].node == ns[i] && Nodes(stack[i]) <= all && At(stack[i], ns[i])
  }

  ghost function InWork(cur: Tree, stack: seq<Tree>): nat {
    2 * Size(cur) + StackWork(stack)
  }

  ghost function StackWork(stack: seq<Tree>): nat {
    if stack == [] then 0
    else (if stack[0].Leaf? then 0 else 1 + 2 * Size(stack[0].right)) + StackWork(stack[1..])
  }

  method InOrderIterative(root: Node?, ghost t: Tree) returns (printed: seq<Node>)
    requires At(t, root)
    ensures printed == InOrder(t)
  {
    hide InOrder, InRest, InWork, Stacked;
    printed := [];
    ghost var all := Nodes(t);
    var s: seq<Node> := [];
    ghost var stack: seq<Tree> := [];
    var cur := root;
    ghost var c := t;
    StartIn(t, all);
    if root == null {
      FinishIn(printed, c, s, stack, all);
      return;
    }
    while cur != null || s != []
      invariant Nodes(c) <= all && At(c, cur) && Stacked(s, stack, all)
      invariant printed + InRest(c, stack) == InOrder(t)
      decreases InWork(c, stack)
    {
      ghost var work := InWork(c, stack);
      while cur != null
        invariant Nodes(c) <= all && At(c, cur) && Stacked(s, stack, all)
        invariant printed + InRest(c, stack) == InOrder(t)
        invariant InWork(c, stack) <= work && (cur == null ==> s != [])
        decreases InWork(c, stack)
      {
        PushIn(printed, c, stack);
        PushChild(cur, c, s, stack, all);
        s := [cur] + s;
        stack := [c] + stack;
        cur := cur.left;
        c := c.left;
      }
      TakeTop(s, stack, all);
      var node := s[0];
      ghost var top := stack[0];
      PopIn(printed, stack);
      s := s[1..];
      stack := stack[1..];
      printed := printed + [node];
      cur := node.right;
      c := top.right;
    }
    FinishIn(printed, c, s, stack, all);
  }

  lemma StartIn(t: Tree, all: set<Node>)
    ensures [] + InRest(t, []) == InOrder(t) && Stacked([], [], all)
  {
  }

  lemma FinishIn(printed: seq<Node>, c: Tree, ns: seq<Node>, stack: seq<Tree>, all: set<Node>)
    requires c.Leaf? && ns == [] && Stacked(ns, stack, all)
    ensures printed + InRest(c, stack) == printed
  {
  }

  lemma PushIn(printed: seq<Node>, c: Tree, stack: seq<Tree>)
    requires c.Branch?
    ensures printed + InRest(c, stack) == printed + InRest(c.left, [c] + stack)
    ensures InWork(c.left, [c] + stack) < InWork(c, stack)
  {
    assert ([c] + stack)[1..] == stack;
    Regroup(InOrder(c.left), [c.node], InOrder(c.right), InStacked(stack));
  }

  lemma Regroup(a: seq<Node>, b: seq<Node>, c: seq<Node>, d: seq<Node>)
    ensures a + b + c + d == a + (b + c + d)
  {
  }

  lemma PopIn(printed: seq<Node>, stack: seq<Tree>)
    requires stack != [] && stack[0].Branch?
    ensures printed + InRest(Leaf, stack) == printed + [stack[0].node] + InRest(stack[0].right, stack[1..])
    ensures InWork(stack[0].right, stack[1..]) < InWork(Leaf, stack)
  {
    assert InRest(Leaf, stack) == [stack[0].node] + InOrder(stack[0].right) + InStacked(stack[1..]);
    Regroup(printed, [stack[0].node], InOrder(stack[0].right), InStacked(stack[1..]));
  }

  // ------------------------------------------ post order with one stack

  /** A stacked tree, and whether its right subtree has been entered. */
  datatype Frame = Frame(t: Tree, entered: bool)

  ghost function PostRest(cur: Tree, stack: seq<Frame>): seq<Node> {
    PostOrder(cur) + PostStacked(stack)
  }

  ghost function PostStacked(stack: seq<Frame>): seq<Node> {
    if stack == [] then []
    else if stack[0].t.Leaf? then PostStacked(stack[1..])
    else (if stack[0].entered then [] else PostOrder(stack[0].t.right)) + [stack[0].t.node] + PostStacked(stack[1..])
  }

  ghost function FrameWork(stack: seq<Frame>): nat {
    if stack == [] then 0
    else (if stack[0].t.Leaf? then 0 else if stack[0].entered then 1 else 2 + 3 * Size(stack[0].t.right)) + FrameWork(stack[1..])
  }

  ghost function PostWork(cur: Tree, stack: seq<Frame>): nat {
    3 * Size(cur) + FrameWork(stack)
  }

  ghost predicate Framed(ns: seq<Node>, stack: seq<Frame>, all: set<Node>)
    reads all
  {
    |ns| == |stack| && forall i :: 0 <= i < |ns| ==>
      stack[i].t.Branch? && stack[i].t.node == ns[i] && Nodes(stack[i].t) <= all && At(stack[i].t, ns[i])
  }

  /** The current pointer and the stack as they are in memory. */
  ghost predicate Placed(cur: Node?, c: Tree, ns: seq<Node>, stack: seq<Frame>, all: set<Node>)
    reads all
  {
    Nodes(c) <= all && At(c, cur) && Framed(ns, stack, all)
  }

  /** `lastVisited` is the last node printed. */
  ghost predicate LastIs(printed: seq<Node>, last: Node?) {
    last == if printed == [] then null else printed[|printed| - 1]
  }

  /** `x` is the subtree of the top frame that is being printed or has just been, and so on down the stack. */
  ghost predicate Chain(x: Tree, stack: seq<Frame>, t: Tree)
    decreases |stack|
  {
    if stack == [] then x == t
    else
      && stack[0].t.Branch? && x == (if stack[0].entered then stack[0].t.right else stack[0].t.left)
      && (stack[0].entered ==> x.Branch?) && Chain(stack[0].t, stack[1..], t)
  }

  /** `x` is about to be printed, or all of it has been. */
  ghost predicate Begun(c: Tree, x: Tree, printed: seq<Node>) {
    c == x || (c.Leaf? && x.Branch? && printed != [] && printed[|printed| - 1] == x.node)
  }

  /** What has been printed, then the rest of the work, is the whole post-order. */
  ghost predicate Printing(printed: seq<Node>, c: Tree, x: Tree, stack: seq<Frame>, t: Tree) {
    printed + PostRest(c, stack) == PostOrder(t) && Chain(x, stack, t) && Begun(c, x, printed)
  }

  method PostOrderIterativeS1(root: Node?, ghost t: Tree) returns (printed: seq<Node>)
    requires At(t, root) && Apart(t)
    ensures printed == PostOrder(t)
  {
    hide Printing, Placed, PostOrder, PostWork, At, Nodes;
    printed := [];
    ghost var all := Nodes(t);
    var s: seq<Node> := [];
    ghost var stack: seq<Frame> := [];
    var cur := root;
    ghost var c, x := t, t;
    var lastVisited: Node? := null;
    StartPost(t, root);
    if root == null {
      FinishPost(printed, c, x, s, stack, t, all);
      return;
    }
    while cur != null || s != []
      invariant Placed(cur, c, s, stack, all) && Printing(printed, c, x, stack, t) && LastIs(printed, lastVisited)
      decreases PostWork(c, stack)
    {
      ghost var work := PostWork(c, stack);
      while cur != null
        invariant Placed(cur, c, s, stack, all) && Printing(printed, c, x, stack, t)
        invariant PostWork(c, stack) <= work && (cur == null ==> s != [])
        decreases PostWork(c, stack)
      {
        PushPlaced(cur, c, s, stack, all);
        PushPost(printed, c, x, stack, t);
        s := [cur] + s;
        stack := [Frame(c, false)] + stack;
        cur := cur.left;
        c := c.left;
        x := c;
      }
      var p := s[0];
      TopPlaced(c, s, stack, all);
      ghost var top := stack[0].t;
      if p.right != null && lastVisited != p.right {
        EnterRight(printed, x, stack, lastVisited, t);
        cur := p.right;
        c := top.right;
        x := c;
        stack := [Frame(top, true)] + stack[1..];
      } else {
        VisitPost(printed, x, stack, lastVisited, t);
        s := s[1..];
        stack := stack[1..];
        printed := printed + [p];
        lastVisited := p;
        x := top;
      }
    }
    FinishPost(printed, c, x, s, stack, t, all);
  }

  lemma StartPost(t: Tree, root: Node?)
    requires At(t, root)
    ensures Placed(root, t, [], [], Nodes(t)) && Printing([], t, t, [], t)
  {
  }

  lemma FinishPost(printed: seq<Node>, c: Tree, x: Tree, ns: seq<Node>, stack: seq<Frame>, t: Tree, all: set<Node>)
    requires ns == [] && Placed(null, c, ns, stack, all) && Printing(printed, c, x, stack, t)
    ensures printed == PostOrder(t)
  {
  }

  lemma PushPlaced(cur: Node, c: Tree, ns: seq<Node>, stack: seq<Frame>, all: set<Node>)
    requires Placed(cur, c, ns, stack, all)
    ensures c.Branch? && Placed(cur.left, c.left, [cur] + ns, [Frame(c, false)] + stack, all)
  {
  }

  lemma PushPost(printed: seq<Node>, c: Tree, x: Tree, stack: seq<Frame>, t: Tree)
    requires c.Branch? && Printing(printed, c, x, stack, t)
    ensures Printing(printed, c.left, c.left, [Frame(c, false)] + stack, t)
    ensures PostWork(c.left, [Frame(c, false)] + stack) < PostWork(c, stack)
  {
    assert ([Frame(c, false)] + stack)[1..] == stack;
    Regroup(PostOrder(c.left), PostOrder(c.right), [c.node], PostStacked(stack));
  }

  lemma TopPlaced(c: Tree, ns: seq<Node>, stack: seq<Frame>, all: set<Node>)
    requires ns != [] && Placed(null, c, ns, stack, all)
    ensures c.Leaf? && stack != [] && stack[0].t.Branch? && stack[0].t.node == ns[0]
    ensures ns[0].right == if stack[0].t.right.Leaf? then null else stack[0].t.right.node
    ensures Placed(ns[0].right, stack[0].t.right, ns, [Frame(stack[0].t, true)] + stack[1..], all)
    ensures Placed(null, c, ns[1..], stack[1..], all)
  {
    var top := stack[0].t;
    assert At(top, ns[0]) && At(top.right, ns[0].right);
  }

  lemma TopFrame(stack: seq<Frame>)
    requires stack != [] && stack[0].t.Branch?
    ensures PostStacked(stack) == (if stack[0].entered then [] else PostOrder(stack[0].t.right)) + [stack[0].t.node] + PostStacked(stack[1..])
    ensures PostWork(Leaf, stack) == (if stack[0].entered then 1 else 2 + 3 * Size(stack[0].t.right)) + FrameWork(stack[1..])
    ensures PostRest(Leaf, stack) == PostStacked(stack) && PostRest(Leaf, stack[1..]) == PostStacked(stack[1..])
    ensures PostWork(Leaf, stack[1..]) == FrameWork(stack[1..])
    ensures stack[0].t.right.Leaf? ==> PostOrder(stack[0].t.right) == []
  {
  }

  lemma EnterRight(printed: seq<Node>, x: Tree, stack: seq<Frame>, last: Node?, t: Tree)
    requires stack != [] && stack[0].t.Branch? && Printing(printed, Leaf, x, stack, t) && LastIs(printed, last)
    requires stack[0].t.right.Branch? && last != stack[0].t.right.node
    ensures var s' := [Frame(stack[0].t, true)] + stack[1..];
            && Printing(printed, stack[0].t.right, stack[0].t.right, s', t)
            && PostWork(stack[0].t.right, s') < PostWork(Leaf, stack)
  {
    hide PostOrder, PostStacked, FrameWork, Size;
    var right := stack[0].t.right;
    var s' := [Frame(stack[0].t, true)] + stack[1..];
    TopFrame(stack);
    TopFrame(s');
    assert s'[1..] == stack[1..];
    assert PostRest(right, s') == PostRest(Leaf, stack) by {
      Regroup([], PostOrder(right), [stack[0].t.node], PostStacked(stack[1..]));
    }
  }

  /** A node is visited when its right subtree is empty or was the last to be finished. */
  lemma VisitPost(printed: seq<Node>, x: Tree, stack: seq<Frame>, last: Node?, t: Tree)
    requires stack != [] && stack[0].t.Branch? && Printing(printed, Leaf, x, stack, t) && LastIs(printed, last)
    requires stack[0].t.right.Leaf? || last == stack[0].t.right.node
    requires Apart(t)
    ensures Printing(printed + [stack[0].t.node], Leaf, stack[0].t, stack[1..], t)
    ensures PostWork(Leaf, stack[1..]) < PostWork(Leaf, stack)
  {
    hide PostOrder, PostStacked, FrameWork, Size, PostWork, Nodes, Apart, PostRest;
    var top := stack[0].t;
    TopFrame(stack);
    if top.right.Branch? && !stack[0].entered {
      assert printed + (PostOrder(top.right) + ([top.node] + PostStacked(stack[1..]))) == printed + PostRest(Leaf, stack);
      PrintedOnce(printed, PostOrder(top.right), [top.node] + PostStacked(stack[1..]), t, top.right);
      assert false;
    }
    assert printed + ([top.node] + PostStacked(stack[1..])) == printed + [top.node] + PostStacked(stack[1..]);
  }

  /** The last node printed is not the last of a subtree still to be printed. */
  lemma PrintedOnce(printed: seq<Node>, r: seq<Node>, rest: seq<Node>, t: Tree, sub: Tree)
    requires Apart(t) && sub.Branch? && r == PostOrder(sub) && printed != []
    requires printed[|printed| - 1] == sub.node
    ensures printed + (r + rest) != PostOrder(t)
  {
    hide Nodes, Apart;
    PostOrderNodes(t);
    assert r[|r| - 1] == sub.node;
    var order := printed + (r + rest);
    assert order[|printed| - 1] == order[|printed| + |r| - 1];
  }

  // ----------------------------------------- post order with two stacks

  ghost function Pending(stack: seq<Tree>): seq<Node> {
    if stack == [] then [] else Pending(stack[1..]) + PostOrder(stack[0])
  }

  ghost function PendingSize(stack: seq<Tree>): nat {
    if stack == [] then 0 else Size(stack[0]) + PendingSize(stack[1..])
  }

  ghost function Onto(t: Tree, stack: seq<Tree>): seq<Tree> {
    if t.Leaf? then stack else [t] + stack
  }

  lemma OntoPending(t: Tree, stack: seq<Tree>)
    ensures Pending(Onto(t, stack)) == Pending(stack) + PostOrder(t)
    ensures PendingSize(Onto(t, stack)) == Size(t) + PendingSize(stack)
  {
    assert ([t] + stack)[1..] == stack;
  }

  /** One round of the first loop: the popped node goes on the second stack, its children on the first. */
  lemma Unstack(t: Tree, stack: seq<Tree>, s2: seq<Node>)
    requires t.Branch?
    ensures Pending(Onto(t.right, Onto(t.left, stack))) + ([t.node] + s2) == Pending([t] + stack) + s2
    ensures PendingSize(Onto(t.right, Onto(t.left, stack))) < PendingSize([t] + stack)
  {
    hide Pending, PendingSize;
    OntoPending(t, stack);
    OntoPending(t.left, stack);
    OntoPending(t.right, Onto(t.left, stack));
    RegroupPost(Pending(stack), PostOrder(t.left), PostOrder(t.right), [t.node], s2);
  }

  lemma RegroupPost(p: seq<Node>, l: seq<Node>, r: seq<Node>, n: seq<Node>, s2: seq<Node>)
    ensures p + l + r + (n + s2) == p + (l + r + n) + s2
  {
  }

  /** What a loop learns of the node it takes. */
  lemma TakeTop(ns: seq<Node>, stack: seq<Tree>, all: set<Node>)
    requires (ns != [] || stack != []) && Stacked(ns, stack, all)
    ensures ns != [] && stack != [] && stack[0].Branch? && stack[0].node == ns[0] && Stacked(ns[1..], stack[1..], all)
    ensures Nodes(stack[0].left) <= all && At(stack[0].left, ns[0].left)
    ensures Nodes(stack[0].right) <= all && At(stack[0].right, ns[0].right)
  {
    assert At(stack[0], ns[0]);
  }

  lemma PushChild(n: Node?, t: Tree, ns: seq<Node>, stack: seq<Tree>, all: set<Node>)
    requires Nodes(t) <= all && At(t, n) && Stacked(ns, stack, all)
    ensures n == null <==> t.Leaf?
    ensures n != null ==> Stacked([n] + ns, [t] + stack, all) && Stacked(ns + [n], stack + [t], all)
  {
  }

  method PostOrderIterativeS2(root: Node?, ghost t: Tree) returns (printed: seq<Node>)
    requires At(t, root)
    ensures printed == PostOrder(t)
  {
    hide PostOrder, Pending, PendingSize, Stacked;
    printed := [];
    if root == null {
      NothingPending();
      return;
    }
    ghost var all := Nodes(t);
    var s1: seq<Node>, s2: seq<Node> := [root], [];
    ghost var stack := [t];
    StackedOne(root, t);
    OnePending(t);
    while s1 != []
      invariant Stacked(s1, stack, all)
      invariant Pending(stack) + s2 == PostOrder(t)
      decreases PendingSize(stack)
    {
      TakeTop(s1, stack, all);
      var node := s1[0];
      ghost var top := stack[0];
      assert stack == [top] + stack[1..];
      Unstack(top, stack[1..], s2);
      s1, stack := s1[1..], stack[1..];
      s2 := [node] + s2;
      PushChild(node.left, top.left, s1, stack, all);
      if node.left != null {
        s1, stack := [node.left] + s1, [top.left] + stack;
      }
      PushChild(node.right, top.right, s1, stack, all);
      if node.right != null {
        s1, stack := [node.right] + s1, [top.right] + stack;
      }
    }
    StackedBoth(s1, stack, all);
    NothingPending();
    while s2 != []
      invariant printed + s2 == PostOrder(t)
    {
      var node := s2[0];
      s2 := s2[1..];
      printed := printed + [node];
    }
  }

  lemma StackedBoth(ns: seq<Node>, stack: seq<Tree>, all: set<Node>)
    requires Stacked(ns, stack, all)
    ensures |ns| == |stack| && forall i :: 0 <= i < |ns| ==> stack[i].Branch? && stack[i].node == ns[i]
  {
  }

  lemma StackedOne(root: Node, t: Tree)
    requires At(t, root)
    ensures t.Branch? && Stacked([root], [t], Nodes(t))
  {
  }

  lemma NothingPending()
    ensures Pending([]) == [] && PostOrder(Leaf) == []
  {
  }

  lemma OnePending(t: Tree)
    ensures Pending([t]) == PostOrder(t)
  {
    assert [t][1..] == [];
    assert Pending([]) == [];
  }

  // ---------------------------------------------------------- level order

  ghost function Height(t: Tree): nat {
    if t.Leaf? then 0 else 1 + if Height(t.left) < Height(t.right) then Height(t.right) else Height(t.left)
  }

  /** The nodes at depth `k`, left to right. */
  ghost function Level(t: Tree, k: nat): seq<Node> {
    if t.Leaf? then [] else if k == 0 then [t.node] else Level(t.left, k - 1) + Level(t.right, k - 1)
  }

  /** The levels from depth `k` down, one after the other. */
  ghost function LevelsFrom(t: Tree, k: nat): seq<Node>
    decreases Height(t) - k
  {
    if k >= Height(t) then [] else Level(t, k) + LevelsFrom(t, k + 1)
  }

  lemma {:induction false} LevelIsEmpty(t: Tree, k: nat)
    ensures Level(t, k) == [] <==> k >= Height(t)
  {
    if t.Branch? && k > 0 {
      LevelIsEmpty(t.left, k - 1);
      LevelIsEmpty(t.right, k - 1);
    }
  }

  ghost function RowLevel(row: seq<Tree>, k: nat): seq<Node> {
    if row == [] then [] else Level(row[0], k) + RowLevel(row[1..], k)
  }

  ghost function Children(t: Tree): seq<Tree> {
    if t.Leaf? then [] else (if t.left.Leaf? then [] else [t.left]) + if t.right.Leaf? then [] else [t.right]
  }

  ghost function RowChildren(row: seq<Tree>): seq<Tree> {
    if row == [] then [] else Children(row[0]) + RowChildren(row[1..])
  }

  lemma {:induction false} RowLevelJoin(a: seq<Tree>, b: seq<Tree>, k: nat)
    ensures RowLevel(a + b, k) == RowLevel(a, k) + RowLevel(b, k)
  {
    if a == [] {
      assert a + b == b;
    } else {
      assert (a + b)[1..] == a[1..] + b;
      RowLevelJoin(a[1..], b, k);
    }
  }

  lemma ChildrenLevel(t: Tree, k: nat)
    ensures RowLevel(Children(t), k) == Level(t, k + 1)
  {
    if t.Branch? {
      var a, b := if t.left.Leaf? then [] else [t.left], if t.right.Leaf? then [] else [t.right];
      OneLevel(t.left, k);
      OneLevel(t.right, k);
      RowLevelJoin(a, b, k);
    }
  }

  lemma OneLevel(t: Tree, k: nat)
    ensures RowLevel(if t.Leaf? then [] else [t], k) == Level(t, k)
  {
    assert [t][1..] == [];
    assert RowLevel([], k) == [];
  }

  /** One level down, the queue holds the children. */
  lemma {:induction false} NextLevel(row: seq<Tree>, k: nat)
    ensures RowLevel(row, k + 1) == RowLevel(RowChildren(row), k)
  {
    if row != [] {
      NextLevel(row[1..], k);
      ChildrenLevel(row[0], k);
      RowLevelJoin(Children(row[0]), RowChildren(row[1..]), k);
    }
  }

  lemma {:induction false} RowRoots(row: seq<Tree>, ns: seq<Node>, all: set<Node>)
    requires Stacked(ns, row, all)
    ensures RowLevel(row, 0) == ns
  {
    if row != [] {
      RowRoots(row[1..], ns[1..], all);
    }
  }

  lemma {:induction false} RowChildrenGrow(row: seq<Tree>, i: nat)
    requires i < |row|
    ensures RowChildren(row[..i + 1]) == RowChildren(row[..i]) + Children(row[i])
  {
    if i == 0 {
      assert row[..1][1..] == [];
    } else {
      assert row[..i + 1][1..] == row[1..][..i] && row[..i][1..] == row[1..][..i - 1];
      RowChildrenGrow(row[1..], i - 1);
    }
  }

  /** The row is the level `k` of the tree and all below it. */
  ghost predicate RowAt(row: seq<Tree>, t: Tree, k: nat) {
    forall j: nat :: RowLevel(row, j) == Level(t, k + j)
  }

  /** A child joins the queue, if there is one. */
  method PushBack(n: Node?, ghost t: Tree, q0: seq<Node>, ghost row0: seq<Tree>, ghost all: set<Node>)
    returns (q: seq<Node>, ghost row: seq<Tree>)
    requires Nodes(t) <= all && At(t, n) && Stacked(q0, row0, all)
    ensures row == Grown(t, row0) && Stacked(q, row, all) && q == if n == null then q0 else q0 + [n]
  {
    PushChild(n, t, q0, row0, all);
    q := if n == null then q0 else q0 + [n];
    row := Grown(t, row0);
  }

  /** The inner loop: the nodes of one level leave the queue, their children join it. */
  method PrintRow(q0: seq<Node>, size: nat, before: seq<Node>, ghost whole: seq<Tree>, ghost all: set<Node>)
    returns (q: seq<Node>, printed: seq<Node>, ghost row: seq<Tree>)
    requires Stacked(q0, whole, all) && size == |q0|
    ensures printed == before + q0 && row == RowChildren(whole) && Stacked(q, row, all)
  {
    hide Stacked, RowChildren, Nodes, At, PartWay, Grown;
    StackedBoth(q0, whole, all);
    RowEnds(whole, whole);
    q, printed, row := q0, before, whole;
    for i := 0 to size
      invariant Stacked(q, row, all) && PartWay(row, whole, i)
      invariant printed == before + q0[..i]
    {
      RowStep(whole, i, row, q0, all);
      TakeTop(q, row, all);
      var node := q[0];
      ghost var top := row[0];
      q, row := q[1..], row[1..];
      printed := printed + [node];
      q, row := PushBack(node.left, top.left, q, row, all);
      q, row := PushBack(node.right, top.right, q, row, all);
    }
    RowEnds(whole, row);
    assert q0[..size] == q0;
  }

  method LevelOrderTraversal(root: Node?, ghost t: Tree) returns (printed: seq<Node>)
    requires At(t, root)
    ensures printed == LevelsFrom(t, 0)
  {
    hide Stacked, RowAt, RowChildren, LevelsFrom, Nodes;
    printed := [];
    if root == null {
      NoLevels(t);
      return;
    }
    ghost var all := Nodes(t);
    var q: seq<Node> := [root];
    ghost var row: seq<Tree> := [t];
    ghost var k: nat := 0;
    StackedOne(root, t);
    FirstRow(t);
    while q != []
      invariant Stacked(q, row, all) && RowAt(row, t, k)
      invariant printed + LevelsFrom(t, k) == LevelsFrom(t, 0)
      decreases Height(t) - k
    {
      RowDone(row, q, all, t, k);
      var size := |q|;
      ghost var ns := q;
      q, printed, row := PrintRow(q, size, printed, row, all);
      assert printed + LevelsFrom(t, k + 1) == printed[..|printed| - size] + (ns + LevelsFrom(t, k + 1));
      k := k + 1;
    }
    StackedBoth(q, row, all);
    RowEmpty(row, t, k);
  }

  /** The queue after `i` nodes of the level: the rest of it, then the children of those gone. */
  ghost predicate PartWay(row: seq<Tree>, whole: seq<Tree>, i: nat) {
    i <= |whole| && row == whole[i..] + RowChildren(whole[..i])
  }

  lemma RowEnds(whole: seq<Tree>, row: seq<Tree>)
    ensures PartWay(whole, whole, 0)
    ensures PartWay(row, whole, |whole|) ==> row == RowChildren(whole)
  {
    assert RowChildren([]) == [];
    assert whole[..|whole|] == whole && whole[|whole|..] == [];
  }

  ghost function Grown(t: Tree, row: seq<Tree>): seq<Tree> {
    if t.Leaf? then row else row + [t]
  }

  lemma RowStep(whole: seq<Tree>, i: nat, row: seq<Tree>, ns: seq<Node>, all: set<Node>)
    requires i < |whole| && PartWay(row, whole, i) && Stacked(ns, whole, all)
    ensures row != [] && row[0] == whole[i] && i < |ns| && whole[i].Branch? && ns[i] == whole[i].node
    ensures PartWay(Grown(row[0].right, Grown(row[0].left, row[1..])), whole, i + 1)
  {
    hide RowChildren;
    RowChildrenGrow(whole, i);
    assert row[1..] + Children(row[0]) == whole[i + 1..] + RowChildren(whole[..i + 1]);
  }

  lemma NoLevels(t: Tree)
    requires t.Leaf?
    ensures LevelsFrom(t, 0) == []
  {
  }

  lemma FirstRow(t: Tree)
    ensures RowAt([t], t, 0)
  {
    forall j: nat
      ensures RowLevel([t], j) == Level(t, 0 + j)
    {
      assert [t][1..] == [];
      assert RowLevel([], j) == [];
    }
  }

  lemma RowDone(row: seq<Tree>, ns: seq<Node>, all: set<Node>, t: Tree, k: nat)
    requires Stacked(ns, row, all) && ns != [] && RowAt(row, t, k)
    ensures k < Height(t) && LevelsFrom(t, k) == ns + LevelsFrom(t, k + 1) && RowAt(RowChildren(row), t, k + 1)
  {
    RowRoots(row, ns, all);
    assert RowLevel(row, 0) == Level(t, k + 0);
    LevelIsEmpty(t, k);
    forall j: nat
      ensures RowLevel(RowChildren(row), j) == Level(t, k + 1 + j)
    {
      NextLevel(row, j);
      assert RowLevel(row, j + 1) == Level(t, k + (j + 1));
    }
  }

  lemma RowEmpty(row: seq<Tree>, t: Tree, k: nat)
    requires row == [] && RowAt(row, t, k)
    ensures LevelsFrom(t, k) == []
  {
    assert RowLevel(row, 0) == Level(t, k + 0);
    LevelIsEmpty(t, k);
  }

  // -------------------------------------------------------------- removal

  ghost function Items(t: Tree): seq<int> {
    if t.Leaf? then [] else Items(t.left) + [t.item] + Items(t.right)
  }

  ghost function NodeItems(ns: seq<Node>): seq<int>
    reads set n | n in ns
  {
    if ns == [] then [] else [ns[0].item] + NodeItems(ns[1..])
  }

  lemma {:induction false} NodeItemsJoin(a: seq<Node>, b: seq<Node>)
    ensures NodeItems(a + b) == NodeItems(a) + NodeItems(b)
  {
    if a == [] {
      assert a + b == b;
    } else {
      assert (a + b)[1..] == a[1..] + b;
      NodeItemsJoin(a[1..], b);
    }
  }

  /** So the in-order traversal of a search tree prints its items in ascending order. */
  lemma {:induction false} PrintedAscending(t: Tree, root: Node?)
    requires At(t, root)
    ensures NodeItems(InOrder(t)) == Items(t)
  {
    if t.Branch? {
      PrintedAscending(t.left, t.node.left);
      PrintedAscending(t.right, t.node.right);
      NodeItemsJoin(InOrder(t.left) + [t.node], InOrder(t.right));
      NodeItemsJoin(InOrder(t.left), [t.node]);
    }
  }

  /** The search-tree order: the items in order never fall. */
  ghost predicate Ordered(s: seq<int>) {
    forall i, j :: 0 <= i < j < |s| ==> s[i] <= s[j]
  }

  /** The sequence without the first occurrence of `v`, if there is one. */
  ghost function Without(s: seq<int>, v: int): seq<int> {
    if s == [] then [] else if s[0] == v then s[1..] else [s[0]] + Without(s[1..], v)
  }

  /** What `Without` means: one occurrence fewer of `v`, all else and the order kept. */
  lemma {:induction false} WithoutMeans(s: seq<int>, v: int)
    ensures multiset(Without(s, v)) == multiset(s) - multiset{v}
    ensures forall x :: x in Without(s, v) ==> x in s
    ensures Ordered(s) ==> Ordered(Without(s, v))
  {
    if s != [] {
      hide Ordered;
      var w := Without(s[1..], v);
      WithoutMeans(s[1..], v);
      assert s == [s[0]] + s[1..];
      if Ordered(s) {
        OrderedTail(s);
        if s[0] != v {
          OrderedCons(s[0], s[1..], w);
        }
      }
    }
  }

  lemma OrderedTail(s: seq<int>)
    requires s != [] && Ordered(s)
    ensures Ordered(s[1..]) && forall x :: x in s[1..] ==> s[0] <= x
  {
  }

  lemma OrderedCons(x: int, s: seq<int>, w: seq<int>)
    requires Ordered(w) && (forall y :: y in s ==> x <= y) && forall y :: y in w ==> y in s
    ensures Ordered([x] + w)
  {
    forall i, j | 0 <= i < j < |[x] + w|
      ensures ([x] + w)[i] <= ([x] + w)[j]
    {
      assert w[j - 1] in w;
      assert i > 0 ==> w[i - 1] <= w[j - 1];
    }
  }

  lemma {:induction false} WithoutAbsent(s: seq<int>, v: int)
    requires v !in s
    ensures Without(s, v) == s
  {
    if s != [] {
      WithoutAbsent(s[1..], v);
    }
  }

  lemma {:induction false} WithoutRight(a: seq<int>, b: seq<int>, v: int)
    requires v !in a
    ensures Without(a + b, v) == a + Without(b, v)
  {
    if a == [] {
      assert a + b == b;
    } else {
      assert (a + b)[1..] == a[1..] + b;
      WithoutRight(a[1..], b, v);
    }
  }

  lemma {:induction false} WithoutLeft(a: seq<int>, b: seq<int>, v: int)
    requires v in a
    ensures Without(a + b, v) == Without(a, v) + b
  {
    assert (a + b)[1..] == a[1..] + b;
    if a[0] != v {
      WithoutLeft(a[1..], b, v);
    }
  }

  /** In order, all occurrences stand together, so any of them may go. */
  lemma {:induction false} WithoutMiddle(a: seq<int>, v: int, b: seq<int>)
    requires Ordered(a + [v] + b)
    ensures Without(a + [v] + b, v) == a + b
  {
    var s := a + [v] + b;
    if a == [] {
      assert s[1..] == b;
    } else if a[0] == v {
      forall i | 0 <= i < |a|
        ensures a[i] == v
      {
        assert s[0] <= s[i] <= s[|a|];
      }
      assert s[1..] == a + b;
    } else {
      assert s[1..] == a[1..] + [v] + b;
      WithoutMiddle(a[1..], v, b);
    }
  }

  lemma OrderedParts(l: seq<int>, x: int, r: seq<int>)
    requires Ordered(l + [x] + r)
    ensures Ordered(l) && Ordered(r)
    ensures forall y :: y in l ==> y <= x
    ensures forall y :: y in r ==> x <= y
  {
    var s := l + [x] + r;
    forall y | y in l
      ensures y <= x
    {
      var i :| 0 <= i < |l| && l[i] == y;
      assert s[i] <= s[|l|];
    }
    forall y | y in r
      ensures x <= y
    {
      var i :| 0 <= i < |r| && r[i] == y;
      assert s[|l|] <= s[|l| + 1 + i];
    }
    forall i, j | 0 <= i < j < |r|
      ensures r[i] <= r[j]
    {
      assert s[|l| + 1 + i] <= s[|l| + 1 + j];
    }
    forall i, j | 0 <= i < j < |l|
      ensures l[i] <= l[j]
    {
      assert s[i] <= s[j];
    }
  }

  lemma RemovedLeft(l: seq<int>, x: int, r: seq<int>, v: int)
    requires Ordered(l + [x] + r) && v < x
    ensures Without(l + [x] + r, v) == Without(l, v) + [x] + r
  {
    OrderedParts(l, x, r);
    assert l + [x] + r == l + ([x] + r);
    if v in l {
      WithoutLeft(l, [x] + r, v);
    } else {
      WithoutAbsent(l, v);
      WithoutAbsent(l + [x] + r, v);
    }
  }

  lemma RemovedRight(l: seq<int>, x: int, r: seq<int>, v: int)
    requires Ordered(l + [x] + r) && v > x
    ensures Without(l + [x] + r, v) == l + [x] + Without(r, v)
  {
    OrderedParts(l, x, r);
    WithoutRight(l + [x], r, v);
  }

  /** The successor's item takes the place of the removed one. */
  lemma RemovedInner(l: seq<int>, x: int, r: seq<int>)
    requires Ordered(l + [x] + r) && r != []
    ensures Without(l + [x] + r, x) == l + [r[0]] + Without(r, r[0])
  {
    WithoutMiddle(l, x, r);
    assert r == [r[0]] + r[1..];
  }

  /** The tree as it must be left: its nodes apart, and exactly one of them freed if `v` was there. */
  ghost predicate RemovedFrom(t: Tree, t': Tree, v: int, freed: set<Node>) {
    && Apart(t') && Items(t') == Without(Items(t), v)
    && Nodes(t') == Nodes(t) - freed && freed <= Nodes(t) && |freed| == if v in Items(t) then 1 else 0
  }

  lemma SubtreesReady(t: Tree)
    requires t.Branch? && Apart(t) && Ordered(Items(t))
    ensures Apart(t.left) && Apart(t.right) && Nodes(t.left) !! Nodes(t.right)
    ensures Nodes(t) == Nodes(t.left) + {t.node} + Nodes(t.right)
    ensures t.node !in Nodes(t.left) && t.node !in Nodes(t.right)
    ensures Ordered(Items(t.left)) && Ordered(Items(t.right))
  {
    OrderedParts(Items(t.left), t.item, Items(t.right));
  }

  lemma BranchIs(t: Tree)
    requires t.Branch?
    ensures Items(t) == Items(t.left) + [t.item] + Items(t.right)
    ensures Nodes(t) == Nodes(t.left) + {t.node} + Nodes(t.right)
    ensures Apart(t) <==>
      && Apart(t.left) && Apart(t.right) && Nodes(t.left) !! Nodes(t.right)
      && t.node !in Nodes(t.left) && t.node !in Nodes(t.right)
  {
  }

  lemma RemovedInLeft(t: Tree, l': Tree, v: int, freed: set<Node>)
    requires t.Branch? && Apart(t) && Ordered(Items(t)) && v < t.item && RemovedFrom(t.left, l', v, freed)
    ensures RemovedFrom(t, Branch(l', t.node, t.item, t.right), v, freed)
  {
    hide Without, Ordered, Items, Nodes, Apart;
    BranchIs(t);
    BranchIs(Branch(l', t.node, t.item, t.right));
    RemovedLeft(Items(t.left), t.item, Items(t.right), v);
    OrderedParts(Items(t.left), t.item, Items(t.right));
    assert v in Items(t) <==> v in Items(t.left);
  }

  lemma RemovedInRight(t: Tree, r': Tree, v: int, freed: set<Node>)
    requires t.Branch? && Apart(t) && Ordered(Items(t)) && v > t.item && RemovedFrom(t.right, r', v, freed)
    ensures RemovedFrom(t, Branch(t.left, t.node, t.item, r'), v, freed)
  {
    hide Without, Ordered, Items, Nodes, Apart;
    BranchIs(t);
    BranchIs(Branch(t.left, t.node, t.item, r'));
    RemovedRight(Items(t.left), t.item, Items(t.right), v);
    OrderedParts(Items(t.left), t.item, Items(t.right));
    assert v in Items(t) <==> v in Items(t.right);
  }

  lemma RemovedBySuccessor(t: Tree, r': Tree, item: int, freed: set<Node>)
    requires t.Branch? && Apart(t) && Ordered(Items(t)) && Items(t.right) != [] && item == Items(t.right)[0]
    requires RemovedFrom(t.right, r', item, freed)
    ensures RemovedFrom(t, Branch(t.left, t.node, item, r'), t.item, freed)
  {
    hide Without, Ordered, Items, Nodes, Apart;
    BranchIs(t);
    BranchIs(Branch(t.left, t.node, item, r'));
    RemovedInner(Items(t.left), t.item, Items(t.right));
  }

  lemma RemovedAtRoot(t: Tree, rest: Tree)
    requires t.Branch? && Apart(t) && Ordered(Items(t))
    requires (t.right.Leaf? && rest == t.left) || (t.left.Leaf? && rest == t.right)
    ensures RemovedFrom(t, rest, t.item, {t.node})
  {
    hide Without, Ordered;
    WithoutMiddle(Items(t.left), t.item, Items(t.right));
  }

  lemma SubtreesAt(t: Tree, root: Node)
    requires At(t, root)
    ensures t.Branch? && t.node == root && t.item == root.item && At(t.left, root.left) && At(t.right, root.right)
    ensures (root.left == null <==> t.left.Leaf?) && (root.right == null <==> t.right.Leaf?)
  {
    hide Nodes;
    assert At(t.left, t.node.left) && At(t.right, t.node.right);
    RootAt(t.left, root.left);
    RootAt(t.right, root.right);
  }

  lemma RootAt(t: Tree, root: Node?)
    requires At(t, root)
    ensures root == null <==> t.Leaf?
  {
  }

  lemma JoinedAt(l: Tree, root: Node, r: Tree)
    requires At(l, root.left) && At(r, root.right)
    ensures At(Branch(l, root, root.item, r), root)
  {
  }

  method LeftmostItem(root: Node, ghost t: Tree) returns (item: int)
    requires At(t, root)
    ensures Items(t) != [] && item == Items(t)[0]
  {
    var succ := root;
    ghost var st := t;
    while succ.left != null
      invariant st.Branch? && Nodes(st) <= Nodes(t) && At(st, succ)
      invariant Items(st) != [] && Items(t) != [] && Items(st)[0] == Items(t)[0]
      decreases st
    {
      succ := succ.left;
      st := st.left;
    }
    item := succ.item;
  }

  method RemoveNodeFromTree(root: Node?, value: int, ghost t: Tree)
    returns (r: Node?, ghost t': Tree, ghost freed: set<Node>)
    requires At(t, root) && Apart(t) && Ordered(Items(t))
    modifies Nodes(t)
    ensures At(t', r) && RemovedFrom(t, t', value, freed)
    decreases t
  {
    hide Items, Ordered, At, Nodes, Apart, RemovedFrom;
    if root == null {
      NothingRemoved(t, value);
      return null, Leaf, {};
    }
    SubtreesAt(t, root);
    SubtreesReady(t);
    AllocatedNodes(t.left);
    AllocatedNodes(t.right);
    if value < root.item {
      ghost var l';
      var left;
      left, l', freed := RemoveNodeFromTree(root.left, value, t.left);
      NodesKept(t.left, l', value, freed);
      root.left := left;
      JoinedAt(l', root, t.right);
      RemovedInLeft(t, l', value, freed);
      r, t' := root, Branch(l', root, t.item, t.right);
    } else if value > root.item {
      ghost var r';
      var right;
      right, r', freed := RemoveNodeFromTree(root.right, value, t.right);
      NodesKept(t.right, r', value, freed);
      root.right := right;
      JoinedAt(t.left, root, r');
      RemovedInRight(t, r', value, freed);
      r, t' := root, Branch(t.left, root, t.item, r');
    } else if root.left == null && root.right == null {
      RemovedAtRoot(t, t.left);
      r, t', freed := null, t.left, {root};
    } else if root.left != null && root.right != null {
      var item := LeftmostItem(root.right, t.right);
      root.item := item;
      ghost var r';
      var right;
      right, r', freed := RemoveNodeFromTree(root.right, item, t.right);
      NodesKept(t.right, r', item, freed);
      root.right := right;
      JoinedAt(t.left, root, r');
      RemovedBySuccessor(t, r', item, freed);
      r, t' := root, Branch(t.left, root, item, r');
    } else if root.right == null {
      RemovedAtRoot(t, t.left);
      r, t', freed := root.left, t.left, {root};
    } else {
      RemovedAtRoot(t, t.right);
      r, t', freed := root.right, t.right, {root};
    }
  }

  lemma AllocatedNodes(t: Tree)
    ensures forall n :: n in Nodes(t) ==> allocated(n)
  {
  }

  lemma NodesKept(t: Tree, t': Tree, v: int, freed: set<Node>)
    requires RemovedFrom(t, t', v, freed)
    ensures Nodes(t') <= Nodes(t)
  {
  }

  lemma NothingRemoved(t: Tree, value: int)
    requires At(t, null)
    ensures At(Leaf, null) && RemovedFrom(t, Leaf, value, {})
  {
  }
}
