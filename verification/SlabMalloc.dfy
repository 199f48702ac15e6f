/** threads/malloc.c: the kernel's block allocator.  A page obtained for blocks
    of one size is an arena: a 24-byte header that counts its free blocks, then
    the blocks; each descriptor keeps one list of free blocks of its size.
    Requests too large for a block get whole pages.  An address is 4096 times a
    page number plus an offset. */
module SlabMalloc {

  type Page = nat

  datatype Option<T> = None | Some(value: T)

  const PGSIZE := 4096
  const HEADER := 24
  const DESC_CNT := 7
  const SIZE_LIMIT := 0x1_0000_0000_0000_0000

  /** `block_size` of the descriptors that `malloc_init` sets up. */
  function BlockSize(d: nat): (n: nat)
    requires d < DESC_CNT
    ensures 16 <= n
  {
    [16, 32, 64, 128, 256, 512, 1024][d]
  }

  /** The sizes that the loop of `malloc_init` goes through. */
  lemma SizesDouble(d: nat)
    requires d < DESC_CNT
    ensures BlockSize(0) == 16 && BlockSize(d) < PGSIZE / 2
    ensures if d + 1 < DESC_CNT then BlockSize(d + 1) == 2 * BlockSize(d) else PGSIZE / 2 <= 2 * BlockSize(d)
  {
    assert d == 0 || d == 1 || d == 2 || d == 3 || d == 4 || d == 5 || d == 6;
  }

  /** `blocks_per_arena`: as many as fit behind the header. */
  function PerArena(d: nat): (n: nat)
    requires d < DESC_CNT
    ensures 3 <= n && HEADER + n * BlockSize(d) <= PGSIZE < HEADER + (n + 1) * BlockSize(d)
  {
    var n := (PGSIZE - HEADER) / BlockSize(d);
    n
  }

  /** `arena_to_block`. */
  function BlockAt(a: Page, d: nat, i: nat): nat
    requires d < DESC_CNT
  {
    PGSIZE * a + HEADER + i * BlockSize(d)
  }

  lemma BlocksInPage(a: Page, d: nat, i: nat)
    requires d < DESC_CNT && i < PerArena(d)
    ensures BlockAt(a, d, i) / PGSIZE == a && BlockAt(a, d, i) + BlockSize(d) <= PGSIZE * (a + 1)
  {
    Grows(i + 1, PerArena(d), BlockSize(d));
  }

  lemma Grows(i: nat, j: nat, n: nat)
    requires i <= j
    ensures i * n <= j * n
  {
  }

  lemma BlocksApart(a: Page, d: nat, i: nat, j: nat)
    requires d < DESC_CNT && i < j
    ensures BlockAt(a, d, i) + BlockSize(d) <= BlockAt(a, d, j)
  {
    Grows(i + 1, j, BlockSize(d));
  }

  datatype Owner = Big | OfDesc(d: nat)

  /** Free blocks, or pages of a big block. */
  datatype Arena = Arena(owner: Owner, freeCnt: nat)

  datatype Kmem = Kmem(arenas: map<Page, Arena>, lists: seq<seq<nat>>, pages: set<Page>)

  function PagesOf(ar: Arena): nat {
    if ar.owner.Big? then ar.freeCnt else 1
  }

  ghost predicate IsBlock(a: Page, d: nat, x: nat)
    requires d < DESC_CNT
  {
    exists i :: 0 <= i < PerArena(d) && x == BlockAt(a, d, i)
  }

  ghost predicate Distinct(q: seq<nat>) {
    forall i, j :: 0 <= i < j < |q| ==> q[i] != q[j]
  }

  /** The free blocks of one arena. */
  ghost function FreeOn(list: seq<nat>, a: Page): set<nat> {
    set x | x in list && x / PGSIZE == a
  }

  /** An arena counts its blocks on the list; its pages are taken. */
  ghost predicate ArenaOk(m: Kmem, a: Page)
    requires a in m.arenas && |m.lists| == DESC_CNT
  {
    && (forall p :: a <= p < a + PagesOf(m.arenas[a]) ==> p !in m.pages)
    && match m.arenas[a].owner
       case Big => 1 <= m.arenas[a].freeCnt
       case OfDesc(d) => d < DESC_CNT && |FreeOn(m.lists[d], a)| == m.arenas[a].freeCnt
  }

  /** A list holds blocks of its descriptor's arenas, each once. */
  ghost predicate ListOk(m: Kmem, d: nat)
    requires d < DESC_CNT == |m.lists|
  {
    && Distinct(m.lists[d])
    && forall x :: x in m.lists[d] ==>
         x / PGSIZE in m.arenas && m.arenas[x / PGSIZE].owner == OfDesc(d) && IsBlock(x / PGSIZE, d, x)
  }

  ghost predicate Formed(m: Kmem) {
    && |m.lists| == DESC_CNT
    && (forall a {:trigger ArenaOk(m, a)} :: a in m.arenas ==> ArenaOk(m, a))
    && (forall d {:trigger ListOk(m, d)} :: 0 <= d < DESC_CNT ==> ListOk(m, d))
    && (forall a, b :: a in m.arenas && b in m.arenas && a < b ==> a + PagesOf(m.arenas[a]) <= b)
  }

  /** Arena `a` has a block in use. */
  ghost predicate NotWhollyFree(m: Kmem, a: Page)
    requires a in m.arenas
  {
    m.arenas[a].owner.OfDesc? && m.arenas[a].owner.d < DESC_CNT ==> m.arenas[a].freeCnt < PerArena(m.arenas[a].owner.d)
  }

  ghost predicate Valid(m: Kmem) {
    Formed(m) && forall a {:trigger NotWhollyFree(m, a)} :: a in m.arenas ==> NotWhollyFree(m, a)
  }

  /** The size of the block in use at `x`, 0 if there is none. */
  ghost function InUse(m: Kmem, x: nat): nat
    requires |m.lists| == DESC_CNT
  {
    var a := x / PGSIZE;
    if a !in m.arenas then 0
    else match m.arenas[a].owner
      case Big => if x == PGSIZE * a + HEADER && HEADER <= PGSIZE * m.arenas[a].freeCnt then PGSIZE * m.arenas[a].freeCnt - HEADER else 0
      case OfDesc(d) => if d < DESC_CNT && IsBlock(a, d, x) && x !in m.lists[d] then BlockSize(d) else 0
  }

  /** Blocks in use lie behind their arena's header, inside its pages, and do not overlap. */
  lemma UsedApart(m: Kmem, x: nat, y: nat)
    requires Valid(m) && InUse(m, x) > 0 && InUse(m, y) > 0 && x < y
    ensures x + InUse(m, x) <= y
  {
    var a, b := x / PGSIZE, y / PGSIZE;
    assert ArenaOk(m, a) && ArenaOk(m, b);
    UsedInside(m, x);
    if a == b && m.arenas[a].owner.OfDesc? {
      var d := m.arenas[a].owner.d;
      var i :| 0 <= i < PerArena(d) && x == BlockAt(a, d, i);
      var j :| 0 <= j < PerArena(d) && y == BlockAt(a, d, j);
      if i < j {
        BlocksApart(a, d, i, j);
      } else if j < i {
        BlocksApart(a, d, j, i);
      }
    }
  }

  lemma UsedInside(m: Kmem, x: nat)
    requires Valid(m) && InUse(m, x) > 0
    ensures var a := x / PGSIZE;
            && a in m.arenas && PGSIZE * a + HEADER <= x && x + InUse(m, x) <= PGSIZE * (a + PagesOf(m.arenas[a]))
            && forall p :: a <= p < a + PagesOf(m.arenas[a]) ==> p !in m.pages
  {
    var a := x / PGSIZE;
    assert ArenaOk(m, a);
    if m.arenas[a].owner.OfDesc? {
      var d := m.arenas[a].owner.d;
      var i :| 0 <= i < PerArena(d) && x == BlockAt(a, d, i);
      BlocksInPage(a, d, i);
    }
  }

  // -------------------------------------------------------- list changes

  function SetArena(m: Kmem, a: Page, ar: Arena): Kmem {
    m.(arenas := m.arenas[a := ar])
  }

  /** The first free block is taken off its list. */
  function Popped(m: Kmem, d: nat): Kmem
    requires d < DESC_CNT == |m.lists| && m.lists[d] != [] && m.lists[d][0] / PGSIZE in m.arenas
  {
    var a := m.lists[d][0] / PGSIZE;
    var n := m.arenas[a].freeCnt;
    SetArena(m, a, m.arenas[a].(freeCnt := if n > 0 then n - 1 else 0)).(lists := m.lists[d := m.lists[d][1..]])
  }

  function Pushed(m: Kmem, d: nat, x: nat): Kmem
    requires d < DESC_CNT == |m.lists| && x / PGSIZE in m.arenas
  {
    var a := x / PGSIZE;
    SetArena(m, a, m.arenas[a].(freeCnt := m.arenas[a].freeCnt + 1)).(lists := m.lists[d := [x] + m.lists[d]])
  }

  lemma FreeOnCons(x: nat, list: seq<nat>, b: Page)
    ensures FreeOn([x] + list, b) == if x / PGSIZE == b then FreeOn(list, b) + {x} else FreeOn(list, b)
  {
  }

  /** All other arenas and lists see no change. */
  lemma PoppedFormed(m: Kmem, d: nat)
    requires Formed(m) && d < DESC_CNT && m.lists[d] != []
    ensures var x := m.lists[d][0]; x / PGSIZE in m.arenas && m.arenas[x / PGSIZE].owner == OfDesc(d) && m.arenas[x / PGSIZE].freeCnt > 0
    ensures Formed(Popped(m, d)) && Popped(m, d).arenas[m.lists[d][0] / PGSIZE].freeCnt < PerArena(d)
  {
    var x := m.lists[d][0];
    assert ListOk(m, d) && x in m.lists[d] && ArenaOk(m, x / PGSIZE);
    assert x in FreeOn(m.lists[d], x / PGSIZE);
    PoppedArenas(m, d, Popped(m, d));
    PoppedLists(m, d, Popped(m, d));
    CountBound(m, x / PGSIZE, d);
    hide ArenaOk, ListOk, IsBlock;
  }

  lemma PoppedArenas(m: Kmem, d: nat, m': Kmem)
    requires Formed(m) && d < DESC_CNT && m.lists[d] != []
    requires m.lists[d][0] / PGSIZE in m.arenas && m.arenas[m.lists[d][0] / PGSIZE].owner == OfDesc(d) && m' == Popped(m, d)
    ensures forall b :: b in m'.arenas ==> ArenaOk(m', b)
  {
    hide IsBlock;
    var x, rest := m.lists[d][0], m.lists[d][1..];
    assert ListOk(m, d) && m.lists[d] == [x] + rest && x !in rest;
    hide ListOk;
    forall b | b in m.arenas
      ensures ArenaOk(m', b)
    {
      assert ArenaOk(m, b);
      FreeOnCons(x, rest, b);
      assert x !in FreeOn(rest, b);
    }
  }

  lemma PoppedLists(m: Kmem, d: nat, m': Kmem)
    requires Formed(m) && d < DESC_CNT && m.lists[d] != [] && m.lists[d][0] / PGSIZE in m.arenas && m' == Popped(m, d)
    ensures forall e :: 0 <= e < DESC_CNT ==> ListOk(m', e)
  {
    hide IsBlock, ArenaOk;
    forall e | 0 <= e < DESC_CNT
      ensures ListOk(m', e)
    {
      assert ListOk(m, e);
    }
  }

  function AllBlocks(a: Page, d: nat): set<nat>
    requires d < DESC_CNT
  {
    set i | 0 <= i < PerArena(d) :: BlockAt(a, d, i)
  }

  lemma {:induction false} BlockCount(a: Page, d: nat, n: nat)
    requires d < DESC_CNT
    ensures |set i | 0 <= i < n :: BlockAt(a, d, i)| == n
    decreases n
  {
    if n > 0 {
      BlockCount(a, d, n - 1);
      var s := set i | 0 <= i < n - 1 :: BlockAt(a, d, i);
      assert BlockAt(a, d, n - 1) !in s by {
        forall i | 0 <= i < n - 1
          ensures BlockAt(a, d, i) != BlockAt(a, d, n - 1)
        {
          BlocksApart(a, d, i, n - 1);
        }
      }
      assert (set i | 0 <= i < n :: BlockAt(a, d, i)) == s + {BlockAt(a, d, n - 1)};
    }
  }

  /** There are no more free blocks than blocks, and if as many, then all are free. */
  lemma CountBound(m: Kmem, a: Page, d: nat)
    requires Formed(m) && a in m.arenas && m.arenas[a].owner == OfDesc(d) && d < DESC_CNT
    ensures m.arenas[a].freeCnt <= PerArena(d)
    ensures m.arenas[a].freeCnt == PerArena(d) ==> forall i :: 0 <= i < PerArena(d) ==> BlockAt(a, d, i) in m.lists[d]
  {
    assert ArenaOk(m, a) && ListOk(m, d);
    var free, all := FreeOn(m.lists[d], a), AllBlocks(a, d);
    assert free <= all;
    BlockCount(a, d, PerArena(d));
    assert |free| + |all - free| == |all| by {
      assert all == free + (all - free);
    }
    if |free| == |all| {
      assert all - free == {};
      forall i | 0 <= i < PerArena(d)
        ensures BlockAt(a, d, i) in m.lists[d]
      {
        assert BlockAt(a, d, i) in all;
      }
    }
  }

  /** Block `x`, in use, becomes the first free one. */
  lemma PushedFormed(m: Kmem, d: nat, x: nat)
    requires Formed(m) && d < DESC_CNT && x / PGSIZE in m.arenas && m.arenas[x / PGSIZE].owner == OfDesc(d) && InUse(m, x) > 0
    ensures Formed(Pushed(m, d, x))
  {
    var m' := Pushed(m, d, x);
    assert ListOk(m, d) && x !in m.lists[d] && IsBlock(x / PGSIZE, d, x);
    assert m'.lists[d] == [x] + m.lists[d];
    PushedArenas(m, d, x, m');
    PushedLists(m, d, x, m');
    hide ArenaOk, ListOk, IsBlock;
  }

  lemma PushedArenas(m: Kmem, d: nat, x: nat, m': Kmem)
    requires Formed(m) && d < DESC_CNT && x / PGSIZE in m.arenas && m.arenas[x / PGSIZE].owner == OfDesc(d)
    requires m' == Pushed(m, d, x) && x !in m.lists[d]
    ensures forall b :: b in m'.arenas ==> ArenaOk(m', b)
  {
    hide IsBlock, ListOk;
    forall b | b in m.arenas
      ensures ArenaOk(m', b)
    {
      assert ArenaOk(m, b);
      FreeOnCons(x, m.lists[d], b);
      assert x !in FreeOn(m.lists[d], b);
    }
  }

  lemma PushedLists(m: Kmem, d: nat, x: nat, m': Kmem)
    requires Formed(m) && d < DESC_CNT && x / PGSIZE in m.arenas && m.arenas[x / PGSIZE].owner == OfDesc(d)
    requires m' == Pushed(m, d, x) && x !in m.lists[d] && IsBlock(x / PGSIZE, d, x)
    ensures forall e :: 0 <= e < DESC_CNT ==> ListOk(m', e)
  {
    hide IsBlock, ArenaOk;
    forall e | 0 <= e < DESC_CNT
      ensures ListOk(m', e)
    {
      assert ListOk(m, e);
    }
  }

  // -------------------------------------------------------- whole arenas

  function BlocksFrom(a: Page, d: nat, n: nat): (q: seq<nat>)
    requires d < DESC_CNT
    ensures |q| == n && forall i :: 0 <= i < n ==> q[i] == BlockAt(a, d, i)
  {
    seq(n, i requires 0 <= i => BlockAt(a, d, i))
  }

  /** A new arena, all of its blocks on the empty list. */
  function WithArena(m: Kmem, a: Page, d: nat): Kmem
    requires d < DESC_CNT == |m.lists|
  {
    SetArena(m, a, Arena(OfDesc(d), PerArena(d))).(lists := m.lists[d := BlocksFrom(a, d, PerArena(d))], pages := m.pages - {a})
  }

  lemma NewBlocks(a: Page, d: nat)
    requires d < DESC_CNT
    ensures var q := BlocksFrom(a, d, PerArena(d));
            && Distinct(q) && |FreeOn(q, a)| == PerArena(d)
            && forall x :: x in q ==> x / PGSIZE == a && IsBlock(a, d, x)
  {
    var q := BlocksFrom(a, d, PerArena(d));
    forall i | 0 <= i < |q|
      ensures q[i] / PGSIZE == a && IsBlock(a, d, q[i])
    {
      BlocksInPage(a, d, i);
    }
    forall i, j | 0 <= i < j < |q|
      ensures q[i] != q[j]
    {
      BlocksApart(a, d, i, j);
    }
    BlockCount(a, d, PerArena(d));
    var all := AllBlocks(a, d);
    forall x: nat
      ensures x in FreeOn(q, a) <==> x in all
    {
      if x in all {
        var i :| 0 <= i < PerArena(d) && x == BlockAt(a, d, i);
        assert q[i] == x;
      }
    }
    assert FreeOn(q, a) == all;
  }

  lemma ArenaFormed(m: Kmem, a: Page, d: nat)
    requires Formed(m) && d < DESC_CNT && m.lists[d] == [] && a in m.pages
    ensures Formed(WithArena(m, a, d))
  {
    var m' := WithArena(m, a, d);
    NewBlocks(a, d);
    hide IsBlock, BlocksFrom;
    forall b | b in m.arenas
      ensures b != a && (a < b || b + PagesOf(m.arenas[b]) <= a)
    {
      assert ArenaOk(m, b);
    }
    forall b | b in m'.arenas
      ensures ArenaOk(m', b)
    {
      if b != a {
        assert ArenaOk(m, b);
        assert FreeOn(m'.lists[d], b) == {};
        assert FreeOn(m.lists[d], b) == {};
      }
    }
    forall e | 0 <= e < DESC_CNT
      ensures ListOk(m', e)
    {
      assert ListOk(m, e);
    }
  }

  /** `list` without the members of `s`, in order. */
  function Minus(list: seq<nat>, s: set<nat>): seq<nat> {
    if list == [] then [] else (if list[0] in s then [] else [list[0]]) + Minus(list[1..], s)
  }

  lemma {:induction false} MinusMembers(list: seq<nat>, s: set<nat>)
    ensures forall x :: x in Minus(list, s) <==> x in list && x !in s
    ensures Distinct(list) ==> Distinct(Minus(list, s))
  {
    if list != [] {
      MinusMembers(list[1..], s);
      assert list == [list[0]] + list[1..];
      assert Distinct(list) ==> list[0] !in list[1..] && Distinct(list[1..]);
    }
  }

  lemma {:induction false} MinusTwice(list: seq<nat>, s: set<nat>, t: set<nat>)
    ensures Minus(Minus(list, s), t) == Minus(list, s + t)
  {
    if list != [] {
      MinusTwice(list[1..], s, t);
      assert [] + Minus(list[1..], s) == Minus(list[1..], s);
      assert [] + Minus(list[1..], s + t) == Minus(list[1..], s + t);
      if list[0] !in s {
        assert ([list[0]] + Minus(list[1..], s))[1..] == Minus(list[1..], s);
      }
    }
  }

  /** A wholly free arena is given back, and its blocks leave the list. */
  function Dropped(m: Kmem, a: Page, d: nat): Kmem
    requires d < DESC_CNT == |m.lists|
  {
    Kmem(m.arenas - {a}, m.lists[d := Minus(m.lists[d], AllBlocks(a, d))], m.pages + {a})
  }

  lemma DroppedFormed(m: Kmem, a: Page, d: nat)
    requires Formed(m) && d < DESC_CNT && a in m.arenas && m.arenas[a].owner == OfDesc(d) && m.arenas[a].freeCnt == PerArena(d)
    ensures Formed(Dropped(m, a, d))
  {
    var m' := Dropped(m, a, d);
    assert ListOk(m, d);
    MinusMembers(m.lists[d], AllBlocks(a, d));
    AllOnPage(a, d);
    hide AllBlocks, IsBlock;
    forall b | b in m'.arenas
      ensures ArenaOk(m', b)
    {
      assert ArenaOk(m, b);
      assert FreeOn(m'.lists[d], b) == FreeOn(m.lists[d], b);
    }
    forall e | 0 <= e < DESC_CNT
      ensures ListOk(m', e)
    {
      assert ListOk(m, e);
    }
  }

  lemma AllOnPage(a: Page, d: nat)
    requires d < DESC_CNT
    ensures forall x: nat :: x in AllBlocks(a, d) <==> x / PGSIZE == a && IsBlock(a, d, x)
  {
    forall x: nat
      ensures x in AllBlocks(a, d) <==> x / PGSIZE == a && IsBlock(a, d, x)
    {
      if IsBlock(a, d, x) {
        var i :| 0 <= i < PerArena(d) && x == BlockAt(a, d, i);
        assert BlockAt(a, d, i) in AllBlocks(a, d);
      }
      if x in AllBlocks(a, d) {
        var i :| 0 <= i < PerArena(d) && x == BlockAt(a, d, i);
        BlocksInPage(a, d, i);
      }
    }
  }

  // ------------------------------------------------- effects on the users

  /** Blocks in use are as before, but that `x` now has size `n`. */
  ghost predicate UseSet(m: Kmem, m': Kmem, x: nat, n: nat)
    requires |m.lists| == |m'.lists| == DESC_CNT
  {
    forall y: nat {:trigger InUse(m', y)} :: InUse(m', y) == if y == x then n else InUse(m, y)
  }

  /** `malloc` from a list: the block was free, and its arena keeps a block in use. */
  lemma PoppedValid(m: Kmem, d: nat)
    requires Formed(m) && d < DESC_CNT && m.lists[d] != []
    requires forall a :: a in m.arenas && a != m.lists[d][0] / PGSIZE ==> NotWhollyFree(m, a)
    ensures m.lists[d][0] / PGSIZE in m.arenas && Valid(Popped(m, d)) && InUse(m, m.lists[d][0]) == 0
    ensures UseSet(m, Popped(m, d), m.lists[d][0], BlockSize(d))
  {
    PoppedFormed(m, d);
    var x, m' := m.lists[d][0], Popped(m, d);
    assert ListOk(m, d) && x in m.lists[d];
    forall a | a in m'.arenas
      ensures NotWhollyFree(m', a)
    {
      if a != x / PGSIZE {
        assert NotWhollyFree(m, a);
      }
    }
    assert m.lists[d] == [x] + m.lists[d][1..];
    assert x !in m'.lists[d];
    hide IsBlock, Formed, ArenaOk, ListOk, Valid;
    forall y: nat
      ensures InUse(m', y) == if y == x then BlockSize(d) else InUse(m, y)
    {
    }
    FormedValid(m');
  }

  lemma FormedValid(m: Kmem)
    requires Formed(m) && forall a :: a in m.arenas ==> NotWhollyFree(m, a)
    ensures Valid(m)
  {
  }

  /** A new arena's blocks are all free. */
  lemma ArenaUnused(m: Kmem, a: Page, d: nat)
    requires Formed(m) && d < DESC_CNT && m.lists[d] == [] && a in m.pages
    ensures forall y: nat {:trigger InUse(WithArena(m, a, d), y)} :: InUse(WithArena(m, a, d), y) == InUse(m, y)
  {
    var m' := WithArena(m, a, d);
    assert a !in m.arenas by {
      assert a in m.arenas ==> ArenaOk(m, a);
    }
    NewBlocks(a, d);
    hide Formed;
    forall y: nat
      ensures InUse(m', y) == InUse(m, y)
    {
      if y / PGSIZE == a {
        if IsBlock(a, d, y) {
          var i :| 0 <= i < PerArena(d) && y == BlockAt(a, d, i);
          assert BlocksFrom(a, d, PerArena(d))[i] == y;
        }
      } else {
        assert y !in m'.lists[d];
      }
    }
  }

  lemma PushedUse(m: Kmem, d: nat, x: nat)
    requires Formed(m) && d < DESC_CNT && x / PGSIZE in m.arenas && m.arenas[x / PGSIZE].owner == OfDesc(d) && InUse(m, x) > 0
    ensures UseSet(m, Pushed(m, d, x), x, 0)
  {
    var m' := Pushed(m, d, x);
    assert m'.lists[d] == [x] + m.lists[d];
    hide Formed, IsBlock;
    forall y: nat
      ensures InUse(m', y) == if y == x then 0 else InUse(m, y)
    {
      assert y in m'.lists[d] <==> y == x || y in m.lists[d];
    }
  }

  lemma DroppedUse(m: Kmem, a: Page, d: nat)
    requires Formed(m) && d < DESC_CNT && a in m.arenas && m.arenas[a].owner == OfDesc(d) && m.arenas[a].freeCnt == PerArena(d)
    ensures forall y: nat {:trigger InUse(Dropped(m, a, d), y)} :: InUse(Dropped(m, a, d), y) == InUse(m, y)
  {
    var m' := Dropped(m, a, d);
    CountBound(m, a, d);
    MinusMembers(m.lists[d], AllBlocks(a, d));
    AllOnPage(a, d);
    hide Formed;
    forall y: nat
      ensures InUse(m', y) == InUse(m, y)
    {
      if y / PGSIZE == a && IsBlock(a, d, y) {
        var i :| 0 <= i < PerArena(d) && y == BlockAt(a, d, i);
      }
    }
  }

  // ------------------------------------------------------ big requests

  /** `DIV_ROUND_UP (size + sizeof *a, PGSIZE)` in 64 bits. */
  function PageCnt(size: nat): nat {
    ((size + HEADER) % SIZE_LIMIT + (PGSIZE - 1)) % SIZE_LIMIT / PGSIZE
  }

  /** The pages hold the request exactly when the sum does not wrap. */
  lemma PageCntIsEnough(size: nat)
    requires size < SIZE_LIMIT
    ensures size + HEADER <= PGSIZE * PageCnt(size) <==> size + HEADER + PGSIZE - 1 < SIZE_LIMIT
    ensures size + HEADER + PGSIZE - 1 < SIZE_LIMIT ==> 1 <= PageCnt(size) && PGSIZE * PageCnt(size) < size + HEADER + PGSIZE
  {
    var x := (size + HEADER) % SIZE_LIMIT;
    var y := (x + (PGSIZE - 1)) % SIZE_LIMIT;
    assert x == if size + HEADER < SIZE_LIMIT then size + HEADER else size + HEADER - SIZE_LIMIT;
    assert y == if x + (PGSIZE - 1) < SIZE_LIMIT then x + (PGSIZE - 1) else x + (PGSIZE - 1) - SIZE_LIMIT;
  }

  function Run(a: Page, n: nat): (r: set<Page>)
    ensures forall p: Page :: p in r <==> a <= p < a + n
  {
    if n == 0 then {} else Run(a, n - 1) + {a + n - 1}
  }

  function TakenRun(m: Kmem, a: Page, n: nat): Kmem {
    SetArena(m, a, Arena(Big, n)).(pages := m.pages - Run(a, n))
  }

  lemma BigValid(m: Kmem, a: Page, n: nat)
    requires Valid(m) && 1 <= n && forall p :: a <= p < a + n ==> p in m.pages
    ensures Valid(TakenRun(m, a, n)) && UseSet(m, TakenRun(m, a, n), PGSIZE * a + HEADER, PGSIZE * n - HEADER)
    ensures InUse(m, PGSIZE * a + HEADER) == 0
  {
    var m' := TakenRun(m, a, n);
    forall b | b in m.arenas
      ensures b != a && (b + PagesOf(m.arenas[b]) <= a || a + n <= b)
    {
      assert ArenaOk(m, b);
      assert 1 <= PagesOf(m.arenas[b]) && b !in m.pages && a in m.pages;
      assert b <= a < b + PagesOf(m.arenas[b]) ==> a !in m.pages;
      assert a <= b < a + n ==> b in m.pages;
    }
    BigParts(m, a, n, m');
    UseOfBig(m, a, n, m');
  }

  lemma BigParts(m: Kmem, a: Page, n: nat, m': Kmem)
    requires Valid(m) && 1 <= n && m' == TakenRun(m, a, n)
    requires forall b :: b in m.arenas ==> b != a && (b + PagesOf(m.arenas[b]) <= a || a + n <= b)
    ensures Valid(m')
  {
    forall b | b in m'.arenas
      ensures ArenaOk(m', b) && NotWhollyFree(m', b)
    {
      if b != a {
        assert ArenaOk(m, b) && NotWhollyFree(m, b);
      }
    }
    forall e | 0 <= e < DESC_CNT
      ensures ListOk(m', e)
    {
      assert ListOk(m, e);
    }
  }

  lemma UseOfBig(m: Kmem, a: Page, n: nat, m': Kmem)
    requires Formed(m) && 1 <= n && m' == TakenRun(m, a, n) && a !in m.arenas
    ensures UseSet(m, m', PGSIZE * a + HEADER, PGSIZE * n - HEADER) && InUse(m, PGSIZE * a + HEADER) == 0
  {
    forall y: nat
      ensures InUse(m', y) == if y == PGSIZE * a + HEADER then PGSIZE * n - HEADER else InUse(m, y)
    {
      assert (PGSIZE * a + HEADER) / PGSIZE == a;
    }
  }

  lemma BigFreed(m: Kmem, a: Page)
    requires Valid(m) && a in m.arenas && m.arenas[a].owner.Big?
    ensures var m' := m.(arenas := m.arenas - {a}, pages := m.pages + Run(a, m.arenas[a].freeCnt));
            Valid(m') && UseSet(m, m', PGSIZE * a + HEADER, 0)
  {
    var m' := m.(arenas := m.arenas - {a}, pages := m.pages + Run(a, m.arenas[a].freeCnt));
    BigFreedArenas(m, a, m');
    BigFreedLists(m, a, m');
    hide Formed, ArenaOk, ListOk, NotWhollyFree;
    forall y: nat
      ensures InUse(m', y) == if y == PGSIZE * a + HEADER then 0 else InUse(m, y)
    {
    }
  }

  lemma BigFreedArenas(m: Kmem, a: Page, m': Kmem)
    requires Valid(m) && a in m.arenas && m.arenas[a].owner.Big?
    requires m' == m.(arenas := m.arenas - {a}, pages := m.pages + Run(a, m.arenas[a].freeCnt))
    ensures forall b :: b in m'.arenas ==> ArenaOk(m', b) && NotWhollyFree(m', b)
  {
    hide ListOk;
    forall b | b in m'.arenas
      ensures ArenaOk(m', b) && NotWhollyFree(m', b)
    {
      assert ArenaOk(m, b) && NotWhollyFree(m, b) && ArenaOk(m, a);
    }
  }

  lemma BigFreedLists(m: Kmem, a: Page, m': Kmem)
    requires Valid(m) && a in m.arenas && m.arenas[a].owner.Big?
    requires m'.lists == m.lists && m'.arenas == m.arenas - {a}
    ensures forall e :: 0 <= e < DESC_CNT ==> ListOk(m', e)
  {
    hide ArenaOk, NotWhollyFree, IsBlock;
    forall e | 0 <= e < DESC_CNT
      ensures ListOk(m', e)
    {
      assert ListOk(m, e);
    }
  }

  /** What `calloc` asks `malloc` for; none when it notices that the product wraps. */
  function CallocSize(a: nat, b: nat): Option<nat> {
    var size := a * b % SIZE_LIMIT;
    if size < a || size < b then None else Some(size)
  }

  /** A product that is accepted is the right one exactly when it does not wrap, and
      some that wrap are accepted, but none that is left smaller than a factor;
      one of no elements is refused unless both factors are 0. */
  lemma CallocSizeIsRight(a: nat, b: nat)
    ensures CallocSize(a, b).Some? ==> a <= CallocSize(a, b).value && b <= CallocSize(a, b).value
    ensures a == 0 || b == 0 ==> (CallocSize(a, b).Some? <==> a == b)
    ensures CallocSize(a, b).Some? ==> (CallocSize(a, b).value == a * b <==> a * b < SIZE_LIMIT)
    ensures a * b < SIZE_LIMIT && a > 0 && b > 0 ==> CallocSize(a, b) == Some(a * b)
    ensures CallocSize(0x1_0000_0001, 0x1_0000_0001) == Some(0x2_0000_0001)
  {
    if a > 0 && b > 0 {
      Grows(1, a, b);
      Grows(1, b, a);
    }
  }

  // --------------------------------------------------- the code of malloc.c

  /** The first descriptor from `d` on whose blocks are large enough; `DESC_CNT` if there is none. */
  function Smallest(size: nat, d: nat): (r: nat)
    requires d <= DESC_CNT
    ensures d <= r <= DESC_CNT
    decreases DESC_CNT - d
  {
    if d == DESC_CNT || size <= BlockSize(d) then d else Smallest(size, d + 1)
  }

  /** There is no block for the request, and no page or run of pages to make one. */
  ghost predicate Exhausted(m: Kmem, size: nat)
    requires |m.lists| == DESC_CNT
  {
    var d := Smallest(size, 0);
    if d < DESC_CNT then m.lists[d] == [] && m.pages == {}
    else forall a :: a in m.pages ==> !(Run(a, PageCnt(size)) <= m.pages)
  }

  /** What a request gets: the front block of its list, or pages of its own. */
  ghost predicate Served(m: Kmem, m': Kmem, size: nat, p: nat)
    requires |m.lists| == |m'.lists| == DESC_CNT
  {
    var d := Smallest(size, 0);
    && InUse(m, p) == 0 && UseSet(m, m', p, InUse(m', p)) && size <= InUse(m', p)
    && InUse(m', p) == (if d < DESC_CNT then BlockSize(d) else PGSIZE * PageCnt(size) - HEADER)
    && (d < DESC_CNT && m.lists[d] != [] ==> p == m.lists[d][0])
  }

  lemma NoPages(pages: set<Page>)
    requires forall a :: a in pages ==> !(Run(a, 1) <= pages)
    ensures pages == {}
  {
    assert forall a: Page :: Run(a, 1) == Run(a, 0) + {a};
  }

  // ------------------------------------------------- pages are conserved

  /** Page `p` belongs to arena `a`. */
  ghost predicate InArena(m: Kmem, a: Page, p: Page) {
    a in m.arenas && a <= p < a + PagesOf(m.arenas[a])
  }

  /** The allocator has page `p`: it is free, or in a live arena. */
  ghost predicate Has(m: Kmem, p: Page) {
    p in m.pages || exists a: Page :: InArena(m, a, p)
  }

  /** A page is never free and in an arena, nor in two arenas. */
  lemma OnePlaceEach(m: Kmem, p: Page, a: Page, b: Page)
    requires Formed(m) && InArena(m, a, p)
    ensures p !in m.pages && (InArena(m, b, p) ==> a == b)
  {
    assert ArenaOk(m, a);
    hide ArenaOk, ListOk;
  }

  /** With no block in use there is no arena, so all pages are free. */
  lemma NothingInUse(m: Kmem)
    requires Valid(m) && forall x: nat :: InUse(m, x) == 0
    ensures m.arenas == map[] && forall p: Page :: Has(m, p) <==> p in m.pages
  {
    forall a | a in m.arenas
      ensures false
    {
      var x := SomeInUse(m, a);
    }
    assert m.arenas.Keys == {};
  }

  lemma SomeInUse(m: Kmem, a: Page) returns (x: nat)
    requires Valid(m) && a in m.arenas
    ensures InUse(m, x) > 0
  {
    assert ArenaOk(m, a) && NotWhollyFree(m, a);
    if m.arenas[a].owner.Big? {
      x := PGSIZE * a + HEADER;
      assert x / PGSIZE == a;
    } else {
      var d := m.arenas[a].owner.d;
      x := UnlistedBlock(m, a, d);
    }
  }

  /** An arena that is not wholly free has a block that is not listed. */
  lemma UnlistedBlock(m: Kmem, a: Page, d: nat) returns (x: nat)
    requires Formed(m) && a in m.arenas && d < DESC_CNT && m.arenas[a].owner == OfDesc(d) && m.arenas[a].freeCnt < PerArena(d)
    ensures IsBlock(a, d, x) && x !in m.lists[d] && x / PGSIZE == a
    ensures InUse(m, x) > 0
  {
    assert ArenaOk(m, a);
    if forall y :: y in AllBlocks(a, d) ==> y in m.lists[d] {
      AllOnPage(a, d);
      BlockCount(a, d, PerArena(d));
      SetLarger(AllBlocks(a, d), FreeOn(m.lists[d], a));
      assert false;
    }
    x :| x in AllBlocks(a, d) && x !in m.lists[d];
    AllOnPage(a, d);
  }

  /** No page has appeared or got lost. */
  ghost predicate Conserved(m: Kmem, m': Kmem) {
    forall p: Page :: Has(m', p) <==> Has(m, p)
  }

  lemma ConservedSame(m: Kmem)
    ensures Conserved(m, m)
  {
  }

  lemma BigTakes(m: Kmem, a: Page, n: nat)
    requires Formed(m) && 1 <= n && forall p :: a <= p < a + n ==> p in m.pages
    ensures Conserved(m, TakenRun(m, a, n)) && LessPages(m, TakenRun(m, a, n), (PGSIZE * a + HEADER) / PGSIZE)
  {
    assert (PGSIZE * a + HEADER) / PGSIZE == a;
    assert a in m.arenas ==> ArenaOk(m, a) && a in m.pages && 1 <= PagesOf(m.arenas[a]);
    ArenaTakesPages(m, TakenRun(m, a, n), a, Arena(Big, n));
  }

  /** Block `p` is the first of its arena's list, which is else as before. */
  ghost predicate AtFront(m: Kmem, m': Kmem, p: nat) {
    var a := p / PGSIZE;
    && a in m.arenas && a in m'.arenas && m.arenas[a].owner.OfDesc? && m.arenas[a].owner.d < |m.lists| == |m'.lists|
    && var d := m.arenas[a].owner.d;
    m'.lists == m.lists[d := [p] + m.lists[d]]
  }

  /** Of the blocks in use, `p` is the only one in its arena. */
  ghost predicate OnlyOne(m: Kmem, p: nat)
    requires |m.lists| == DESC_CNT
  {
    forall y: nat {:trigger InUse(m, y)} :: y != p && y / PGSIZE == p / PGSIZE ==> InUse(m, y) == 0
  }

  /** The free pages are as before, less those of arena `a`. */
  ghost predicate LessPages(m: Kmem, m': Kmem, a: Page) {
    forall q: Page :: q in m'.pages <==> q in m.pages && !InArena(m', a, q)
  }

  /** The free pages are as before, and those that arena `a` had if it is gone. */
  ghost predicate MorePages(m: Kmem, m': Kmem, a: Page, gone: bool) {
    forall q: Page :: q in m'.pages <==> q in m.pages || (gone && InArena(m, a, q))
  }

  lemma SamePages(m: Kmem, m': Kmem)
    requires m'.pages == m.pages && m'.arenas.Keys == m.arenas.Keys
    requires forall a :: a in m.arenas ==> PagesOf(m'.arenas[a]) == PagesOf(m.arenas[a])
    ensures Conserved(m, m') && forall a: Page, p: Page :: InArena(m', a, p) <==> InArena(m, a, p)
  {
    forall p: Page
      ensures Has(m', p) <==> Has(m, p)
    {
      assert forall a: Page :: InArena(m', a, p) <==> InArena(m, a, p);
    }
  }

  /** A new arena takes its pages from the free ones. */
  lemma ArenaTakesPages(m: Kmem, m': Kmem, a: Page, ar: Arena)
    requires a !in m.arenas && m'.arenas == m.arenas[a := ar] && m'.pages == m.pages - Run(a, PagesOf(ar))
    requires Run(a, PagesOf(ar)) <= m.pages
    ensures Conserved(m, m') && LessPages(m, m', a)
  {
    forall p: Page
      ensures Has(m', p) <==> Has(m, p)
    {
      assert InArena(m', a, p) <==> p in Run(a, PagesOf(ar));
      assert forall b: Page :: b != a ==> (InArena(m', b, p) <==> InArena(m, b, p));
      assert !InArena(m, a, p);
    }
  }

  /** An arena that goes leaves its pages free. */
  lemma ArenaGivesPages(m: Kmem, m': Kmem, a: Page)
    requires a in m.arenas && m'.arenas == m.arenas - {a} && m'.pages == m.pages + Run(a, PagesOf(m.arenas[a]))
    ensures Conserved(m, m') && MorePages(m, m', a, true)
  {
    forall p: Page
      ensures Has(m', p) <==> Has(m, p)
    {
      assert InArena(m, a, p) <==> p in Run(a, PagesOf(m.arenas[a]));
      assert forall b: Page :: b != a ==> (InArena(m', b, p) <==> InArena(m, b, p));
      assert !InArena(m', a, p);
    }
  }

  lemma PoppedPages(m: Kmem, d: nat)
    requires Formed(m) && d < DESC_CNT && m.lists[d] != [] && m.lists[d][0] / PGSIZE in m.arenas
    requires m.arenas[m.lists[d][0] / PGSIZE].owner == OfDesc(d) && Formed(Popped(m, d))
    ensures Conserved(m, Popped(m, d)) && LessPages(m, Popped(m, d), m.lists[d][0] / PGSIZE)
    ensures forall a: Page, p: Page :: InArena(Popped(m, d), a, p) <==> InArena(m, a, p)
  {
    var m', a := Popped(m, d), m.lists[d][0] / PGSIZE;
    SamePages(m, m');
    forall q: Page | q in m.pages
      ensures !InArena(m', a, q)
    {
      if InArena(m', a, q) {
        OnePlaceEach(m', q, a, a);
      }
    }
  }

  lemma NewArenaPages(m: Kmem, a: Page, d: nat)
    requires Formed(m) && d < DESC_CNT && a in m.pages
    ensures var m' := WithArena(m, a, d);
            Conserved(m, m') && LessPages(m, m', a) && m'.lists[d] != [] && m'.lists[d][0] / PGSIZE == a
  {
    var m' := WithArena(m, a, d);
    assert a in m.arenas ==> ArenaOk(m, a);
    assert Run(a, 1) == Run(a, 0) + {a};
    ArenaTakesPages(m, m', a, Arena(OfDesc(d), PerArena(d)));
    NewBlocks(a, d);
    BlocksInPage(a, d, 0);
    assert m'.lists[d][0] == BlockAt(a, d, 0);
  }

  lemma LessThrough(m: Kmem, m1: Kmem, m2: Kmem, a: Page)
    requires Conserved(m, m1) && LessPages(m, m1, a) && Conserved(m1, m2) && m2.pages == m1.pages
    requires forall p: Page :: InArena(m2, a, p) <==> InArena(m1, a, p)
    ensures Conserved(m, m2) && LessPages(m, m2, a)
  {
  }

  /** A block joins its arena's free ones; what else is in use there decides whether the arena goes. */
  lemma PushedPages(m: Kmem, d: nat, x: nat)
    requires Formed(m) && d < DESC_CNT && x / PGSIZE in m.arenas && m.arenas[x / PGSIZE].owner == OfDesc(d) && InUse(m, x) > 0
    requires Formed(Pushed(m, d, x)) && UseSet(m, Pushed(m, d, x), x, 0)
    ensures Conserved(m, Pushed(m, d, x)) && MorePages(m, Pushed(m, d, x), x / PGSIZE, false)
    ensures forall a: Page, p: Page :: InArena(Pushed(m, d, x), a, p) <==> InArena(m, a, p)
    ensures OnlyOne(m, x) <==> PerArena(d) <= Pushed(m, d, x).arenas[x / PGSIZE].freeCnt
  {
    var m', a := Pushed(m, d, x), x / PGSIZE;
    SamePages(m, m');
    CountBound(m', a, d);
    if PerArena(d) <= m'.arenas[a].freeCnt {
      forall y: nat | y != x && y / PGSIZE == a
        ensures InUse(m, y) == 0
      {
        assert InUse(m', y) == InUse(m, y);
        if IsBlock(a, d, y) {
          var i :| 0 <= i < PerArena(d) && y == BlockAt(a, d, i);
        }
      }
    } else {
      var y := UnlistedBlock(m', a, d);
      assert InUse(m', y) == if y == x then 0 else InUse(m, y);
    }
  }

  lemma DroppedPages(m: Kmem, m1: Kmem, a: Page, d: nat)
    requires d < DESC_CNT == |m1.lists| && a in m1.arenas && m1.arenas[a].owner == OfDesc(d)
    requires Conserved(m, m1) && m1.pages == m.pages && forall p: Page :: InArena(m1, a, p) <==> InArena(m, a, p)
    ensures Conserved(m, Dropped(m1, a, d)) && MorePages(m, Dropped(m1, a, d), a, true)
  {
    assert Run(a, 1) == Run(a, 0) + {a};
    ArenaGivesPages(m1, Dropped(m1, a, d), a);
  }

  lemma BigPages(m: Kmem, a: Page)
    requires a in m.arenas && m.arenas[a].owner.Big? && |m.lists| == DESC_CNT && 1 <= m.arenas[a].freeCnt
    ensures var m' := m.(arenas := m.arenas - {a}, pages := m.pages + Run(a, m.arenas[a].freeCnt));
            Conserved(m, m') && MorePages(m, m', a, true)
    ensures OnlyOne(m, PGSIZE * a + HEADER)
  {
    ArenaGivesPages(m, m.(arenas := m.arenas - {a}, pages := m.pages + Run(a, m.arenas[a].freeCnt)), a);
    assert (PGSIZE * a + HEADER) / PGSIZE == a;
  }

  lemma SetLarger(s: set<nat>, t: set<nat>)
    requires s <= t
    ensures |s| <= |t|
  {
    assert t == s + (t - s);
  }

  class Kernel {
    var arenas: map<Page, Arena>
    var lists: seq<seq<nat>>
    var pages: set<Page>
    ghost const pool: set<Page>

    /** The pages of the pool are all there, each free or in an arena. */
    ghost predicate AllThere()
      reads this
    {
      forall p: Page :: p in pool <==> Has(Now(), p)
    }

    /** When every block has been freed, the whole pool is free again. */
    lemma AllBack()
      requires Valid(Now()) && AllThere() && forall x: nat :: InUse(Now(), x) == 0
      ensures pages == pool && arenas == map[]
    {
      NothingInUse(Now());
      assert forall p: Page :: p in pool <==> Has(Now(), p);
    }

    function Now(): Kmem
      reads this
    {
      Kmem(arenas, lists, pages)
    }

    /** `malloc_init`, over the free pages of the pool. */
    constructor (pool: set<Page>)
      ensures Valid(Now()) && AllThere() && this.pool == pages == pool && forall x: nat :: InUse(Now(), x) == 0
    {
      arenas, lists, pages := map[], [[], [], [], [], [], [], []], pool;
      this.pool := pool;
    }

    /** `palloc_get_multiple`: some run of `n` free pages. */
    method GetPages(n: nat) returns (r: Option<Page>)
      requires n > 0
      ensures r.Some? ==> r.value in pages && Run(r.value, n) <= pages && forall p :: r.value <= p < r.value + n ==> p in pages
      ensures r.None? ==> forall a :: a in pages ==> !(Run(a, n) <= pages)
    {
      if a :| a in pages && Run(a, n) <= pages {
        return Some(a);
      }
      r := None;
    }

    /** The first descriptor whose blocks are large enough, or the number of descriptors. */
    method FindDesc(size: nat) returns (d: nat)
      ensures d == Smallest(size, 0) && (d == DESC_CNT <==> 1024 < size)
      ensures d < DESC_CNT ==> size <= BlockSize(d) && forall e :: 0 <= e < d ==> BlockSize(e) < size
    {
      d := 0;
      while d < DESC_CNT && BlockSize(d) < size
        invariant d <= DESC_CNT && forall e :: 0 <= e < d ==> BlockSize(e) < size
        invariant Smallest(size, 0) == Smallest(size, d)
      {
        d := d + 1;
      }
      assert BlockSize(6) == 1024 && (d < DESC_CNT ==> BlockSize(d) <= 1024);
    }

    /** Null exactly for size 0 and for want of pages; otherwise a block that was not in use, large enough. */
    method Malloc(size: nat) returns (p: nat)
      requires Valid(Now()) && size + HEADER + PGSIZE - 1 < SIZE_LIMIT
      modifies this
      ensures Valid(Now())
      ensures p == 0 ==> Now() == old(Now())
      ensures p == 0 <==> size == 0 || Exhausted(old(Now()), size)
      ensures p != 0 ==> Served(old(Now()), Now(), size, p)
      ensures p != 0 ==> LessPages(old(Now()), Now(), p / PGSIZE)
      ensures Conserved(old(Now()), Now()) && (old(AllThere()) ==> AllThere())
    {
      hide Has, InArena, LessPages, Conserved, Valid, Formed, UseSet, InUse, ArenaOk, ListOk, PerArena, NotWhollyFree;
      ghost var m := Now();
      ValidIsFormed(m);
      ConservedSame(m);
      StillThere(m);
      if size == 0 {
        return 0;
      }
      var d := FindDesc(size);
      if d == DESC_CNT {
        p := MallocBig(size);
        StillThere(m);
        return;
      }
      if lists[d] == [] {
        var page := GetPages(1);
        if page.None? {
          NoPages(pages);
          return 0;
        }
        assert page.value in pages;
        NewArenaPages(m, page.value, d);
        NewArena(page.value, d);
      }
      ghost var m1 := Now();
      PoppedFormed(m1, d);
      PoppedPages(m1, d);
      if m1 != m {
        LessThrough(m, m1, Popped(m1, d), m1.lists[d][0] / PGSIZE);
      }
      PoppedValid(m1, d);
      p := lists[d][0];
      lists := lists[d := lists[d][1..]];
      var a := p / PGSIZE;
      arenas := arenas[a := arenas[a].(freeCnt := arenas[a].freeCnt - 1)];
      NotNull(m1, d);
      UseAfter(m, m1, Now(), p, BlockSize(d));
      StillThere(m);
    }

    twostate lemma StillThere(m: Kmem)
      requires m == old(Now()) && Conserved(m, Now())
      ensures old(AllThere()) ==> AllThere()
    {
    }

    method MallocBig(size: nat) returns (p: nat)
      requires Valid(Now()) && 1024 < size && size + HEADER + PGSIZE - 1 < SIZE_LIMIT
      modifies this
      ensures Valid(Now())
      ensures p == 0 ==> Now() == old(Now())
      ensures p == 0 <==> forall a :: a in old(pages) ==> !(Run(a, PageCnt(size)) <= old(pages))
      ensures p != 0 ==>
                && InUse(old(Now()), p) == 0 && size <= InUse(Now(), p) && UseSet(old(Now()), Now(), p, InUse(Now(), p))
                && InUse(Now(), p) == PGSIZE * PageCnt(size) - HEADER
      ensures p != 0 ==> LessPages(old(Now()), Now(), p / PGSIZE)
      ensures Conserved(old(Now()), Now())
    {
      hide Has, InArena, LessPages, Conserved, Valid, UseSet, InUse;
      ConservedSame(Now());
      ValidIsFormed(Now());
      PageCntIsEnough(size);
      var n := PageCnt(size);
      var page := GetPages(n);
      if page.None? {
        return 0;
      }
      BigValid(Now(), page.value, n);
      BigTakes(Now(), page.value, n);
      arenas := arenas[page.value := Arena(Big, n)];
      pages := pages - Run(page.value, n);
      p := PGSIZE * page.value + HEADER;
      UseIs(old(Now()), Now(), p, PGSIZE * n - HEADER);
    }

    method NewArena(a: Page, d: nat)
      requires Valid(Now()) && d < DESC_CNT && lists[d] == [] && a in pages
      modifies this
      ensures Now() == WithArena(old(Now()), a, d) && Formed(Now()) && lists[d] != []
      ensures forall b :: b in arenas && b != lists[d][0] / PGSIZE ==> NotWhollyFree(Now(), b)
      ensures forall y: nat {:trigger InUse(Now(), y)} :: InUse(Now(), y) == InUse(old(Now()), y)
    {
      hide Formed, InUse;
      ghost var m := Now();
      ValidIsFormed(m);
      ArenaFormed(m, a, d);
      ArenaUnused(m, a, d);
      NewBlocks(a, d);
      pages := pages - {a};
      arenas := arenas[a := Arena(OfDesc(d), PerArena(d))];
      var i := 0;
      while i < PerArena(d)
        invariant 0 <= i <= PerArena(d)
        invariant arenas == m.arenas[a := Arena(OfDesc(d), PerArena(d))] && pages == m.pages - {a}
        invariant |lists| == DESC_CNT && lists == m.lists[d := BlocksFrom(a, d, i)]
      {
        lists := lists[d := lists[d] + [BlockAt(a, d, i)]];
        i := i + 1;
        assert lists[d] == BlocksFrom(a, d, i);
      }
      assert lists[d][0] in lists[d];
      OldArenas(m, a, d);
    }

    /** `p` must be in use.  If it is the only block in use of its arena, the arena's pages, and no
        others, are free again; otherwise the block goes to the front of its list, and no page is. */
    method Free(p: nat)
      requires Valid(Now()) && (p != 0 ==> InUse(Now(), p) > 0)
      modifies this
      ensures Valid(Now()) && UseSet(old(Now()), Now(), p, 0)
      ensures p == 0 ==> Now() == old(Now())
      ensures p != 0 ==> MorePages(old(Now()), Now(), p / PGSIZE, OnlyOne(old(Now()), p))
      ensures p != 0 && !OnlyOne(old(Now()), p) ==> AtFront(old(Now()), Now(), p)
      ensures Conserved(old(Now()), Now()) && (old(AllThere()) ==> AllThere())
    {
      hide Has, InArena, MorePages, Conserved, OnlyOne, Valid, Formed, UseSet, InUse, ArenaOk, ListOk, PerArena, NotWhollyFree;
      ghost var m := Now();
      if p == 0 {
        NullUnused(m);
        ConservedSame(m);
        return;
      }
      UsedArena(m, p);
      var a := p / PGSIZE;
      if arenas[a].owner.Big? {
        BigFreed(m, a);
        BigCount(m, a);
        BigPages(m, a);
        pages := pages + Run(a, arenas[a].freeCnt);
        arenas := arenas - {a};
        StillThere(m);
        return;
      }
      var d := arenas[a].owner.d;
      PushedFormed(m, d, p);
      PushedUse(m, d, p);
      PushedPages(m, d, p);
      lists := lists[d := [p] + lists[d]];
      arenas := arenas[a := arenas[a].(freeCnt := arenas[a].freeCnt + 1)];
      ghost var m1 := Now();
      CountBound(m1, a, d);
      if arenas[a].freeCnt >= PerArena(d) {
        DroppedPages(m, m1, a, d);
        DropArena(a, d);
        DroppedUse(m1, a, d);
        DroppedValid(m, d, p, m1);
        UseSame(m, m1, Now(), p);
      } else {
        PushedValid(m, d, p, m1);
      }
      StillThere(m);
    }

    lemma BigCount(m: Kmem, a: Page)
      requires Valid(m) && a in m.arenas && m.arenas[a].owner.Big?
      ensures 1 <= m.arenas[a].freeCnt
    {
      assert ArenaOk(m, a);
    }

    method DropArena(a: Page, d: nat)
      requires Formed(Now()) && d < DESC_CNT && a in arenas && arenas[a] == Arena(OfDesc(d), PerArena(d))
      modifies this
      ensures Now() == Dropped(old(Now()), a, d) && Formed(Now())
    {
      hide Formed, Distinct, Minus;
      ghost var m := Now();
      FormedSize(m);
      CountBound(m, a, d);
      DroppedFormed(m, a, d);
      MinusNothing(m.lists[d]);
      var i := 0;
      ghost var gone: set<nat> := {};
      while i < PerArena(d)
        invariant 0 <= i <= PerArena(d)
        invariant gone == set j | 0 <= j < i :: BlockAt(a, d, j)
        invariant lists == m.lists[d := Minus(m.lists[d], gone)] && arenas == m.arenas && pages == m.pages
      {
        var x := BlockAt(a, d, i);
        StillListed(m.lists[d], gone, a, d, i);
        RemoveElem(d, x);
        MinusTwice(m.lists[d], gone, {x});
        assert (set j | 0 <= j < i + 1 :: BlockAt(a, d, j)) == gone + {x};
        gone := gone + {x};
        i := i + 1;
      }
      assert gone == AllBlocks(a, d);
      arenas := arenas - {a};
      pages := pages + {a};
    }

    /** `list_remove`, which needs its argument to be on the list. */
    method RemoveElem(d: nat, x: nat)
      requires d < |lists| && x in lists[d]
      modifies this`lists
      ensures lists == old(lists)[d := Minus(old(lists)[d], {x})]
    {
      lists := lists[d := Minus(lists[d], {x})];
    }
  }

  lemma ValidIsFormed(m: Kmem)
    requires Valid(m)
    ensures Formed(m) && |m.lists| == DESC_CNT && forall a :: a in m.arenas ==> NotWhollyFree(m, a)
  {
  }

  lemma FormedSize(m: Kmem)
    requires Formed(m)
    ensures |m.lists| == DESC_CNT
  {
  }

  lemma NotNull(m: Kmem, d: nat)
    requires Formed(m) && d < DESC_CNT && m.lists[d] != []
    ensures m.lists[d][0] != 0
  {
    assert ListOk(m, d) && m.lists[d][0] in m.lists[d];
  }

  lemma UseAfter(m: Kmem, m1: Kmem, m2: Kmem, x: nat, n: nat)
    requires |m.lists| == |m1.lists| == |m2.lists| == DESC_CNT
    requires forall y: nat {:trigger InUse(m1, y)} :: InUse(m1, y) == InUse(m, y)
    requires UseSet(m1, m2, x, n) && InUse(m1, x) == 0
    ensures UseSet(m, m2, x, InUse(m2, x)) && InUse(m2, x) == n && InUse(m, x) == 0
  {
    hide InUse;
  }

  lemma UseIs(m: Kmem, m': Kmem, x: nat, n: nat)
    requires |m.lists| == |m'.lists| == DESC_CNT && UseSet(m, m', x, n)
    ensures InUse(m', x) == n && UseSet(m, m', x, InUse(m', x))
  {
    hide InUse;
  }

  lemma UseSame(m: Kmem, m1: Kmem, m2: Kmem, x: nat)
    requires |m.lists| == |m1.lists| == |m2.lists| == DESC_CNT && UseSet(m, m1, x, 0)
    requires forall y: nat {:trigger InUse(m2, y)} :: InUse(m2, y) == InUse(m1, y)
    ensures UseSet(m, m2, x, 0)
  {
    hide InUse;
  }

  lemma OldArenas(m: Kmem, a: Page, d: nat)
    requires Valid(m) && d < DESC_CNT
    ensures forall b :: b in WithArena(m, a, d).arenas && b != a ==> NotWhollyFree(WithArena(m, a, d), b)
  {
    assert forall b :: b in m.arenas ==> NotWhollyFree(m, b);
  }

  lemma NullUnused(m: Kmem)
    requires Valid(m)
    ensures UseSet(m, m, 0, 0)
  {
    assert 0 in m.arenas ==> ArenaOk(m, 0);
  }

  lemma UsedArena(m: Kmem, x: nat)
    requires Valid(m) && InUse(m, x) > 0
    ensures Formed(m) && |m.lists| == DESC_CNT && x / PGSIZE in m.arenas
    ensures m.arenas[x / PGSIZE].owner.OfDesc? ==> m.arenas[x / PGSIZE].owner.d < DESC_CNT
    ensures m.arenas[x / PGSIZE].owner.Big? ==> x == PGSIZE * (x / PGSIZE) + HEADER
  {
    assert x / PGSIZE in m.arenas ==> ArenaOk(m, x / PGSIZE);
  }

  lemma PushedValid(m: Kmem, d: nat, x: nat, m1: Kmem)
    requires Valid(m) && d < DESC_CNT && x / PGSIZE in m.arenas && m1 == Pushed(m, d, x) && Formed(m1)
    requires m.arenas[x / PGSIZE].owner == OfDesc(d) && m1.arenas[x / PGSIZE].freeCnt < PerArena(d)
    ensures Valid(m1)
  {
    forall a | a in m1.arenas
      ensures NotWhollyFree(m1, a)
    {
      assert NotWhollyFree(m, a);
    }
  }

  lemma DroppedValid(m: Kmem, d: nat, x: nat, m1: Kmem)
    requires Valid(m) && d < DESC_CNT && x / PGSIZE in m.arenas && m1 == Pushed(m, d, x)
    requires Formed(Dropped(m1, x / PGSIZE, d))
    ensures Valid(Dropped(m1, x / PGSIZE, d))
  {
    var m2 := Dropped(m1, x / PGSIZE, d);
    forall a | a in m2.arenas
      ensures NotWhollyFree(m2, a)
    {
      assert NotWhollyFree(m, a);
    }
  }

  lemma {:induction false} MinusNothing(list: seq<nat>)
    ensures Minus(list, {}) == list
  {
    if list != [] {
      MinusNothing(list[1..]);
      assert list == [list[0]] + list[1..];
    }
  }

  lemma StillListed(list: seq<nat>, gone: set<nat>, a: Page, d: nat, i: nat)
    requires d < DESC_CNT && BlockAt(a, d, i) in list && gone == set j | 0 <= j < i :: BlockAt(a, d, j)
    ensures BlockAt(a, d, i) in Minus(list, gone)
  {
    MinusMembers(list, gone);
    forall j | 0 <= j < i
      ensures BlockAt(a, d, j) != BlockAt(a, d, i)
    {
      BlocksApart(a, d, j, i);
    }
  }
}
