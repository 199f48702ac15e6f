/** threads/mmu.c: the four-level page table of a user process, kept in pages
    of 512 eight-byte entries.  A page is named by its number; an entry holds
    4096 times a page number plus flag bits. */
module PageTables {
  import opened Arithmetic64

  type Page = nat

  const ENTRIES := 512
  const PGSIZE := 4096
  const USER_TOP := 0x80_0000_0000     // 2^39: the first top-level entry
  const SCRIBBLE := 0xcccc_cccc_cccc_cccc

  datatype Option<T> = None | Some(value: T)

  /** Where a table hangs: the root, or below another table's entry. */
  datatype Path = Root | Sub(up: Path, i: nat)

  function Depth(q: Path): nat {
    if q.Root? then 0 else Depth(q.up) + 1
  }

  predicate Present(e: nat) {
    e % 2 == 1
  }

  /** `PTE_ADDR`, as a page number. */
  function PageIn(e: nat): Page {
    e / PGSIZE
  }

  /** `vtop (new_page) | PTE_U | PTE_W | PTE_P`. */
  function TableEntry(p: Page): nat {
    PGSIZE * p + 7
  }

  lemma TableEntryReads(p: Page)
    ensures Present(TableEntry(p)) && PageIn(TableEntry(p)) == p
  {
  }

  /** Bit `k` of an entry. */
  predicate Bit(e: nat, k: nat) {
    if k == 0 then e % 2 == 1 else Bit(e / 2, k - 1)
  }

  /** A table is entered as present, writable and for users, and nothing else. */
  lemma TableEntryMeans(p: Page)
    ensures PageIn(TableEntry(p)) == p && Present(TableEntry(p))
    ensures forall k: nat :: k < 12 ==> (Bit(TableEntry(p), k) <==> k == 0 || k == 1 || k == 2)
  {
    FlagBits(TableEntry(p), p, true);
  }

  ghost function Doubled(x: nat, n: nat): nat {
    if n == 0 then x else 2 * Doubled(x, n - 1)
  }

  lemma {:induction false} LowBitsClear(x: nat, n: nat, k: nat)
    requires k < n
    ensures !Bit(Doubled(x, n), k)
  {
    assert Doubled(x, n) / 2 == Doubled(x, n - 1);
    if k > 0 {
      LowBitsClear(x, n - 1, k - 1);
    }
  }

  lemma Doubled9(x: nat)
    ensures Doubled(x, 9) == 512 * x
  {
    assert Doubled(x, 1) == 2 * x;
    assert Doubled(x, 3) == 4 * Doubled(x, 1);
    assert Doubled(x, 5) == 4 * Doubled(x, 3);
    assert Doubled(x, 7) == 4 * Doubled(x, 5);
    assert Doubled(x, 9) == 4 * Doubled(x, 7);
  }

  /** The flags of a new entry, bit by bit. */
  lemma FlagBits(e: nat, frame: Page, w: bool)
    requires e == PGSIZE * frame + 5 + if w then 2 else 0
    ensures forall k: nat :: k < 12 ==> (Bit(e, k) <==> k == 0 || k == 2 || (k == 1 && w))
  {
    var e1, e2, e3 := 2048 * frame + 2 + (if w then 1 else 0), 1024 * frame + 1, 512 * frame;
    assert e / 2 == e1 && e1 / 2 == e2 && e2 / 2 == e3;
    assert e % 2 == 1 && (e1 % 2 == 1 <==> w) && e2 % 2 == 1;
    forall k: nat | k < 12
      ensures Bit(e, k) <==> k == 0 || k == 2 || (k == 1 && w)
    {
      if k > 0 {
        assert Bit(e, k) == Bit(e1, k - 1);
        if k > 1 {
          assert Bit(e1, k - 1) == Bit(e2, k - 2);
          if k > 2 {
            assert Bit(e2, k - 2) == Bit(e3, k - 3);
            Doubled9(frame);
            LowBitsClear(frame, 9, k - 3);
          }
        }
      }
    }
  }

  // ------------------------------------------------------------ invariants

  /** Memory, the free pages, and the tables reachable from the root's user entry. */
  datatype Space = Space(mem: map<Page, seq<nat>>, free: set<Page>, root: Page, nodes: map<Path, Page>)

  ghost predicate NodeOk(s: Space, q: Path)
    requires q in s.nodes
  {
    && Depth(q) <= 3
    && (q.Sub? ==> q.up in s.nodes && q.i < ENTRIES && (q.up.Root? ==> q.i == 0))
    && s.nodes[q] in s.mem && |s.mem[s.nodes[q]]| == ENTRIES && s.nodes[q] !in s.free
  }

  /** Entry `i` of an upper table says whether there is a table below it, and which. */
  ghost predicate EntryOk(s: Space, q: Path, i: nat)
    requires q in s.nodes && s.nodes[q] in s.mem && i < |s.mem[s.nodes[q]]|
  {
    s.mem[s.nodes[q]][i] == if Sub(q, i) in s.nodes then TableEntry(s.nodes[Sub(q, i)]) else 0
  }

  ghost predicate Apart(s: Space) {
    forall q, q' :: q in s.nodes && q' in s.nodes && q != q' ==> s.nodes[q] != s.nodes[q']
  }

  /** The tables form a tree over the user half, each page used once and none of them free. */
  ghost predicate Tree(s: Space) {
    && Root in s.nodes && s.nodes[Root] == s.root && Apart(s)
    && (forall p :: p in s.free ==> p in s.mem)
    && (forall q {:trigger NodeOk(s, q)} :: q in s.nodes ==> NodeOk(s, q))
    && (forall q, i: nat {:trigger EntryOk(s, q, i)} ::
          q in s.nodes && Depth(q) < 3 && i < ENTRIES && (q.Root? ==> i == 0) && NodeOk(s, q) ==> EntryOk(s, q, i))
  }

  /** The entry for a page of user memory: 0 where there is no table for it. */
  ghost function EntryAt(s: Space, q: Path, i: nat): nat {
    if q in s.nodes && s.nodes[q] in s.mem && i < |s.mem[s.nodes[q]]| then s.mem[s.nodes[q]][i] else 0
  }

  /** Every page of user memory maps as before. */
  ghost predicate SameMap(s: Space, s': Space) {
    forall q, i: nat {:trigger EntryAt(s', q, i)} :: Depth(q) == 3 ==> EntryAt(s', q, i) == EntryAt(s, q, i)
  }

  /** Tables, free pages and the contents of all other pages are exactly as before. */
  ghost predicate Restored(s: Space, s': Space) {
    && s'.nodes == s.nodes && s'.free == s.free && s'.root == s.root && s'.mem.Keys == s.mem.Keys
    && forall p :: p in s.mem && p !in s.free ==> s'.mem[p] == s.mem[p]
  }

  // ----------------------------------------------------- steps of the walk

  function Filled(e: nat): (page: seq<nat>)
    ensures |page| == ENTRIES && forall i :: 0 <= i < ENTRIES ==> page[i] == e
  {
    seq(ENTRIES, i => e)
  }

  function With(table: seq<nat>, i: nat, e: nat): seq<nat>
    requires i < |table|
  {
    table[i := e]
  }

  /** A new table hung below entry `i` of `q`. */
  function Grown(s: Space, q: Path, i: nat, p: Page): Space
    requires q in s.nodes && s.nodes[q] in s.mem && i < |s.mem[s.nodes[q]]|
  {
    Space(s.mem[p := Filled(0)][s.nodes[q] := s.mem[s.nodes[q]][i := TableEntry(p)]],
          s.free - {p}, s.root, s.nodes[Sub(q, i) := p])
  }

  /** `s'` is `s` with an empty table `p` below entry `i` of `q`. */
  ghost predicate Hung(s: Space, q: Path, i: nat, p: Page, s': Space) {
    && q in s.nodes && s.nodes[q] in s.mem && i < |s.mem[s.nodes[q]]| == ENTRIES
    && p in s.free && p in s.mem && p != s.nodes[q] && Sub(q, i) !in s.nodes
    && s'.root == s.root && s'.free == s.free - {p}
    && (forall x :: x in s'.nodes <==> x in s.nodes || x == Sub(q, i))
    && (forall x :: x in s.nodes ==> s'.nodes[x] == s.nodes[x]) && s'.nodes[Sub(q, i)] == p
    && (forall x :: x in s'.mem <==> x in s.mem)
    && (forall x :: x in s.mem && x != p && x != s.nodes[q] ==> s'.mem[x] == s.mem[x])
    && s'.mem[p] == Filled(0) && s'.mem[s.nodes[q]] == s.mem[s.nodes[q]][i := TableEntry(p)]
  }

  lemma GrownHung(s: Space, q: Path, i: nat, p: Page)
    requires Tree(s) && q in s.nodes && NodeOk(s, q) && i < ENTRIES && Sub(q, i) !in s.nodes && p in s.free
    ensures Hung(s, q, i, p, Grown(s, q, i, p))
  {
  }

  lemma HungNodes(s: Space, q: Path, i: nat, p: Page, s': Space)
    requires Tree(s) && Hung(s, q, i, p, s') && Depth(q) < 3 && (q.Root? ==> i == 0)
    ensures Apart(s') && forall x :: x in s'.nodes ==> NodeOk(s', x)
  {
    assert forall x :: x in s.nodes ==> NodeOk(s, x);
    forall x | x in s'.nodes
      ensures NodeOk(s', x)
    {
      if x in s.nodes {
        assert NodeOk(s, x);
      }
    }
  }

  lemma HungEntries(s: Space, q: Path, i: nat, p: Page, s': Space, x: Path, j: nat)
    requires Tree(s) && Hung(s, q, i, p, s') && x in s'.nodes && Depth(x) < 3 && j < ENTRIES && (x.Root? ==> j == 0)
    requires NodeOk(s', x)
    ensures EntryOk(s', x, j)
  {
    if x == Sub(q, i) {
      assert Sub(x, j) in s.nodes ==> NodeOk(s, Sub(x, j));
    } else {
      assert NodeOk(s, x) && EntryOk(s, x, j);
      assert x != q ==> s.nodes[x] != s.nodes[q];
      assert Sub(x, j) in s.nodes ==> NodeOk(s, Sub(x, j));
    }
  }

  lemma HungSame(s: Space, q: Path, i: nat, p: Page, s': Space)
    requires Tree(s) && Hung(s, q, i, p, s') && Depth(q) < 3
    ensures SameMap(s, s')
  {
    forall x, j: nat | Depth(x) == 3
      ensures EntryAt(s', x, j) == EntryAt(s, x, j)
    {
      if x in s.nodes {
        assert NodeOk(s, x) && s.nodes[x] != s.nodes[q];
      }
    }
  }

  lemma HungTree(s: Space, q: Path, i: nat, p: Page, s': Space)
    requires Tree(s) && Hung(s, q, i, p, s') && Depth(q) < 3 && (q.Root? ==> i == 0)
    ensures Tree(s') && SameMap(s, s')
  {
    HungNodes(s, q, i, p, s');
    HungSame(s, q, i, p, s');
    forall x, j: nat | x in s'.nodes && Depth(x) < 3 && j < ENTRIES && (x.Root? ==> j == 0) && NodeOk(s', x)
      ensures EntryOk(s', x, j)
    {
      HungEntries(s, q, i, p, s', x, j);
    }
    hide NodeOk, EntryOk, Apart, SameMap, EntryAt;
  }

  /** Unhooking the table again and freeing its page undoes it, whatever the freed page now holds. */
  lemma Unhung(s: Space, q: Path, i: nat, p: Page, s1: Space, s2: Space, page: seq<nat>)
    requires Tree(s) && Hung(s, q, i, p, s1) && Depth(q) < 3 && (q.Root? ==> i == 0)
    requires Restored(s1, s2)
    ensures s.nodes[q] in s2.mem && |s2.mem[s.nodes[q]]| == ENTRIES && p !in s2.free && p in s2.mem
    ensures s2.mem[s.nodes[q]][i] == TableEntry(p)
    ensures var s3 := Space(s2.mem[p := page][s.nodes[q] := s2.mem[s.nodes[q]][i := 0]], s2.free + {p}, s.root, s.nodes);
            Restored(s, s3)
  {
    assert NodeOk(s, q) && EntryOk(s, q, i);
    var s3 := Space(s2.mem[p := page][s.nodes[q] := s2.mem[s.nodes[q]][i := 0]], s2.free + {p}, s.root, s.nodes);
    assert s3.mem[s.nodes[q]] == s.mem[s.nodes[q]];
  }

  lemma RestoredTree(s: Space, s': Space)
    requires Tree(s) && Restored(s, s')
    ensures Tree(s') && SameMap(s, s')
  {
    forall q | q in s'.nodes
      ensures NodeOk(s', q) && s'.mem[s.nodes[q]] == s.mem[s.nodes[q]]
    {
      assert NodeOk(s, q);
    }
    forall q, i: nat | q in s'.nodes && Depth(q) < 3 && i < ENTRIES && (q.Root? ==> i == 0) && NodeOk(s', q)
      ensures EntryOk(s', q, i)
    {
      assert NodeOk(s, q) && EntryOk(s, q, i);
    }
  }

  /** The table that holds the entry for the last index. */
  function Bottom(q: Path, idxs: seq<nat>): Path
    requires idxs != []
    decreases |idxs|
  {
    if |idxs| == 1 then q else Bottom(Sub(q, idxs[0]), idxs[1..])
  }

  /** How many tables a walk through `idxs` would have to add. */
  function Missing(nodes: map<Path, Page>, q: Path, idxs: seq<nat>): nat
    requires idxs != []
    decreases |idxs|
  {
    if |idxs| == 1 then 0
    else if Sub(q, idxs[0]) in nodes then Missing(nodes, Sub(q, idxs[0]), idxs[1..])
    else |idxs| - 1
  }

  lemma {:induction false} NothingBelow(s: Space, q: Path, idxs: seq<nat>)
    requires Tree(s) && q !in s.nodes && idxs != []
    ensures Bottom(q, idxs) !in s.nodes && Missing(s.nodes, q, idxs) == |idxs| - 1
    decreases |idxs|
  {
    if |idxs| > 1 {
      assert Sub(q, idxs[0]) in s.nodes ==> NodeOk(s, Sub(q, idxs[0]));
      NothingBelow(s, Sub(q, idxs[0]), idxs[1..]);
    }
  }

  /** A new table has no tables below it. */
  lemma MissingBelow(s: Space, q: Path, i: nat, p: Page, s': Space, idxs: seq<nat>)
    requires Tree(s) && Hung(s, q, i, p, s') && idxs != []
    ensures Missing(s'.nodes, Sub(q, i), idxs) == |idxs| - 1
  {
    if |idxs| > 1 {
      var x := Sub(Sub(q, i), idxs[0]);
      assert x in s.nodes ==> NodeOk(s, x);
    }
  }

  lemma Child(s: Space, q: Path, i: nat)
    requires Tree(s) && q in s.nodes && Depth(q) < 3 && i < ENTRIES && (q.Root? ==> i == 0)
    ensures s.nodes[q] in s.mem && |s.mem[s.nodes[q]]| == ENTRIES && NodeOk(s, q) && s.nodes[q] !in s.free
    ensures var e := s.mem[s.nodes[q]][i];
            && (Present(e) <==> Sub(q, i) in s.nodes)
            && (Present(e) ==> PageIn(e) == s.nodes[Sub(q, i)])
  {
    assert NodeOk(s, q) && EntryOk(s, q, i);
    if Sub(q, i) in s.nodes {
      TableEntryReads(s.nodes[Sub(q, i)]);
    }
  }

  class Mmu {
    const root: Page
    var mem: map<Page, seq<nat>>
    var free: set<Page>
    ghost var nodes: map<Path, Page>

    ghost function Now(): Space
      reads this
    {
      Space(mem, free, root, nodes)
    }

    constructor (root: Page, mem: map<Page, seq<nat>>, free: set<Page>)
      requires root in mem && |mem[root]| == ENTRIES && mem[root][0] == 0 && root !in free && forall p :: p in free ==> p in mem
      ensures Tree(Now()) && this.root == root && this.mem == mem && this.free == free && nodes == map[Root := root]
    {
      this.root, this.mem, this.free, nodes := root, mem, free, map[Root := root];
    }

    /** `palloc_get_page (PAL_ZERO)`: some free page, cleared. */
    method GetPage() returns (r: Option<Page>)
      modifies this`mem, this`free
      ensures r.None? <==> old(free) == {}
      ensures r.None? ==> mem == old(mem) && free == old(free)
      ensures r.Some? ==> r.value in old(free) && free == old(free) - {r.value} && mem == old(mem)[r.value := Filled(0)]
    {
      if free == {} {
        return None;
      }
      var p :| p in free;
      free := free - {p};
      mem := mem[p := Filled(0)];
      r := Some(p);
    }

    /** `palloc_free_page`, which overwrites the page; a page must not be freed twice. */
    method FreePage(p: Page)
      requires p !in free
      modifies this`mem, this`free
      ensures free == old(free) + {p} && mem == old(mem)[p := Filled(SCRIBBLE)]
    {
      mem := mem[p := Filled(SCRIBBLE)];
      free := free + {p};
    }

    method Store(p: Page, i: nat, e: nat)
      requires p in mem && i < |mem[p]|
      modifies this`mem
      ensures mem == old(mem)[p := With(old(mem)[p], i, e)]
    {
      mem := mem[p := With(mem[p], i, e)];
    }

    /** A new table below entry `i`, if there is a page for it. */
    method AddTable(table: Page, i: nat, ghost q: Path) returns (ok: bool, ghost p: Page)
      requires Tree(Now()) && q in nodes && nodes[q] == table && Depth(q) < 3 && i < ENTRIES && (q.Root? ==> i == 0)
      requires Sub(q, i) !in nodes
      modifies this`mem, this`free, this`nodes
      ensures ok <==> old(free) != {}
      ensures !ok ==> Now() == old(Now())
      ensures ok ==> Hung(old(Now()), q, i, p, Now()) && Tree(Now()) && SameMap(old(Now()), Now()) && |free| == |old(free)| - 1
    {
      hide Tree, SameMap, Hung, NodeOk, EntryAt;
      ghost var s := Now();
      Child(s, q, i);
      var page := GetPage();
      if page.None? {
        return false, 0;
      }
      GrownHung(s, q, i, page.value);
      Store(table, i, TableEntry(page.value));
      nodes := nodes[Sub(q, i) := page.value];
      HungTree(s, q, i, page.value, Now());
      return true, page.value;
    }

    /** The rollback of a walk that failed further down. */
    method DropTable(table: Page, i: nat, ghost q: Path, ghost p: Page, ghost s: Space, ghost s1: Space)
      requires Tree(s) && Hung(s, q, i, p, s1) && Depth(q) < 3 && (q.Root? ==> i == 0) && s.root == root && s.nodes[q] == table
      requires Restored(s1, Now())
      modifies this`mem, this`free, this`nodes
      ensures Restored(s, Now()) && Tree(Now()) && SameMap(s, Now()) && nodes == s.nodes
    {
      Unhung(s, q, i, p, s1, Now(), Filled(SCRIBBLE));
      hide Tree, SameMap, Hung, NodeOk, EntryAt, Restored;
      TableEntryReads(p);
      FreePage(PageIn(mem[table][i]));
      Store(table, i, 0);
      nodes := s.nodes;
      RestoredTree(s, Now());
    }

    /** `pml4e_walk`, `pdpe_walk` and `pgdir_walk` for 4, 3 and 2 indices: the place
        of the entry for the last index, adding tables if `create` says so. */
    method Walk(table: Page, idxs: seq<nat>, create: bool, ghost q: Path) returns (r: Option<(Page, nat)>)
      requires Tree(Now()) && q in nodes && nodes[q] == table && idxs != [] && Depth(q) + |idxs| == 4
      requires (forall k :: 0 <= k < |idxs| ==> idxs[k] < ENTRIES) && (q.Root? ==> idxs[0] == 0)
      modifies this`mem, this`free, this`nodes
      ensures Tree(Now()) && SameMap(old(Now()), Now())
      ensures r.Some? ==> Extends(old(nodes), nodes) && r.value.1 == idxs[|idxs| - 1]
                          && Bottom(q, idxs) in nodes && nodes[Bottom(q, idxs)] == r.value.0
      ensures r.None? ==> Restored(old(Now()), Now()) && Bottom(q, idxs) !in nodes
      ensures !create ==> Now() == old(Now())
      ensures create ==> (r.None? <==> |old(free)| < Missing(old(nodes), q, idxs))
      decreases |idxs|
    {
      hide Tree, SameMap, Hung, Restored, NodeOk, EntryAt, Extends;
      ghost var s := Now();
      SameSpace(s);
      if |idxs| == 1 {
        return Some((table, idxs[0]));
      }
      var i := idxs[0];
      Child(s, q, i);
      var added := false;
      ghost var p: Page := 0;
      if !Present(mem[table][i]) {
        NothingBelow(s, Sub(q, i), idxs[1..]);
        if !create {
          return None;
        }
        added, p := AddTable(table, i, q);
        if !added {
          return None;
        }
        MissingBelow(s, q, i, p, Now(), idxs[1..]);
        HungExtends(s, q, i, p, Now());
      }
      ghost var s1 := Now();
      Child(s1, q, i);
      r := Walk(PageIn(mem[table][i]), idxs[1..], create, Sub(q, i));
      if r.None? && added {
        DropTable(table, i, q, p, s, s1);
        NothingBelow(s, Sub(q, i), idxs[1..]);
      } else {
        SameMapTwice(s, s1, Now());
        ExtendsTwice(s.nodes, s1.nodes, nodes);
      }
    }

    /** The kernel's name for the byte behind a user address, if its page is mapped. */
    method Pml4GetPage(uaddr: nat) returns (r: Option<nat>)
      requires Tree(Now()) && IsUser(uaddr)
      modifies this`mem, this`free, this`nodes
      ensures Now() == old(Now())
      ensures var e := Mapping(Now(), uaddr);
              r == if Present(e) then Some(PGSIZE * PageIn(e) + uaddr % PGSIZE) else None
    {
      hide Tree, SameMap, Restored, Indices, TableOf;
      UserWalk(uaddr);
      RootIs(Now());
      var slot := Walk(root, Indices(uaddr), false, Root);
      MappingIs(Now(), uaddr);
      if slot.Some? {
        var e := mem[slot.value.0][slot.value.1];
        if Present(e) {
          return Some(PGSIZE * PageIn(e) + uaddr % PGSIZE);
        }
      }
      r := None;
    }

    /** Maps `upage` to `frame`; fails only for want of pages for tables, and then without a trace. */
    method Pml4SetPage(upage: nat, frame: Page, rw: bool) returns (ok: bool)
      requires Tree(Now()) && IsUser(upage) && upage % PGSIZE == 0
      modifies this`mem, this`free, this`nodes
      ensures Tree(Now())
      ensures ok ==> MapsTo(Mapping(Now(), upage), frame, rw) && OnlyAt(old(Now()), Now(), upage)
      ensures !ok ==> Restored(old(Now()), Now()) && SameMap(old(Now()), Now())
      ensures ok <==> Missing(old(nodes), Root, Indices(upage)) <= |old(free)|
    {
      hide Tree, SameMap, Restored, Indices, TableOf, OnlyAt, Bit, LeafEntry;
      ghost var s := Now();
      UserWalk(upage);
      RootIs(s);
      var slot := Walk(root, Indices(upage), true, Root);
      ghost var s1 := Now();
      if slot.Some? {
        MappingIs(s1, upage);
        Store(slot.value.0, slot.value.1, LeafEntry(frame, rw));
        LeafStored(s1, Now(), upage, LeafEntry(frame, rw));
        OnlyAtAfter(s, s1, Now(), upage);
        LeafEntryMeans(frame, rw);
      }
      ok := slot.Some?;
    }

    /** Replaces an existing entry by a function of it: what the remaining operations do. */
    method Update(va: nat, f: nat -> nat) returns (ghost hit: bool)
      requires Tree(Now()) && IsUser(va)
      modifies this`mem, this`free, this`nodes
      ensures Tree(Now()) && OnlyAt(old(Now()), Now(), va) && free == old(free) && nodes == old(nodes)
      ensures hit <==> TableOf(va) in nodes
      ensures Mapping(Now(), va) == if hit then f(Mapping(old(Now()), va)) else 0
    {
      hide Tree, SameMap, Restored, Indices, TableOf;
      ghost var s := Now();
      UserWalk(va);
      RootIs(s);
      var slot := Walk(root, Indices(va), false, Root);
      MappingIs(s, va);
      hit := slot.Some?;
      if slot.Some? {
        var e: nat := f(mem[slot.value.0][slot.value.1]);
        Store(slot.value.0, slot.value.1, e);
        LeafStored(s, Now(), va, e);
      }
    }

    /** The page becomes absent; the other bits of its entry stay. */
    method Pml4ClearPage(upage: nat)
      requires Tree(Now()) && IsUser(upage) && upage % PGSIZE == 0
      modifies this`mem, this`free, this`nodes
      ensures Tree(Now()) && OnlyAt(old(Now()), Now(), upage) && free == old(free) && nodes == old(nodes)
      ensures !Present(Mapping(Now(), upage)) && Mapping(Now(), upage) / 2 == Mapping(old(Now()), upage) / 2
    {
      ghost var hit := Update(upage, Absent);
    }

    method Pml4SetDirty(vpage: nat, dirty: bool)
      requires Tree(Now()) && IsUser(vpage)
      modifies this`mem, this`free, this`nodes
      ensures Tree(Now()) && OnlyAt(old(Now()), Now(), vpage) && free == old(free) && nodes == old(nodes)
      ensures TableOf(vpage) !in nodes ==> Mapping(Now(), vpage) == 0
      ensures TableOf(vpage) in nodes && dirty ==> forall j: nat ::
                Bit(Mapping(Now(), vpage), j) <==> j == PTE_D || Bit(Mapping(old(Now()), vpage), j)
      ensures TableOf(vpage) in nodes && !dirty ==> forall j: nat ::
                Bit(Mapping(Now(), vpage), j) <==> j != PTE_D && j < 32 && Bit(Mapping(old(Now()), vpage), j)
    {
      hide BitOn, BitOff, Bit;
      ghost var hit;
      BitOnMeans(Mapping(Now(), vpage), PTE_D);
      BitOffMeans(Mapping(Now(), vpage), PTE_D);
      if dirty {
        hit := Update(vpage, e => BitOn(e, PTE_D));
      } else {
        hit := Update(vpage, e => BitOff(e, PTE_D));
      }
    }

    method Pml4SetAccessed(vpage: nat, accessed: bool)
      requires Tree(Now()) && IsUser(vpage)
      modifies this`mem, this`free, this`nodes
      ensures Tree(Now()) && OnlyAt(old(Now()), Now(), vpage) && free == old(free) && nodes == old(nodes)
      ensures TableOf(vpage) !in nodes ==> Mapping(Now(), vpage) == 0
      ensures TableOf(vpage) in nodes && accessed ==> forall j: nat ::
                Bit(Mapping(Now(), vpage), j) <==> j == PTE_A || Bit(Mapping(old(Now()), vpage), j)
      ensures TableOf(vpage) in nodes && !accessed ==> forall j: nat ::
                Bit(Mapping(Now(), vpage), j) <==> j != PTE_A && j < 32 && Bit(Mapping(old(Now()), vpage), j)
    {
      hide BitOn, BitOff, Bit;
      ghost var hit;
      BitOnMeans(Mapping(Now(), vpage), PTE_A);
      BitOffMeans(Mapping(Now(), vpage), PTE_A);
      if accessed {
        hit := Update(vpage, e => BitOn(e, PTE_A));
      } else {
        hit := Update(vpage, e => BitOff(e, PTE_A));
      }
    }

    /** `pdpe_destroy`, `pgdir_destroy` and `pt_destroy` for levels 2, 1 and 0: frees what
        hangs below a table, and then its own page. */
    method DestroyTable(table: Page, level: nat, ghost s: Space, ghost q: Path)
      requires Tree(s) && Owned(s) && q in s.nodes && q != Root && table == s.nodes[q] && level + Depth(q) == 3
      requires forall p {:trigger IsBelow(s, q, p)} :: IsBelow(s, q, p) ==> p !in free && p in mem
      requires Intact(s, q, mem)
      modifies this`mem, this`free
      ensures forall p :: p in free <==> p in old(free) || IsBelow(s, q, p)
      ensures forall p :: !IsBelow(s, q, p) ==> (p in mem <==> p in old(mem)) && (p in mem ==> mem[p] == old(mem)[p])
      decreases level
    {
      hide Owned, Tree, IsBelow, BelowFirst, EntryAt, InUse, PageAt;
      ghost var f0, m0 := free, mem;
      NoneYet(s, q);
      var i := 0;
      while i < ENTRIES
        invariant 0 <= i <= ENTRIES
        invariant forall p :: p in free <==> p in f0 || BelowFirst(s, q, i, p)
        invariant forall p :: !BelowFirst(s, q, i, p) ==> (p in mem <==> p in m0) && (p in mem ==> mem[p] == m0[p])
      {
        StillOwned(s, q, i);
        EntryLeads(s, q, i);
        NextBelow(s, q, i);
        IntactPart(s, q, i, m0, mem);
        var e := mem[table][i];
        if Present(e) {
          if level == 0 {
            FrameOnly(s, q, i);
            FreePage(PageIn(e));
          } else {
            DestroyTable(PageIn(e), level - 1, s, Sub(q, i));
          }
        }
        i := i + 1;
      }
      StillOwned(s, q, ENTRIES);
      BelowAll(s, q);
      FreePage(table);
    }

    /** Frees every table and every mapped frame once: `FreePage` must not be given a free page. */
    method Pml4Destroy()
      requires Tree(Now()) && Owned(Now()) && forall x :: InUse(Now(), x) ==> PageAt(Now(), x) in mem
      modifies this`mem, this`free
      ensures forall p :: p in free <==> p in old(free) || IsUsed(old(Now()), p)
    {
      hide Owned, Tree, EntryAt, InUse, PageAt, IsUsed;
      ghost var s := Now();
      RootIs(s);
      Child(s, Root, 0);
      OwnedBelow(s, Sub(Root, 0));
      OnlyFirst(s);
      hide IsBelow, BelowFirst;
      if Present(mem[root][0]) {
        DestroyTable(PageIn(mem[root][0]), 2, s, Sub(Root, 0));
      }
      FreePage(root);
    }
  }

  lemma OwnedBelow(s: Space, q: Path)
    requires Tree(s) && Owned(s) && forall x :: InUse(s, x) ==> PageAt(s, x) in s.mem
    ensures forall p {:trigger IsBelow(s, q, p)} :: IsBelow(s, q, p) ==> p !in s.free && p in s.mem
    ensures Intact(s, q, s.mem)
  {
    assert forall x :: x in s.nodes ==> NodeOk(s, x);
  }

  lemma {:induction false} UnderRoot(x: Path)
    ensures Under(x, Root)
    decreases x
  {
    if x.Sub? {
      UnderRoot(x.up);
    }
  }

  /** All pages in use are the root's and those below its first entry. */
  lemma OnlyFirst(s: Space)
    requires Tree(s) && Owned(s)
    ensures !IsBelow(s, Sub(Root, 0), s.root) && s.root !in s.free
    ensures forall p :: IsUsed(s, p) <==> p == s.root || IsBelow(s, Sub(Root, 0), p)
    ensures Sub(Root, 0) !in s.nodes ==> forall p :: !IsBelow(s, Sub(Root, 0), p)
  {
    assert InUse(s, Root) && PageAt(s, Root) == s.root;
    StillOwned(s, Root, 1);
    NextBelow(s, Root, 0);
    forall p
      ensures IsUsed(s, p) <==> p == s.root || IsBelow(s, Sub(Root, 0), p)
      ensures Sub(Root, 0) !in s.nodes ==> !IsBelow(s, Sub(Root, 0), p)
    {
      if x :| InUse(s, x) && PageAt(s, x) == p {
        UnderRoot(x);
        if x != Root {
          var j := UnderChild(s, x, Root);
        }
      }
      if Sub(Root, 0) !in s.nodes {
        assert Depth(Sub(Root, 0)) == 1;
        NothingUnder(s, Sub(Root, 0), p);
      }
    }
  }

  lemma NoneYet(s: Space, q: Path)
    ensures forall p :: !BelowFirst(s, q, 0, p)
  {
  }

  /** The contents of the tables below `q` are as in `s`. */
  ghost predicate Intact(s: Space, q: Path, mem: map<Page, seq<nat>>) {
    forall x :: x in s.nodes && Under(x, q) ==> s.nodes[x] in mem && s.nodes[x] in s.mem && mem[s.nodes[x]] == s.mem[s.nodes[x]]
  }

  /** Entry `i` of a table leads to what is below it. */
  lemma EntryLeads(s: Space, q: Path, i: nat)
    requires Tree(s) && q in s.nodes && q != Root && i < ENTRIES
    ensures s.nodes[q] in s.mem && |s.mem[s.nodes[q]]| == ENTRIES
    ensures var e := s.mem[s.nodes[q]][i];
            && (Present(e) <==> InUse(s, Sub(q, i))) && (Present(e) ==> IsBelow(s, Sub(q, i), PageIn(e)))
            && (!Present(e) ==> forall p :: !IsBelow(s, Sub(q, i), p))
            && (Present(e) && Depth(q) < 3 ==> Sub(q, i) in s.nodes && PageIn(e) == s.nodes[Sub(q, i)])
  {
    assert NodeOk(s, q);
    assert Sub(q, i) in s.nodes ==> NodeOk(s, Sub(q, i));
    var e := s.mem[s.nodes[q]][i];
    if Depth(q) < 3 {
      Child(s, q, i);
    } else {
      assert EntryAt(s, q, i) == e;
    }
    if Present(e) {
      assert InUse(s, Sub(q, i)) && Under(Sub(q, i), Sub(q, i)) && PageAt(s, Sub(q, i)) == PageIn(e);
    } else {
      forall p
        ensures !IsBelow(s, Sub(q, i), p)
      {
        NothingUnder(s, Sub(q, i), p);
      }
    }
  }

  lemma NextBelow(s: Space, q: Path, i: nat)
    ensures forall p :: BelowFirst(s, q, i + 1, p) <==> BelowFirst(s, q, i, p) || IsBelow(s, Sub(q, i), p)
  {
    hide IsBelow;
    forall p
      ensures BelowFirst(s, q, i + 1, p) <==> BelowFirst(s, q, i, p) || IsBelow(s, Sub(q, i), p)
    {
      if BelowFirst(s, q, i + 1, p) {
        var j: nat :| j < i + 1 && IsBelow(s, Sub(q, j), p);
      }
    }
  }

  /** A frame has nothing below it. */
  lemma FrameOnly(s: Space, q: Path, i: nat)
    requires Tree(s) && q in s.nodes && Depth(q) == 3 && i < ENTRIES
    ensures s.nodes[q] in s.mem && |s.mem[s.nodes[q]]| == ENTRIES
    ensures var e := s.mem[s.nodes[q]][i];
            Present(e) ==> forall p :: IsBelow(s, Sub(q, i), p) <==> p == PageIn(e)
  {
    assert NodeOk(s, q);
    EntryLeads(s, q, i);
    forall p | IsBelow(s, Sub(q, i), p)
      ensures Present(s.mem[s.nodes[q]][i]) ==> p == PageIn(s.mem[s.nodes[q]][i])
    {
      var x :| InUse(s, x) && Under(x, Sub(q, i)) && PageAt(s, x) == p;
      UnderDepth(x, Sub(q, i));
      assert x in s.nodes ==> NodeOk(s, x);
      assert x == Sub(q, i);
      assert EntryAt(s, q, i) == s.mem[s.nodes[q]][i];
    }
  }

  /** What has been freed so far was not below entry `i`. */
  lemma IntactPart(s: Space, q: Path, i: nat, m0: map<Page, seq<nat>>, mem: map<Page, seq<nat>>)
    requires Tree(s) && q in s.nodes && Intact(s, q, m0)
    requires forall p {:trigger IsBelow(s, Sub(q, i), p)} :: IsBelow(s, Sub(q, i), p) ==> !BelowFirst(s, q, i, p)
    requires !BelowFirst(s, q, i, s.nodes[q])
    requires forall p :: !BelowFirst(s, q, i, p) ==> (p in mem <==> p in m0) && (p in mem ==> mem[p] == m0[p])
    ensures Intact(s, Sub(q, i), mem) && s.nodes[q] in mem && s.nodes[q] in s.mem && mem[s.nodes[q]] == s.mem[s.nodes[q]]
  {
    hide BelowFirst;
    assert Under(q, q);
    forall x | x in s.nodes && Under(x, Sub(q, i))
      ensures s.nodes[x] in mem && s.nodes[x] in s.mem && mem[s.nodes[x]] == s.mem[s.nodes[x]]
    {
      UnderUp(x, q, i);
      assert InUse(s, x) && PageAt(s, x) == s.nodes[x];
      assert IsBelow(s, Sub(q, i), s.nodes[x]);
    }
  }

  // ----------------------------------------------------- freeing it all

  /** A mapped frame counts as a node at depth 4. */
  ghost predicate InUse(s: Space, x: Path) {
    x in s.nodes || (x.Sub? && Depth(x) == 4 && x.i < ENTRIES && Present(EntryAt(s, x.up, x.i)))
  }

  ghost function PageAt(s: Space, x: Path): Page {
    if x in s.nodes then s.nodes[x] else if x.Sub? then PageIn(EntryAt(s, x.up, x.i)) else 0
  }

  ghost predicate IsUsed(s: Space, p: Page) {
    exists x :: InUse(s, x) && PageAt(s, x) == p
  }

  predicate Under(x: Path, q: Path) {
    x == q || (x.Sub? && Under(x.up, q))
  }

  /** Tables and mapped frames are different pages, each used once and none free. */
  ghost predicate Owned(s: Space) {
    && (forall x, y :: InUse(s, x) && InUse(s, y) && PageAt(s, x) == PageAt(s, y) ==> x == y)
    && (forall x :: InUse(s, x) ==> PageAt(s, x) !in s.free)
  }

  /** Page `p` is `q`'s own or below it. */
  ghost predicate IsBelow(s: Space, q: Path, p: Page) {
    exists x :: InUse(s, x) && Under(x, q) && PageAt(s, x) == p
  }

  /** Likewise for the children of `q` before the `n`-th. */
  ghost predicate BelowFirst(s: Space, q: Path, n: nat, p: Page) {
    exists j: nat :: j < n && IsBelow(s, Sub(q, j), p)
  }

  lemma {:induction false} UnderDepth(x: Path, q: Path)
    requires Under(x, q)
    ensures Depth(q) <= Depth(x) && (Depth(x) == Depth(q) ==> x == q)
    decreases x
  {
    if x != q {
      UnderDepth(x.up, q);
    }
  }

  /** Two tables at the same depth have nothing in common below them. */
  lemma {:induction false} UnderOne(x: Path, q: Path, q': Path)
    requires Under(x, q) && Under(x, q') && Depth(q) == Depth(q')
    ensures q == q'
    decreases x
  {
    UnderDepth(x, q);
    UnderDepth(x, q');
    if x != q && x != q' {
      UnderOne(x.up, q, q');
    }
  }

  /** What is below a table is itself or below one of its entries, which is then in use. */
  lemma {:induction false} UnderChild(s: Space, x: Path, q: Path) returns (j: nat)
    requires Tree(s) && InUse(s, x) && Under(x, q) && x != q
    ensures j < ENTRIES && Under(x, Sub(q, j)) && InUse(s, Sub(q, j)) && q in s.nodes && (q.Root? ==> j == 0)
    decreases x
  {
    assert x in s.nodes ==> NodeOk(s, x);
    assert Depth(x) == Depth(x.up) + 1;
    if x.up == q {
      j := x.i;
    } else {
      j := UnderChild(s, x.up, q);
    }
  }

  lemma NothingUnder(s: Space, q: Path, p: Page)
    requires Tree(s) && !InUse(s, q)
    ensures !IsBelow(s, q, p)
  {
    forall x | InUse(s, x) && Under(x, q)
      ensures false
    {
      var j := UnderChild(s, x, q);
      assert false;
    }
  }

  /** All pages below a table: its own and those below its entries. */
  lemma BelowAll(s: Space, q: Path)
    requires Tree(s) && q in s.nodes
    ensures forall p :: IsBelow(s, q, p) <==> p == s.nodes[q] || BelowFirst(s, q, ENTRIES, p)
  {
    forall p
      ensures IsBelow(s, q, p) <==> p == s.nodes[q] || BelowFirst(s, q, ENTRIES, p)
    {
      BelowAllOf(s, q, p);
    }
  }

  lemma BelowAllOf(s: Space, q: Path, p: Page)
    requires Tree(s) && q in s.nodes
    ensures IsBelow(s, q, p) <==> p == s.nodes[q] || BelowFirst(s, q, ENTRIES, p)
  {
    if IsBelow(s, q, p) {
      var x :| InUse(s, x) && Under(x, q) && PageAt(s, x) == p;
      if x != q {
        var j := UnderChild(s, x, q);
        assert IsBelow(s, Sub(q, j), p);
      }
    }
    if BelowFirst(s, q, ENTRIES, p) {
      var j: nat :| j < ENTRIES && IsBelow(s, Sub(q, j), p);
      var x :| InUse(s, x) && Under(x, Sub(q, j)) && PageAt(s, x) == p;
      UnderUp(x, q, j);
    }
    if p == s.nodes[q] {
      assert InUse(s, q) && Under(q, q) && PageAt(s, q) == p;
    }
  }

  lemma {:induction false} UnderUp(x: Path, q: Path, j: nat)
    requires Under(x, Sub(q, j))
    ensures Under(x, q) && x != q
    decreases x
  {
    UnderDepth(x, Sub(q, j));
    if x != Sub(q, j) {
      UnderUp(x.up, q, j);
    }
  }

  /** Freeing the first entries' pages has touched neither the table nor what the next entry leads to. */
  lemma StillOwned(s: Space, q: Path, n: nat)
    requires Tree(s) && Owned(s) && q in s.nodes
    ensures forall p {:trigger IsBelow(s, Sub(q, n), p)} :: IsBelow(s, Sub(q, n), p) ==> !BelowFirst(s, q, n, p) && IsBelow(s, q, p)
    ensures !BelowFirst(s, q, n, s.nodes[q]) && IsBelow(s, q, s.nodes[q])
  {
    forall p | IsBelow(s, Sub(q, n), p) || p == s.nodes[q]
      ensures !BelowFirst(s, q, n, p) && IsBelow(s, q, p)
    {
      StillOwnedOf(s, q, n, p);
      if p == s.nodes[q] {
        assert InUse(s, q) && Under(q, q) && PageAt(s, q) == p;
      } else {
        var x :| InUse(s, x) && Under(x, Sub(q, n)) && PageAt(s, x) == p;
        UnderUp(x, q, n);
      }
    }
  }

  lemma StillOwnedOf(s: Space, q: Path, n: nat, p: Page)
    requires Tree(s) && Owned(s) && q in s.nodes && (IsBelow(s, Sub(q, n), p) || p == s.nodes[q])
    ensures !BelowFirst(s, q, n, p) && p !in s.free
  {
    assert InUse(s, q) && PageAt(s, q) == s.nodes[q];
    var y := q;
    if p != s.nodes[q] {
      y :| InUse(s, y) && Under(y, Sub(q, n)) && PageAt(s, y) == p;
    }
    if BelowFirst(s, q, n, p) {
      var j: nat :| j < n && IsBelow(s, Sub(q, j), p);
      var x :| InUse(s, x) && Under(x, Sub(q, j)) && PageAt(s, x) == p;
      assert x == y;
      if y == q {
        UnderUp(x, q, j);
        assert false;
      } else {
        UnderOne(x, Sub(q, j), Sub(q, n));
        assert false;
      }
    }
  }

  /** The accessed bit, 0x20, and the dirty bit, 0x40. */
  const PTE_A := 5
  const PTE_D := 6

  function Absent(e: nat): nat {
    if Present(e) then e - 1 else e
  }

  /** `*pte |= bit`. */
  function BitOn(e: nat, k: nat): nat {
    if Bit(e, k) then e else e + Pow2(k)
  }

  /** `*pte &= ~(uint32_t) bit`: the mask has only 32 bits. */
  function BitOff(e: nat, k: nat): nat {
    var low := e % 0x1_0000_0000;
    if Bit(low, k) && Pow2(k) <= low then low - Pow2(k) else low
  }

  lemma {:induction false} AddBit(e: nat, k: nat)
    requires !Bit(e, k)
    ensures forall j: nat :: Bit(e + Pow2(k), j) <==> j == k || Bit(e, j)
  {
    if k > 0 {
      AddBit(e / 2, k - 1);
      assert (e + Pow2(k)) / 2 == e / 2 + Pow2(k - 1) && (e + Pow2(k)) % 2 == e % 2;
    } else {
      assert (e + 1) / 2 == e / 2;
    }
    forall j: nat
      ensures Bit(e + Pow2(k), j) <==> j == k || Bit(e, j)
    {
      if j > 0 {
        assert Bit(e + Pow2(k), j) == Bit((e + Pow2(k)) / 2, j - 1);
      }
    }
  }

  lemma {:induction false} DropBit(e: nat, k: nat)
    requires Bit(e, k)
    ensures Pow2(k) <= e && forall j: nat :: Bit(e - Pow2(k), j) <==> j != k && Bit(e, j)
  {
    if k > 0 {
      DropBit(e / 2, k - 1);
      assert (e - Pow2(k)) / 2 == e / 2 - Pow2(k - 1) && (e - Pow2(k)) % 2 == e % 2;
    } else {
      assert (e - 1) / 2 == e / 2;
    }
    forall j: nat
      ensures Bit(e - Pow2(k), j) <==> j != k && Bit(e, j)
    {
      if j > 0 {
        assert Bit(e - Pow2(k), j) == Bit((e - Pow2(k)) / 2, j - 1);
      }
    }
  }

  lemma HalfBits(e: nat, r: nat, h: nat, j: nat)
    requires r == 2 * h + e % 2
    ensures Bit(r, j) == if j == 0 then Bit(e, 0) else Bit(h, j - 1)
  {
    assert r / 2 == h && r % 2 == e % 2;
  }

  /** A remainder by a power of two is the bits below. */
  lemma {:induction false} RemainderBits(e: nat, n: nat, j: nat)
    ensures Bit(e % Pow2(n), j) <==> j < n && Bit(e, j)
  {
    if n == 0 {
      NoBits(j);
    } else {
      var p := Pow2(n - 1);
      HalfRemainder(e, p);
      HalfBits(e, e % (2 * p), e / 2 % p, j);
      if j > 0 {
        RemainderBits(e / 2, n - 1, j - 1);
        assert Bit(e, j) == Bit(e / 2, j - 1);
      }
    }
  }

  lemma {:induction false} NoBits(j: nat)
    ensures !Bit(0, j)
  {
    if j > 0 {
      NoBits(j - 1);
    }
  }

  lemma Pow32()
    ensures Pow2(32) == 0x1_0000_0000
  {
    assert Pow2(8) == 256 && Pow2(16) == 0x1_0000 && Pow2(24) == 0x100_0000;
  }

  /** Setting a bit sets just it. */
  lemma BitOnMeans(e: nat, k: nat)
    ensures forall j: nat :: Bit(BitOn(e, k), j) <==> j == k || Bit(e, j)
  {
    if !Bit(e, k) {
      AddBit(e, k);
    }
  }

  /** Clearing a bit clears it, and all from bit 32 on as well. */
  lemma BitOffMeans(e: nat, k: nat)
    ensures forall j: nat :: Bit(BitOff(e, k), j) <==> j != k && j < 32 && Bit(e, j)
  {
    var low := e % 0x1_0000_0000;
    Pow32();
    forall j: nat
      ensures Bit(low, j) <==> j < 32 && Bit(e, j)
    {
      RemainderBits(e, 32, j);
    }
    if Bit(low, k) {
      DropBit(low, k);
    }
  }

  /** Two numbers with the same bits are the same. */
  lemma {:induction false} SameBits(a: nat, b: nat)
    requires forall j: nat :: Bit(a, j) == Bit(b, j)
    ensures a == b
    decreases a + b
  {
    assert Bit(a, 0) == Bit(b, 0);
    if a > 0 || b > 0 {
      forall j: nat
        ensures Bit(a / 2, j) == Bit(b / 2, j)
      {
        assert Bit(a, j + 1) == Bit(b, j + 1);
      }
      SameBits(a / 2, b / 2);
    }
  }

  function Shifted(e: nat, n: nat): nat {
    if n == 0 then e else Shifted(e / 2, n - 1)
  }

  lemma {:induction false} ShiftedBits(e: nat, n: nat, j: nat)
    ensures Bit(Shifted(e, n), j) == Bit(e, n + j)
  {
    if n > 0 {
      ShiftedBits(e / 2, n - 1, j);
    }
  }

  lemma ShiftBy3(e: nat, n: nat)
    requires n >= 3
    ensures Shifted(e, n) == Shifted(e / 8, n - 3)
  {
    assert e / 2 / 2 / 2 == e / 8;
    assert Shifted(e, n) == Shifted(e / 2, n - 1) == Shifted(e / 2 / 2, n - 2);
  }

  lemma PageIsShift(e: nat)
    ensures Shifted(e, 12) == PageIn(e)
  {
    ShiftBy3(e, 12);
    ShiftBy3(e / 8, 9);
    ShiftBy3(e / 8 / 8, 6);
    ShiftBy3(e / 8 / 8 / 8, 3);
    assert e / 8 / 8 / 8 / 8 == e / 4096;
  }

  /** The page of an entry is its bits from 12 on. */
  lemma PageByBits(a: nat, b: nat)
    requires forall j: nat :: j >= 12 ==> Bit(a, j) == Bit(b, j)
    ensures PageIn(a) == PageIn(b)
  {
    forall j: nat
      ensures Bit(Shifted(a, 12), j) == Bit(Shifted(b, 12), j)
    {
      ShiftedBits(a, 12, j);
      ShiftedBits(b, 12, j);
    }
    SameBits(Shifted(a, 12), Shifted(b, 12));
    PageIsShift(a);
    PageIsShift(b);
  }

  /** Clearing the accessed or dirty bit keeps the frame exactly when its address is below 4 GB. */
  lemma BitOffKeepsFrame(e: nat, k: nat)
    requires k < 12
    ensures PageIn(BitOff(e, k)) == PageIn(e) <==> e < 0x1_0000_0000
  {
    if e < 0x1_0000_0000 {
      if Bit(e, k) {
        DropBit(e, k);
        PageByBits(e - Pow2(k), e);
      }
    } else {
      assert BitOff(e, k) < 0x1_0000_0000;
    }
  }

  lemma BitOnKeepsFrame(e: nat, k: nat)
    requires k < 12
    ensures PageIn(BitOn(e, k)) == PageIn(e)
  {
    BitOnMeans(e, k);
    PageByBits(BitOn(e, k), e);
  }

  /** What `pml4_set_page` stores, `pml4_get_page` finds. */
  lemma SetThenGet(frame: Page, rw: bool)
    ensures Present(LeafEntry(frame, rw)) && PageIn(LeafEntry(frame, rw)) == frame
  {
  }

  /** The entry of a user page of the frame, writable as asked, and with no other flag. */
  ghost predicate MapsTo(e: nat, frame: Page, rw: bool) {
    PageIn(e) == frame && forall k: nat :: k < 12 ==> (Bit(e, k) <==> k == 0 || k == 2 || (k == 1 && rw))
  }

  lemma LeafEntryMeans(frame: Page, rw: bool)
    ensures MapsTo(LeafEntry(frame, rw), frame, rw)
  {
    FlagBits(LeafEntry(frame, rw), frame, rw);
  }

  // -------------------------------------------------- user page mappings

  predicate IsUser(va: nat) {
    va < USER_TOP
  }

  /** `PML4`, `PDPE`, `PDX` and `PTX` of an address. */
  function Indices(va: nat): (idxs: seq<nat>)
    ensures |idxs| == 4 && forall k :: 0 <= k < 4 ==> idxs[k] < ENTRIES
  {
    [va / 0x80_0000_0000 % ENTRIES, va / 0x4000_0000 % ENTRIES, va / 0x20_0000 % ENTRIES, va / 0x1000 % ENTRIES]
  }

  /** Two user addresses share an entry exactly when they are on the same page. */
  lemma IndicesTellPages(va: nat, vb: nat)
    requires IsUser(va) && IsUser(vb)
    ensures Indices(va)[0] == 0
    ensures Indices(va) == Indices(vb) <==> va / PGSIZE == vb / PGSIZE
  {
    var a, b := va / PGSIZE, vb / PGSIZE;
    PageIndices(va);
    PageIndices(vb);
    if Indices(va) == Indices(vb) {
      assert a == (Indices(va)[1] * ENTRIES + Indices(va)[2]) * ENTRIES + Indices(va)[3];
    }
  }

  lemma PageIndices(va: nat)
    requires IsUser(va)
    ensures var n, x := va / PGSIZE, Indices(va);
            && n == (x[1] * ENTRIES + x[2]) * ENTRIES + x[3] && x[0] == 0
            && x == [0, n / 0x40000, n / ENTRIES % ENTRIES, n % ENTRIES]
  {
    var n := va / PGSIZE;
    assert va / 0x20_0000 == n / ENTRIES && va / 0x4000_0000 == n / 0x40000 && va / 0x80_0000_0000 == 0;
  }

  function TableOf(va: nat): Path {
    Bottom(Root, Indices(va))
  }

  /** What the tables say about the page of `va`. */
  ghost function Mapping(s: Space, va: nat): nat {
    EntryAt(s, TableOf(va), Indices(va)[3])
  }

  lemma TablesTellPages(va: nat, vb: nat)
    requires IsUser(va) && IsUser(vb)
    ensures Depth(TableOf(va)) == 3
    ensures TableOf(va) == TableOf(vb) && Indices(va)[3] == Indices(vb)[3] <==> va / PGSIZE == vb / PGSIZE
  {
    IndicesTellPages(va, vb);
    TablePath(va);
    TablePath(vb);
    assert Indices(va) == Indices(vb) <==>
      Indices(va)[1] == Indices(vb)[1] && Indices(va)[2] == Indices(vb)[2] && Indices(va)[3] == Indices(vb)[3];
  }

  lemma TablePath(va: nat)
    requires IsUser(va)
    ensures TableOf(va) == Sub(Sub(Sub(Root, 0), Indices(va)[1]), Indices(va)[2]) && Indices(va)[0] == 0
  {
    PageIndices(va);
    var x := Indices(va);
    var y, z := x[1..], x[1..][1..];
    assert y[0] == x[1] && z[0] == x[2] && |z[1..]| == 1;
    var q := Sub(Sub(Root, x[0]), y[0]);
    assert Bottom(Root, x) == Bottom(Sub(Root, x[0]), y) == Bottom(q, z);
    assert Bottom(q, z) == Bottom(Sub(q, z[0]), z[1..]) == Sub(q, z[0]);
  }

  /** `vtop (kpage) | PTE_P | (rw ? PTE_W : 0) | PTE_U`. */
  function LeafEntry(frame: Page, rw: bool): nat {
    PGSIZE * frame + 1 + 4 + if rw then 2 else 0
  }

  /** The map of user pages has changed for the page of `va` only. */
  ghost predicate OnlyAt(s: Space, s': Space, va: nat) {
    forall vb: nat {:trigger Mapping(s', vb)} :: IsUser(vb) && vb / PGSIZE != va / PGSIZE ==> Mapping(s', vb) == Mapping(s, vb)
  }

  /** A store into the last-level entry of `va`. */
  lemma LeafStored(s: Space, s': Space, va: nat, e: nat)
    requires Tree(s) && IsUser(va) && TableOf(va) in s.nodes
    requires var p := s.nodes[TableOf(va)];
             p in s.mem && Indices(va)[3] < |s.mem[p]| && s' == s.(mem := s.mem[p := With(s.mem[p], Indices(va)[3], e)])
    ensures Tree(s') && Mapping(s', va) == e && OnlyAt(s, s', va)
  {
    var q, i := TableOf(va), Indices(va)[3];
    TablesTellPages(va, va);
    LeafTree(s, q, i, e, s');
    forall vb: nat | IsUser(vb) && vb / PGSIZE != va / PGSIZE
      ensures Mapping(s', vb) == Mapping(s, vb)
    {
      TablesTellPages(va, vb);
      hide TableOf, Indices;
    }
  }

  lemma LeafTree(s: Space, q: Path, i: nat, e: nat, s': Space)
    requires Tree(s) && q in s.nodes && Depth(q) == 3 && i < ENTRIES
    requires var p := s.nodes[q]; p in s.mem && i < |s.mem[p]| && s' == s.(mem := s.mem[p := With(s.mem[p], i, e)])
    ensures Tree(s') && EntryAt(s', q, i) == e
    ensures forall x, j: nat :: x != q || j != i ==> EntryAt(s', x, j) == EntryAt(s, x, j)
  {
    assert NodeOk(s, q);
    forall x | x in s'.nodes
      ensures NodeOk(s', x)
    {
      assert NodeOk(s, x);
    }
    forall x, j: nat | x in s'.nodes && Depth(x) < 3 && j < ENTRIES && (x.Root? ==> j == 0) && NodeOk(s', x)
      ensures EntryOk(s', x, j)
    {
      assert NodeOk(s, x) && EntryOk(s, x, j) && x != q;
    }
  }

  lemma UserWalk(va: nat)
    requires IsUser(va)
    ensures Indices(va)[0] == 0 && Bottom(Root, Indices(va)) == TableOf(va) && Depth(TableOf(va)) == 3
  {
    TablesTellPages(va, va);
    TablePath(va);
  }

  lemma RootIs(s: Space)
    requires Tree(s)
    ensures Root in s.nodes && s.nodes[Root] == s.root
  {
  }

  lemma MappingIs(s: Space, va: nat)
    requires Tree(s) && IsUser(va)
    ensures Indices(va)[3] < ENTRIES
    ensures TableOf(va) in s.nodes ==>
              var p := s.nodes[TableOf(va)];
              p in s.mem && |s.mem[p]| == ENTRIES && Mapping(s, va) == s.mem[p][Indices(va)[3]]
    ensures TableOf(va) !in s.nodes ==> Mapping(s, va) == 0
  {
    assert TableOf(va) in s.nodes ==> NodeOk(s, TableOf(va));
  }

  lemma OnlyAtAfter(s: Space, s1: Space, s2: Space, va: nat)
    requires SameMap(s, s1) && OnlyAt(s1, s2, va)
    ensures OnlyAt(s, s2, va)
  {
    forall vb: nat | IsUser(vb) && vb / PGSIZE != va / PGSIZE
      ensures Mapping(s2, vb) == Mapping(s, vb)
    {
      assert Mapping(s2, vb) == Mapping(s1, vb);
      SameMapIs(s, s1, vb);
    }
  }

  lemma SameMapIs(s: Space, s': Space, va: nat)
    requires SameMap(s, s') && IsUser(va)
    ensures Mapping(s', va) == Mapping(s, va)
  {
    TablesTellPages(va, va);
  }

  /** Tables stay where they are. */
  ghost predicate Extends(nodes: map<Path, Page>, nodes': map<Path, Page>) {
    forall q :: q in nodes ==> q in nodes' && nodes'[q] == nodes[q]
  }

  lemma HungExtends(s: Space, q: Path, i: nat, p: Page, s': Space)
    requires Hung(s, q, i, p, s')
    ensures Extends(s.nodes, s'.nodes) && Sub(q, i) in s'.nodes && q in s'.nodes && s'.nodes[q] == s.nodes[q]
  {
  }

  lemma ExtendsTwice(a: map<Path, Page>, b: map<Path, Page>, c: map<Path, Page>)
    ensures Extends(a, b) && Extends(b, c) ==> Extends(a, c)
  {
  }

  lemma SameMapTwice(a: Space, b: Space, c: Space)
    requires SameMap(a, b) && SameMap(b, c)
    ensures SameMap(a, c)
  {
    forall q, i: nat | Depth(q) == 3
      ensures EntryAt(c, q, i) == EntryAt(a, q, i)
    {
      assert EntryAt(b, q, i) == EntryAt(a, q, i);
    }
  }

  lemma SameSpace(s: Space)
    ensures Restored(s, s) && SameMap(s, s) && Extends(s.nodes, s.nodes)
  {
  }
}
