/** The blocks of the malloc-lab heap as a value: block address (an offset from
    the start of the heap) to size and state.  Offset 16 is the first block,
    just behind the prologue; `brk` is where the epilogue's block would start. */
module BlockMap {

  datatype Block = Block(size: nat, free: bool)

  type Blocks = map<nat, Block>

  const FIRST := 16
  const MIN_BLOCK := 24

  ghost predicate HasPrev(B: Blocks, b: nat) {
    exists p :: p in B && p + B[p].size == b
  }

  ghost predicate HasNext(B: Blocks, brk: nat, b: nat)
    requires b in B
  {
    b + B[b].size == brk || b + B[b].size in B
  }

  predicate Aligned(a: int) {
    a % 8 == 0
  }

  lemma AlignedSums(a: int, b: int)
    requires Aligned(a) && Aligned(b)
    ensures Aligned(a + b) && Aligned(a - b)
  {
  }

  ghost predicate Sized(B: Blocks, brk: nat) {
    && FIRST <= brk && Aligned(brk)
    && forall b :: b in B ==>
         FIRST <= b && Aligned(b) && MIN_BLOCK <= B[b].size && Aligned(B[b].size) && b + B[b].size <= brk
  }

  ghost predicate Disjoint(B: Blocks) {
    forall a, b :: a in B && b in B && a < b ==> a + B[a].size <= b
  }

  ghost predicate Chained(B: Blocks, brk: nat) {
    forall b {:trigger HasNext(B, brk, b)} :: b in B ==> HasNext(B, brk, b)
  }

  ghost predicate Backed(B: Blocks, brk: nat) {
    && (forall b {:trigger HasPrev(B, b)} :: b in B && b != FIRST ==> HasPrev(B, b))
    && (brk != FIRST ==> HasPrev(B, brk))
  }

  /** The blocks lie between prologue and epilogue, aligned, apart, and each
      ends where the next one or the epilogue begins. */
  ghost predicate Tiles(B: Blocks, brk: nat) {
    Sized(B, brk) && Disjoint(B) && Chained(B, brk) && Backed(B, brk)
  }

  /** Coalescing is complete, except possibly around `x`. */
  ghost predicate CoalescedBut(B: Blocks, x: nat) {
    forall b :: b in B && B[b].free && b != x && b + B[b].size != x && b + B[b].size in B ==> !B[b + B[b].size].free
  }

  ghost predicate Coalesced(B: Blocks) {
    forall b :: b in B && B[b].free && b + B[b].size in B ==> !B[b + B[b].size].free
  }

  /** The blocks in use, with their sizes. */
  ghost function Live(B: Blocks): map<nat, nat> {
    map b | b in B && !B[b].free :: B[b].size
  }

  // ------------------------------------------------- what tiling amounts to

  /** Every offset between the first block and the break is in exactly one block. */
  lemma {:induction false} Covered(B: Blocks, brk: nat, x: nat)
    requires Tiles(B, brk) && FIRST <= x < brk
    ensures exists b :: b in B && b <= x < b + B[b].size
    ensures forall a, b :: a in B && b in B && a <= x < a + B[a].size && b <= x < b + B[b].size ==> a == b
  {
    assert HasPrev(B, brk);
    var p :| p in B && p + B[p].size == brk;
    FoundFrom(B, brk, p, x);
  }

  /** Walking back by PREV_BLKP from a block above `x` reaches the block around `x`. */
  lemma {:induction false} FoundFrom(B: Blocks, brk: nat, p: nat, x: nat)
    requires Tiles(B, brk) && FIRST <= x && p in B && x < p + B[p].size
    ensures exists b :: b in B && b <= x < b + B[b].size
    decreases p
  {
    if x < p {
      assert HasPrev(B, p);
      var q :| q in B && q + B[q].size == p;
      FoundFrom(B, brk, q, x);
    }
  }

  /** Sum of the sizes met by walking forward from `b` by NEXT_BLKP. */
  ghost function Walk(B: Blocks, brk: nat, b: nat): (s: nat)
    requires Tiles(B, brk) && (b in B || b == brk)
    decreases brk - b
  {
    assert b != brk ==> HasNext(B, brk, b);
    if b == brk then 0 else B[b].size + Walk(B, brk, b + B[b].size)
  }

  /** The walk from the first block ends exactly at the epilogue. */
  lemma {:induction false} WalkIsExact(B: Blocks, brk: nat, b: nat)
    requires Tiles(B, brk) && (b in B || b == brk)
    ensures b + Walk(B, brk, b) == brk
    decreases brk - b
  {
    if b != brk {
      assert HasNext(B, brk, b);
      WalkIsExact(B, brk, b + B[b].size);
    }
  }

  lemma PrevIsUnique(B: Blocks, brk: nat, p: nat, q: nat)
    requires Tiles(B, brk) && p in B && q in B && p + B[p].size == q + B[q].size
    ensures p == q
  {
  }

  // ------------------------------------------------------- changes of blocks

  function Mark(B: Blocks, b: nat, free: bool): Blocks
    requires b in B
  {
    B[b := Block(B[b].size, free)]
  }

  /** `b` swallows the block behind it. */
  function Merge(B: Blocks, b: nat): Blocks
    requires b in B && b + B[b].size in B
  {
    (B - {b + B[b].size})[b := Block(B[b].size + B[b + B[b].size].size, B[b].free)]
  }

  /** The first `size` bytes of `b` become a block in use, the rest a free one. */
  function Split(B: Blocks, b: nat, size: nat): Blocks
    requires b in B && size < B[b].size
  {
    B[b := Block(size, false)][b + size := Block(B[b].size - size, true)]
  }

  lemma MarkSized(B: Blocks, brk: nat, b: nat, free: bool)
    requires Sized(B, brk) && Disjoint(B) && b in B
    ensures Sized(Mark(B, b, free), brk) && Disjoint(Mark(B, b, free))
  {
    hide Aligned;
  }

  lemma MarkTiles(B: Blocks, brk: nat, b: nat, free: bool)
    requires Tiles(B, brk) && b in B
    ensures Tiles(Mark(B, b, free), brk)
  {
    hide Sized, Disjoint;
    var B' := Mark(B, b, free);
    MarkSized(B, brk, b, free);
    forall x | x in B'
      ensures HasNext(B', brk, x)
    {
      assert HasNext(B, brk, x);
    }
    forall x | HasPrev(B, x)
      ensures HasPrev(B', x)
    {
      var p :| p in B && p + B[p].size == x;
      assert p in B' && p + B'[p].size == x;
    }
  }

  lemma MergeShape(B: Blocks, b: nat)
    requires b in B && B[b].size > 0 && b + B[b].size in B
    ensures var n, B' := b + B[b].size, Merge(B, b);
            && (forall x :: x in B' <==> x in B && x != n)
            && (forall x :: x in B' && x != b ==> B'[x] == B[x])
            && B'[b] == Block(B[b].size + B[n].size, B[b].free)
  {
  }

  lemma MergeSized(B: Blocks, brk: nat, b: nat)
    requires Sized(B, brk) && b in B && b + B[b].size in B
    ensures Sized(Merge(B, b), brk)
  {
    hide Merge, Aligned;
    MergeShape(B, b);
    AlignedSums(B[b].size, B[b + B[b].size].size);
  }

  lemma MergeDisjoint(B: Blocks, b: nat)
    requires Disjoint(B) && b in B && B[b].size > 0 && b + B[b].size in B
    ensures Disjoint(Merge(B, b))
  {
    hide Merge;
    MergeShape(B, b);
    var n, B' := b + B[b].size, Merge(B, b);
    forall x, y | x in B' && y in B' && x < y
      ensures x + B'[x].size <= y
    {
      if x == b {
        assert n < y && n + B[n].size <= y;
      }
    }
  }

  lemma MergeChained(B: Blocks, brk: nat, b: nat)
    requires Tiles(B, brk) && b in B && b + B[b].size in B
    ensures Chained(Merge(B, b), brk)
  {
    var n, B' := b + B[b].size, Merge(B, b);
    assert b < n && n + B[n].size > n;
    MergeShape(B, b);
    hide Merge;
    forall x | x in B'
      ensures HasNext(B', brk, x)
    {
      assert x in B && HasNext(B, brk, x) && HasNext(B, brk, n);
      if x != b && x + B[x].size == n {
        PrevIsUnique(B, brk, x, b);
      }
    }
  }

  lemma MergeBacked(B: Blocks, brk: nat, b: nat)
    requires Backed(B, brk) && b in B && B[b].size > 0 && b + B[b].size in B && brk != b + B[b].size
    ensures Backed(Merge(B, b), brk)
  {
    var n, B' := b + B[b].size, Merge(B, b);
    MergeShape(B, b);
    hide Merge;
    forall x | HasPrev(B, x) && x != n
      ensures HasPrev(B', x)
    {
      var p :| p in B && p + B[p].size == x;
      var q := if p == n then b else p;
      assert q in B' && q + B'[q].size == x;
    }
  }

  lemma MergeTiles(B: Blocks, brk: nat, b: nat)
    requires Tiles(B, brk) && b in B && b + B[b].size in B
    ensures Tiles(Merge(B, b), brk)
  {
    var n := b + B[b].size;
    assert n + B[n].size <= brk && n < n + B[n].size;
    MergeSized(B, brk, b);
    MergeDisjoint(B, b);
    MergeChained(B, brk, b);
    MergeBacked(B, brk, b);
  }

  lemma SplitShape(B: Blocks, b: nat, size: nat)
    requires b in B && 0 < size < B[b].size && b + size !in B
    ensures var n, B' := b + size, Split(B, b, size);
            && (forall x :: x in B' <==> x in B || x == n)
            && (forall x :: x in B' && x != b && x != n ==> B'[x] == B[x])
            && B'[b] == Block(size, false) && B'[n] == Block(B[b].size - size, true)
  {
  }

  lemma SplitSized(B: Blocks, brk: nat, b: nat, size: nat)
    requires Sized(B, brk) && b in B && Aligned(size) && b + size !in B
    requires MIN_BLOCK <= size && size + MIN_BLOCK <= B[b].size
    ensures Sized(Split(B, b, size), brk)
  {
    hide Split, Aligned;
    SplitShape(B, b, size);
    AlignedSums(B[b].size, size);
    AlignedSums(b, size);
  }

  lemma SplitDisjoint(B: Blocks, b: nat, size: nat)
    requires Disjoint(B) && b in B && 0 < size < B[b].size
    ensures b + size !in B && Disjoint(Split(B, b, size))
  {
    hide Split;
    assert forall x :: x in B && b < x ==> b + B[b].size <= x;
    SplitShape(B, b, size);
  }

  lemma SplitChained(B: Blocks, brk: nat, b: nat, size: nat)
    requires Chained(B, brk) && b in B && 0 < size < B[b].size
    ensures Chained(Split(B, b, size), brk)
  {
    var n, B' := b + size, Split(B, b, size);
    forall x | x in B'
      ensures HasNext(B', brk, x)
    {
      assert HasNext(B, brk, b);
      assert x != n ==> HasNext(B, brk, x);
    }
  }

  lemma SplitBacked(B: Blocks, brk: nat, b: nat, size: nat)
    requires Backed(B, brk) && b in B && 0 < size < B[b].size && b + size !in B
    ensures Backed(Split(B, b, size), brk)
  {
    var n, B' := b + size, Split(B, b, size);
    assert HasPrev(B', n) by {
      assert b in B' && b + B'[b].size == n;
    }
    forall x | HasPrev(B, x)
      ensures HasPrev(B', x)
    {
      var p :| p in B && p + B[p].size == x;
      var q := if p == b then n else p;
      assert q in B' && q + B'[q].size == x;
    }
  }

  lemma SplitTiles(B: Blocks, brk: nat, b: nat, size: nat)
    requires Tiles(B, brk) && b in B && Aligned(size)
    requires MIN_BLOCK <= size && size + MIN_BLOCK <= B[b].size
    ensures b + size !in B && Tiles(Split(B, b, size), brk)
  {
    SplitDisjoint(B, b, size);
    SplitSized(B, brk, b, size);
    SplitChained(B, brk, b, size);
    SplitBacked(B, brk, b, size);
  }

  function Grow(B: Blocks, brk: nat, size: nat): Blocks {
    B[brk := Block(size, true)]
  }

  lemma GrowTiles(B: Blocks, brk: nat, size: nat)
    requires Tiles(B, brk) && Aligned(size) && MIN_BLOCK <= size
    ensures brk !in B && Tiles(Grow(B, brk, size), brk + size)
  {
    assert brk !in B;
    GrowSized(B, brk, size);
    GrowChained(B, brk, size);
    GrowBacked(B, brk, size);
  }

  lemma GrowSized(B: Blocks, brk: nat, size: nat)
    requires Sized(B, brk) && Disjoint(B) && Aligned(size) && MIN_BLOCK <= size
    ensures Sized(Grow(B, brk, size), brk + size) && Disjoint(Grow(B, brk, size))
  {
    hide Aligned;
    AlignedSums(brk, size);
  }

  lemma GrowChained(B: Blocks, brk: nat, size: nat)
    requires Chained(B, brk)
    ensures Chained(Grow(B, brk, size), brk + size)
  {
    var B' := Grow(B, brk, size);
    forall x | x in B'
      ensures HasNext(B', brk + size, x)
    {
      assert x != brk ==> HasNext(B, brk, x);
    }
  }

  lemma GrowBacked(B: Blocks, brk: nat, size: nat)
    requires Backed(B, brk) && brk !in B
    ensures Backed(Grow(B, brk, size), brk + size)
  {
    var B' := Grow(B, brk, size);
    forall x | HasPrev(B, x)
      ensures HasPrev(B', x)
    {
      var p :| p in B && p + B[p].size == x;
      assert p in B' && p + B'[p].size == x;
    }
    assert HasPrev(B', brk + size) by {
      assert brk in B' && brk + B'[brk].size == brk + size;
    }
  }

  // ---------------------------------------------------- live and free blocks

  lemma LiveMerge(B: Blocks, b: nat)
    requires b in B && B[b].size > 0 && b + B[b].size in B && B[b].free && B[b + B[b].size].free
    ensures Live(Merge(B, b)) == Live(B)
  {
    MergeShape(B, b);
    hide Merge;
    assert forall x :: x in Live(Merge(B, b)) <==> x in Live(B);
    assert forall x :: x in Live(B) ==> Live(Merge(B, b))[x] == Live(B)[x];
  }

  lemma LiveSplit(B: Blocks, b: nat, size: nat)
    requires b in B && B[b].free && 0 < size < B[b].size && b + size !in B
    ensures Live(Split(B, b, size)) == Live(B)[b := size]
  {
    SplitShape(B, b, size);
    hide Split;
    assert forall x :: x in Live(Split(B, b, size)) <==> x in Live(B) || x == b;
    assert forall x :: x in Live(B) ==> Live(Split(B, b, size))[x] == Live(B)[x];
  }

  lemma LiveMark(B: Blocks, b: nat, free: bool)
    requires b in B
    ensures Live(Mark(B, b, free)) == if free then Live(B) - {b} else Live(B)[b := B[b].size]
  {
    var L := Live(Mark(B, b, free));
    var L' := if free then Live(B) - {b} else Live(B)[b := B[b].size];
    assert forall x :: x in L <==> x in L';
    assert forall x :: x in L ==> L[x] == L'[x];
  }

  lemma LiveGrow(B: Blocks, brk: nat, size: nat)
    requires brk !in B
    ensures Live(Grow(B, brk, size)) == Live(B)
  {
    assert forall x :: x in Live(Grow(B, brk, size)) <==> x in Live(B);
  }

  // -------------------------------------------------------------- coalescing

  ghost predicate NextBusy(B: Blocks, x: nat)
    requires x in B
  {
    x + B[x].size in B ==> !B[x + B[x].size].free
  }

  ghost predicate PrevBusy(B: Blocks, x: nat) {
    forall p :: p in B && p + B[p].size == x ==> !B[p].free
  }

  lemma CoalesceDone(B: Blocks, x: nat)
    requires x in B && CoalescedBut(B, x) && NextBusy(B, x) && PrevBusy(B, x)
    ensures Coalesced(B)
  {
  }

  lemma CoalesceNext(B: Blocks, brk: nat, x: nat)
    requires Sized(B, brk) && Disjoint(B) && CoalescedBut(B, x)
    requires x in B && B[x].free && x + B[x].size in B && B[x + B[x].size].free
    ensures var B' := Merge(B, x);
            CoalescedBut(B', x) && NextBusy(B', x) && (PrevBusy(B, x) ==> PrevBusy(B', x))
  {
    hide Aligned;
    MergeShape(B, x);
    hide Merge;
  }

  lemma CoalescePrev(B: Blocks, brk: nat, x: nat, p: nat)
    requires Sized(B, brk) && Disjoint(B) && CoalescedBut(B, x)
    requires x in B && p in B && p + B[p].size == x && B[p].free && B[x].free && NextBusy(B, x)
    ensures var B' := Merge(B, p);
            CoalescedBut(B', p) && NextBusy(B', p) && PrevBusy(B', p)
  {
    hide Aligned;
    assert p < x < x + B[x].size;
    MergeShape(B, p);
    hide *;
    OneBefore(B, brk, x, p);
    BusyAround(B, x, p, Merge(B, p));
  }

  lemma OneBefore(B: Blocks, brk: nat, x: nat, p: nat)
    requires Sized(B, brk) && Disjoint(B) && x in B && p in B && p + B[p].size == x
    ensures forall b :: b in B && b + B[b].size == x ==> b == p
  {
    hide Aligned;
  }

  lemma BusyAround(B: Blocks, x: nat, p: nat, B': Blocks)
    requires CoalescedBut(B, x) && x in B && p in B && B[p].free && NextBusy(B, x) && p < x
    requires forall b :: b in B && b + B[b].size == x ==> b == p
    requires (forall b :: b in B' <==> b in B && b != x) && forall b :: b in B' && b != p ==> B'[b] == B[b]
    requires p + B'[p].size == x + B[x].size
    ensures CoalescedBut(B', p) && NextBusy(B', p) && PrevBusy(B', p)
  {
  }
}
