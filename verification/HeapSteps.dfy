/** What the allocator's stores amount to, one lemma per way of reshaping the
    blocks: coalescing in three directions, splitting, growing and starting. */
module HeapSteps {
  import opened HeapBytes
  import opened BlockMap
  import opened HeapLayout

  lemma FormedOnly(h: Heap)
    requires Formed(h)
    ensures Tiles(h.blocks, h.brk) && FreeOnly(h.blocks, h.free)
  {
  }

  lemma OpenPending(h: Heap, x: nat)
    requires Pending(h, x)
    ensures Formed(h) && x in h.blocks && h.blocks[x].free && x !in h.free && Loose(h, {x})
    ensures FIRST <= x && x + MIN_BLOCK <= |h.mem| && 0 < h.base && h.base + |h.mem| < ADDRESS_LIMIT
    ensures h.free == [] ==> h.head == 0
    ensures h.free != [] ==> h.head == h.base + h.free[0] && h.free[0] + 16 <= |h.mem|
  {
    hide Word, Pointer, Tagged;
    assert h.free != [] ==> Links(h.mem, h.base, h.free, 0);
  }

  lemma ListedIn(h: Heap, D: set<nat>, b: nat)
    requires Loose(h, D) && b in h.blocks && h.blocks[b].free && b !in D
    ensures b in h.free
  {
  }

  lemma LooseSame(h: Heap, D: set<nat>, D': set<nat>)
    requires Loose(h, D) && D == D'
    ensures Loose(h, D')
  {
  }

  lemma PrevDecides(h: Heap, x: nat)
    requires Formed(h) && x in h.blocks
    ensures x == FIRST ==> PrevBusy(h.blocks, x)
    ensures forall p, q :: p in h.blocks && q in h.blocks && p + h.blocks[p].size == x && q + h.blocks[q].size == x ==> p == q
  {
    hide Tagged, Listed, Chained, Backed, Aligned;
  }

  lemma PushedIs(h: Heap, m1: seq<byte>, m2: seq<byte>, m3: seq<byte>, x: nat)
    requires x + 16 <= |h.mem| && 0 < h.base && (if h.free == [] then h.head == 0 else h.head == h.base + h.free[0])
    requires |m1| == |m2| == |m3| == |h.mem|
    requires KeptOutside(h.mem, m1, x, x + 8) && Pointer(m1, x) == h.head
    requires KeptOutside(m1, m2, x + 8, x + 16) && Pointer(m2, x + 8) == 0
    requires h.head == 0 ==> m3 == m2
    requires h.head != 0 ==>
               && h.base <= h.head && h.head - h.base + 16 <= |h.mem|
               && KeptOutside(m2, m3, h.head - h.base + 8, h.head - h.base + 16)
               && Pointer(m3, h.head - h.base + 8) == h.base + x
    ensures Pushed(h.mem, m1, m2, m3, h.base, h.head, h.free, x)
  {
    hide KeptOutside, Pointer;
  }

  lemma PayloadsSame(m: seq<byte>, live: map<nat, nat>)
    ensures PayloadsKept(m, m, live)
  {
  }

  lemma PayloadsTwice(m: seq<byte>, m1: seq<byte>, m2: seq<byte>, live: map<nat, nat>)
    requires PayloadsKept(m, m1, live) && PayloadsKept(m1, m2, live)
    ensures PayloadsKept(m, m2, live)
  {
  }

  // ---------------------------------------------------------- coalescing

  ghost predicate Merged(B: Blocks, b: nat, B': Blocks): (m: bool)
    ensures m ==> b in B'
  {
    b in B && b + B[b].size in B && B' == Merge(B, b)
  }

  lemma MergeFits(h: Heap, b: nat)
    requires Formed(h) && b in h.blocks && b + h.blocks[b].size in h.blocks
    ensures var n, B := b + h.blocks[b].size, Merge(h.blocks, b);
            && Merged(h.blocks, b, B) && B[b] == Block(h.blocks[b].size + h.blocks[n].size, h.blocks[b].free)
            && 8 <= B[b].size && b + B[b].size <= |h.mem| && Aligned(B[b].size) && B[b].size + 1 < WORD_LIMIT
            && (forall x :: x in B <==> x in h.blocks && x != n) && (forall x :: x in B && x != b ==> B[x] == h.blocks[x])
  {
    hide Tagged, Listed, Chained, Backed, Aligned;
    MergeShape(h.blocks, b);
    MergeSized(h.blocks, h.brk, b);
  }

  /** Case 2 of `coalesce`: the next block, already unlisted, is swallowed. */
  lemma SwallowNext(h: Heap, x: nat, h1: Heap, B: Blocks, m1: seq<byte>, m2: seq<byte>)
    requires Pending(h, x) && Merged(h.blocks, x, B) && h.blocks[x + h.blocks[x].size].free
    requires Formed(h1) && h1.brk == h.brk && h1.blocks == h.blocks && Loose(h1, {x, x + h.blocks[x].size})
    requires Retagged(h1.mem, m1, m2, x, B[x])
    ensures Pending(h1.(mem := m2, blocks := B), x) && NextBusy(B, x) && (PrevBusy(h.blocks, x) ==> PrevBusy(B, x))
    ensures Live(B) == Live(h.blocks) && PayloadsKept(h1.mem, m2, Live(B))
  {
    hide Tagged, Listed, Retagged, PayloadsKept, Live, CoalescedBut, Aligned, Chained, Backed;
    MergeTiles(h.blocks, h.brk, x);
    CoalesceNext(h.blocks, h.brk, x);
    LiveMerge(h.blocks, x);
    MergeShape(h.blocks, x);
    hide *;
    RetagLoose(h1, {x, x + h.blocks[x].size}, B, x, m1, m2);
    PendingIs(h1.(mem := m2, blocks := B), x);
  }

  lemma PendingIs(h: Heap, x: nat)
    requires Formed(h) && CoalescedBut(h.blocks, x) && x in h.blocks && h.blocks[x].free && Loose(h, {x})
    ensures Pending(h, x)
  {
  }

  /** Case 3: the previous block, already unlisted, swallows `x`. */
  lemma SwallowPrev(h: Heap, x: nat, p: nat, h1: Heap, B: Blocks, m1: seq<byte>, m2: seq<byte>)
    requires Pending(h, x) && NextBusy(h.blocks, x)
    requires Merged(h.blocks, p, B) && h.blocks[p].free && p + h.blocks[p].size == x
    requires Formed(h1) && h1.brk == h.brk && h1.blocks == h.blocks && Loose(h1, {x, p})
    requires Retagged(h1.mem, m1, m2, p, B[p])
    ensures Pending(h1.(mem := m2, blocks := B), p) && NextBusy(B, p) && PrevBusy(B, p)
    ensures Live(B) == Live(h.blocks) && PayloadsKept(h1.mem, m2, Live(B))
  {
    hide Tagged, Listed, Retagged, PayloadsKept, Live, CoalescedBut, Aligned, Chained, Backed;
    MergeOne(h.blocks, h.brk, x, p, B);
    hide *;
    RetagLoose(h1, {x, p}, B, p, m1, m2);
    PendingIs(h1.(mem := m2, blocks := B), p);
  }

  lemma MergeOne(B: Blocks, brk: nat, x: nat, p: nat, B': Blocks)
    requires Tiles(B, brk) && CoalescedBut(B, x) && x in B && B[x].free && NextBusy(B, x)
    requires Merged(B, p, B') && B[p].free && p + B[p].size == x
    ensures Tiles(B', brk) && B'[p] == Block(B[p].size + B[x].size, true)
    ensures (forall y :: y in B' <==> y in B && y != x) && (forall y :: y in B' && y != p ==> B'[y] == B[y])
    ensures CoalescedBut(B', p) && NextBusy(B', p) && PrevBusy(B', p) && Live(B') == Live(B)
  {
    MergeTiles(B, brk, p);
    CoalescePrev(B, brk, x, p);
    LiveMerge(B, p);
    MergeShape(B, p);
    hide *;
  }

  /** Case 4: both neighbours are unlisted and become one block with `x`. */
  lemma SwallowBoth(h: Heap, x: nat, p: nat, h1: Heap, B1: Blocks, B2: Blocks, m1: seq<byte>, m2: seq<byte>)
    requires Pending(h, x) && Merged(h.blocks, x, B1) && h.blocks[x + h.blocks[x].size].free
    requires p in h.blocks && h.blocks[p].free && p + h.blocks[p].size == x && Merged(B1, p, B2)
    requires Formed(h1) && h1.brk == h.brk && h1.blocks == h.blocks && Loose(h1, {x, x + h.blocks[x].size, p})
    requires Retagged(h1.mem, m1, m2, p, B2[p])
    ensures Pending(h1.(mem := m2, blocks := B2), p) && NextBusy(B2, p) && PrevBusy(B2, p)
    ensures Live(B2) == Live(h.blocks) && PayloadsKept(h1.mem, m2, Live(B2))
  {
    hide Tagged, Listed, Retagged, PayloadsKept, Live, CoalescedBut, Aligned, Chained, Backed;
    MergeTwo(h.blocks, h.brk, x, p, B1, B2);
    hide *;
    RetagLoose(h1, {x, x + h.blocks[x].size, p}, B2, p, m1, m2);
    PendingIs(h1.(mem := m2, blocks := B2), p);
  }

  lemma MergeTwoFits(h: Heap, x: nat, p: nat) returns (B1: Blocks, B2: Blocks)
    requires Formed(h) && x in h.blocks && x + h.blocks[x].size in h.blocks && p in h.blocks && p + h.blocks[p].size == x
    ensures Merged(h.blocks, x, B1) && Merged(B1, p, B2)
    ensures B2[p] == Block(h.blocks[p].size + h.blocks[x].size + h.blocks[x + h.blocks[x].size].size, h.blocks[p].free)
    ensures 8 <= B2[p].size && p + B2[p].size <= |h.mem| && Aligned(B2[p].size) && B2[p].size + 1 < WORD_LIMIT
  {
    hide Tagged, Listed, Chained, Backed, Aligned;
    B1 := Merge(h.blocks, x);
    assert p < x < x + h.blocks[x].size;
    MergeShape(h.blocks, x);
    MergeSized(h.blocks, h.brk, x);
    hide Merge;
    B2 := Merge(B1, p);
    MergeShape(B1, p);
    MergeSized(B1, h.brk, p);
  }

  lemma MergeTwo(B: Blocks, brk: nat, x: nat, p: nat, B1: Blocks, B2: Blocks)
    requires Tiles(B, brk) && CoalescedBut(B, x) && x in B && B[x].free && Merged(B, x, B1) && B[x + B[x].size].free
    requires p in B && B[p].free && p + B[p].size == x && Merged(B1, p, B2)
    ensures var n := x + B[x].size;
            && Tiles(B2, brk) && B2[p] == Block(B[p].size + B[x].size + B[n].size, true) && p != x && p != n
            && (forall y :: y in B2 <==> y in B && y != x && y != n) && (forall y :: y in B2 && y != p ==> B2[y] == B[y])
    ensures CoalescedBut(B2, p) && NextBusy(B2, p) && PrevBusy(B2, p) && Live(B2) == Live(B)
  {
    hide Aligned;
    assert p < x < x + B[x].size;
    MergeTiles(B, brk, x);
    CoalesceNext(B, brk, x);
    LiveMerge(B, x);
    MergeShape(B, x);
    assert B1[x].free && B1[p] == B[p];
    hide *;
    MergeOne(B1, brk, x, p, B2);
  }

  // ----------------------------------------------------- growing the heap

  /** `extend_heap`'s three tags: the new free block reaches to the new epilogue. */
  lemma GrowDone(h: Heap, size: nat, m1: seq<byte>, m2: seq<byte>, m3: seq<byte>)
    requires Valid(h) && Aligned(size) && MIN_BLOCK <= size && h.brk + size <= MAX_HEAP
    requires Retagged(h.mem, m1, m2, h.brk, Block(size, true))
    requires KeptOutside(m2, m3, h.brk + size - 4, h.brk + size) && Word(m3, h.brk + size - 4) == 1
    ensures var h' := h.(mem := m3, brk := h.brk + size, blocks := Grow(h.blocks, h.brk, size));
            Pending(h', h.brk) && h.brk !in h.blocks
    ensures PayloadsKept(h.mem, m3, Live(h.blocks))
    ensures Live(Grow(h.blocks, h.brk, size)) == Live(h.blocks)
  {
    hide Word, Pointer, ChangedOnly, Live, Listed, Tagged, KeptOutside, Retagged, Aligned, PayloadsKept;
    GrowTiles(h.blocks, h.brk, size);
    LiveGrow(h.blocks, h.brk, size);
    hide Chained, Backed;
    GrowTags(h, size, m1, m2, m3);
    GrowList(h, size, m1, m2, m3);
    GrowPayloads(h, size, m1, m2, m3);
    RetaggedSize(h.mem, m1, m2, h.brk, Block(size, true));
    KeptSize(m2, m3, h.brk + size - 4, h.brk + size);
  }

  lemma ValidSize(h: Heap)
    requires Valid(h)
    ensures Formed(h) && FIRST <= h.brk <= MAX_HEAP == |h.mem| && FreeOnly(h.blocks, h.free)
    ensures 0 < h.base && Aligned(h.base) && h.base + MAX_HEAP < ADDRESS_LIMIT
  {
  }

  lemma ValidSizeOf(h: Heap)
    requires Formed(h)
    ensures FreeOnly(h.blocks, h.free) && 0 < h.base
  {
  }

  lemma HeadIs(h: Heap)
    requires Formed(h)
    ensures h.head == At(h.base, h.free, 0)
  {
  }

  lemma ValidParts(h: Heap)
    requires Valid(h)
    ensures Formed(h) && Loose(h, {})
  {
  }

  lemma BlockSize(h: Heap, b: nat)
    requires Formed(h) && b in h.blocks
    ensures FIRST <= b && b + h.blocks[b].size <= |h.mem| && MIN_BLOCK <= h.blocks[b].size && h.blocks[b].size + 1 < WORD_LIMIT
    ensures Aligned(h.blocks[b].size) && Aligned(b) && b + h.blocks[b].size <= h.brk
  {
    hide Aligned, Tagged, Listed;
  }

  /** Payloads kept for a larger live map are kept for the smaller one. */
  lemma LiveGrew(m: seq<byte>, m': seq<byte>, live: map<nat, nat>, b: nat, size: nat)
    requires PayloadsKept(m, m', live[b := size]) && b !in live
    ensures PayloadsKept(m, m', live)
  {
    assert forall x :: x in live ==> x in live[b := size] && live[b := size][x] == live[x];
  }

  lemma LiveIsBusy(B: Blocks, b: nat)
    requires b in B
    ensures b in Live(B) <==> !B[b].free
    ensures b in Live(B) ==> Live(B)[b] == B[b].size
  {
  }

  lemma GrownBlock(h: Heap, size: nat)
    ensures h.brk in Grow(h.blocks, h.brk, size) && Grow(h.blocks, h.brk, size)[h.brk] == Block(size, true)
  {
  }

  lemma KeptSize(m: seq<byte>, m': seq<byte>, lo: nat, hi: nat)
    requires KeptOutside(m, m', lo, hi)
    ensures |m'| == |m|
  {
  }

  lemma GrowTags(h: Heap, size: nat, m1: seq<byte>, m2: seq<byte>, m3: seq<byte>)
    requires Formed(h) && MIN_BLOCK <= size && h.brk + size <= MAX_HEAP
    requires Retagged(h.mem, m1, m2, h.brk, Block(size, true))
    requires KeptOutside(m2, m3, h.brk + size - 4, h.brk + size) && Word(m3, h.brk + size - 4) == 1
    ensures Tagged(m3, Grow(h.blocks, h.brk, size), h.brk + size)
  {
    hide Word, Pointer, ChangedOnly, Listed, Aligned, FreeOnly, Chained, Backed, Disjoint, Tag;
    KeptSize(m2, m3, h.brk + size - 4, h.brk + size);
    forall x | x in Grow(h.blocks, h.brk, size)
      ensures Tags(m3, Grow(h.blocks, h.brk, size), x)
    {
      assert x != h.brk ==> Tags(h.mem, h.blocks, x);
    }
  }

  lemma GrowList(h: Heap, size: nat, m1: seq<byte>, m2: seq<byte>, m3: seq<byte>)
    requires Formed(h) && MIN_BLOCK <= size && h.brk + size <= MAX_HEAP
    requires Retagged(h.mem, m1, m2, h.brk, Block(size, true))
    requires KeptOutside(m2, m3, h.brk + size - 4, h.brk + size)
    ensures Listed(m3, h.base, h.head, h.free)
  {
    hide Word, Pointer, ChangedOnly, Tagged, Aligned, Chained, Backed, Disjoint, KeptOutside, Listed;
    forall k | 0 <= k < |h.free|
      ensures h.free[k] + 16 <= h.brk - 4
    {
      assert h.free[k] in h.blocks;
    }
    ListKept(h.mem, m1, h.base, h.head, h.free, h.brk - 4, h.brk);
    ListKept(m1, m2, h.base, h.head, h.free, h.brk + size - 8, h.brk + size - 4);
    ListKept(m2, m3, h.base, h.head, h.free, h.brk + size - 4, h.brk + size);
  }

  lemma GrowPayloads(h: Heap, size: nat, m1: seq<byte>, m2: seq<byte>, m3: seq<byte>)
    requires Formed(h) && MIN_BLOCK <= size && h.brk + size <= MAX_HEAP
    requires Retagged(h.mem, m1, m2, h.brk, Block(size, true))
    requires KeptOutside(m2, m3, h.brk + size - 4, h.brk + size)
    ensures PayloadsKept(h.mem, m3, Live(h.blocks))
  {
    hide Word, Pointer, Listed, Tagged, Aligned, Chained, Backed, Disjoint;
  }

  /** `mm_init`'s four words make a heap without blocks. */
  lemma StartDone(h: Heap, size: nat)
    requires 0 < h.base && Aligned(h.base) && h.base + MAX_HEAP < ADDRESS_LIMIT && |h.mem| == MAX_HEAP
    requires h.brk == 16 && h.head == 0 && h.blocks == map[] && h.free == []
    requires Word(h.mem, 4) == 9 && Word(h.mem, 8) == 9 && Word(h.mem, 12) == 1
    ensures Valid(h) && Live(h.blocks) == map[]
  {
  }

  // ------------------------------------------------------------- placing

  /** The remainder of a split block, tagged but not yet listed. */
  lemma SplitDone(h: Heap, b: nat, size: nat, h1: Heap, m1: seq<byte>, m2: seq<byte>, m3: seq<byte>, m4: seq<byte>)
    requires Valid(h) && b in h.blocks && h.blocks[b].free
    requires Aligned(size) && MIN_BLOCK <= size && size + MIN_BLOCK <= h.blocks[b].size
    requires Formed(h1) && Loose(h1, {b}) && h1.blocks == h.blocks && h1.brk == h.brk
    requires Retagged(h1.mem, m1, m2, b, Block(size, false))
    requires Retagged(m2, m3, m4, b + size, Block(h.blocks[b].size - size, true))
    ensures var B := Split(h.blocks, b, size);
            && Pending(h1.(mem := m4, blocks := B), b + size) && NextBusy(B, b + size) && PrevBusy(B, b + size)
            && Live(B) == Live(h.blocks)[b := size]
    ensures PayloadsKept(h1.mem, m4, Live(h.blocks))
  {
    hide Tagged, Listed, Retagged, PayloadsKept, Live, Aligned, Chained, Backed;
    var B := Split(h.blocks, b, size);
    SplitTiles(h.blocks, h.brk, b, size);
    SplitCoalesced(h.blocks, h.brk, b, size);
    LiveSplit(h.blocks, b, size);
    SplitShape(h.blocks, b, size);
    hide *;
    SplitFormed(h1, b, size, B, m1, m2, m3, m4);
    PendingIs(h1.(mem := m4, blocks := B), b + size);
  }

  lemma SplitFormed(h: Heap, b: nat, size: nat, B: Blocks, m1: seq<byte>, m2: seq<byte>, m3: seq<byte>, m4: seq<byte>)
    requires Formed(h) && Loose(h, {b}) && b in h.blocks && Tiles(B, h.brk) && b + size !in h.blocks
    requires (forall y :: y in B <==> y in h.blocks || y == b + size) && 0 < size < h.blocks[b].size
    requires forall y :: y in B && y != b && y != b + size ==> B[y] == h.blocks[y]
    requires B[b] == Block(size, false) && B[b + size] == Block(h.blocks[b].size - size, true) && h.blocks[b].free
    requires Retagged(h.mem, m1, m2, b, B[b]) && Retagged(m2, m3, m4, b + size, B[b + size])
    ensures var h' := h.(mem := m4, blocks := B);
            Formed(h') && Loose(h', {b + size})
    ensures PayloadsKept(h.mem, m4, Live(h.blocks))
  {
    hide Tagged, Listed, Retagged, PayloadsKept, Aligned, Chained, Backed, Live, TaggedBut;
    RetaggedSize(h.mem, m1, m2, b, B[b]);
    RetaggedSize(m2, m3, m4, b + size, B[b + size]);
    SplitHalf(h, b, size, B, m1, m2);
    TagsDone(m2, m3, m4, B, h.brk, b + size);
    FreeMembers(h.blocks, h.free);
    assert forall k :: 0 <= k < |h.free| ==> h.free[k] in h.free;
    ListKeptRetag(h.mem, m1, m2, B, h.brk, b, h.base, h.head, h.free);
    ListKeptRetag(m2, m3, m4, B, h.brk, b + size, h.base, h.head, h.free);
    TagsKeepPayloads(h.mem, m1, m2, B, h.brk, b);
    TagsKeepPayloads(m2, m3, m4, B, h.brk, b + size);
    PayloadsTwice(h.mem, m2, m4, Live(B));
    PayloadsFewer(h.mem, m4, h.blocks, B);
  }

  lemma PayloadsFewer(m: seq<byte>, m': seq<byte>, B: Blocks, B': Blocks)
    requires PayloadsKept(m, m', Live(B')) && forall x :: x in B && !B[x].free ==> x in B' && B'[x] == B[x]
    ensures PayloadsKept(m, m', Live(B))
  {
    assert forall x :: x in Live(B) ==> x in Live(B') && Live(B')[x] == Live(B)[x];
  }

  lemma SplitHalf(h: Heap, b: nat, size: nat, B: Blocks, m1: seq<byte>, m2: seq<byte>)
    requires Formed(h) && Tiles(B, h.brk) && b in B && b + size in B
    requires forall y :: y in B && y != b && y != b + size ==> y in h.blocks && B[y] == h.blocks[y]
    requires Retagged(h.mem, m1, m2, b, B[b])
    ensures TaggedBut(m2, B, h.brk, b + size)
  {
    hide Word, Pointer, ChangedOnly, Aligned, Listed, Chained, Backed, FreeOnly, Tag;
    forall x | x in B && x != b + size
      ensures Tags(m2, B, x)
    {
      assert x != b ==> Tags(h.mem, h.blocks, x);
    }
  }

  lemma SplitCoalesced(B: Blocks, brk: nat, b: nat, size: nat)
    requires Sized(B, brk) && Disjoint(B) && Coalesced(B) && b in B && B[b].free && 0 < size < B[b].size && b + size !in B
    ensures var B', n := Split(B, b, size), b + size;
            CoalescedBut(B', n) && NextBusy(B', n) && PrevBusy(B', n)
  {
    hide Aligned;
    SplitShape(B, b, size);
    hide Split;
  }

  lemma PlacedWhole(h: Heap, b: nat, h1: Heap, m1: seq<byte>, m2: seq<byte>)
    requires Valid(h) && b in h.blocks && h.blocks[b].free
    requires Formed(h1) && Loose(h1, {b}) && h1.blocks == h.blocks && h1.brk == h.brk
    requires Retagged(h1.mem, m1, m2, b, Block(h.blocks[b].size, false))
    ensures var B := Mark(h.blocks, b, false);
            Valid(h1.(mem := m2, blocks := B)) && Live(B) == Live(h.blocks)[b := h.blocks[b].size]
    ensures PayloadsKept(h1.mem, m2, Live(h.blocks))
  {
    hide Tagged, Listed, Retagged, PayloadsKept, Live, Aligned, Tiles, FreeOnly;
    var B := Mark(h.blocks, b, false);
    MarkTiles(h.blocks, h.brk, b, false);
    LiveMark(h.blocks, b, false);
    assert Coalesced(B);
    hide Coalesced;
    RetagLoose(h1, {b}, B, b, m1, m2);
    PayloadsFewer(h1.mem, m2, h.blocks, B);
  }

  // ------------------------------------------------- freeing and resizing

  /** The two stores of `mm_free`. */
  lemma FreeDone(h: Heap, b: nat, m1: seq<byte>, m2: seq<byte>)
    requires Valid(h) && b in h.blocks && !h.blocks[b].free
    requires Retagged(h.mem, m1, m2, b, Block(h.blocks[b].size, true))
    ensures var B := Mark(h.blocks, b, true);
            && Pending(h.(mem := m2, blocks := B), b)
            && Live(B) == Live(h.blocks) - {b} && PayloadsKept(h.mem, m2, Live(B))
  {
    hide Tagged, Listed, Retagged, PayloadsKept, Live, Aligned, Tiles, FreeOnly;
    var B := Mark(h.blocks, b, true);
    MarkTiles(h.blocks, h.brk, b, true);
    LiveMark(h.blocks, b, true);
    assert CoalescedBut(B, b);
    hide Coalesced, CoalescedBut;
    RetagLoose(h, {b}, B, b, m1, m2);
    PendingIs(h.(mem := m2, blocks := B), b);
  }

  /** `mm_realloc` takes the next block whole. */
  lemma GrownForward(h: Heap, b: nat, h1: Heap, B: Blocks, m1: seq<byte>, m2: seq<byte>)
    requires Valid(h) && Merged(h.blocks, b, B) && !h.blocks[b].free && h.blocks[b + h.blocks[b].size].free
    requires Formed(h1) && Loose(h1, {b + h.blocks[b].size}) && h1.blocks == h.blocks && h1.brk == h.brk
    requires Retagged(h1.mem, m1, m2, b, B[b])
    ensures Valid(h1.(mem := m2, blocks := B)) && Live(B) == Live(h.blocks)[b := B[b].size]
    ensures PayloadsKept(h1.mem, m2, Live(B))
  {
    hide Tagged, Listed, Retagged, PayloadsKept, Live, Aligned, FreeOnly, Tiles, Coalesced;
    var n := b + h.blocks[b].size;
    MergeIntoBusy(h.blocks, h.brk, b, B);
    LooseWider(h1, n, b);
    hide *;
    RetagLoose(h1, {n, b}, B, b, m1, m2);
    ValidIs(h1.(mem := m2, blocks := B));
  }

  lemma MergeIntoBusy(B: Blocks, brk: nat, b: nat, B': Blocks)
    requires Tiles(B, brk) && Coalesced(B) && Merged(B, b, B') && !B[b].free && B[b + B[b].size].free
    ensures Tiles(B', brk) && Coalesced(B') && !B'[b].free && Live(B') == Live(B)[b := B'[b].size]
    ensures forall y :: y in B' <==> y in B && y != b + B[b].size
    ensures forall y :: y in B' && y != b ==> B'[y] == B[y]
  {
    hide Aligned, Chained, Backed, Coalesced, Live, Disjoint;
    MergeTiles(B, brk, b);
    LiveMergeInto(B, b);
    StillCoalesced(B, brk, b);
    MergeShape(B, b);
    hide *;
  }

  lemma LooseWider(h: Heap, x: nat, y: nat)
    requires Loose(h, {x}) && y in h.blocks && !h.blocks[y].free
    ensures Loose(h, {x, y})
  {
  }

  lemma ValidIs(h: Heap)
    requires Formed(h) && Coalesced(h.blocks) && Loose(h, {})
    ensures Valid(h)
  {
  }

  lemma LiveMergeInto(B: Blocks, b: nat)
    requires b in B && B[b].size > 0 && b + B[b].size in B && !B[b].free && B[b + B[b].size].free
    ensures Live(Merge(B, b)) == Live(B)[b := B[b].size + B[b + B[b].size].size]
  {
    MergeShape(B, b);
    var B' := Merge(B, b);
    hide Merge;
    assert forall x :: x in Live(B') <==> x in Live(B);
    assert forall x :: x in Live(B) && x != b ==> Live(B')[x] == Live(B)[x];
  }

  lemma StillCoalesced(B: Blocks, brk: nat, b: nat)
    requires Sized(B, brk) && Disjoint(B) && Coalesced(B) && b in B && !B[b].free && b + B[b].size in B && B[b + B[b].size].free
    ensures Coalesced(Merge(B, b))
  {
    hide Aligned;
    MergeShape(B, b);
    hide Merge;
  }

  /** `mm_realloc` moves down over the whole previous block. */
  lemma GrownBackward(h: Heap, b: nat, p: nat, h1: Heap, B1: Blocks, B2: Blocks, m1: seq<byte>, m2: seq<byte>)
    requires Valid(h) && b in h.blocks && !h.blocks[b].free
    requires Merged(h.blocks, p, B1) && h.blocks[p].free && p + h.blocks[p].size == b && B2 == Mark(B1, p, false)
    requires Formed(h1) && Loose(h1, {p}) && h1.blocks == h.blocks && h1.brk == h.brk
    requires Retagged(h1.mem, m1, m2, p, B2[p])
    ensures Valid(h1.(mem := m2, blocks := B2)) && Live(B2) == (Live(h.blocks) - {b})[p := B2[p].size]
    ensures PayloadsKept(h1.mem, m2, Live(B2))
  {
    hide Tagged, Listed, Retagged, PayloadsKept, Live, Aligned, FreeOnly, Chained, Backed;
    assert p < b;
    MergeTiles(h.blocks, h.brk, p);
    MergeShape(h.blocks, p);
    MarkTiles(B1, h.brk, p, false);
    LiveMergeBack(h.blocks, p);
    LiveMark(B1, p, false);
    BackCoalesced(h.blocks, h.brk, p);
    LooseWider(h1, p, b);
    hide *;
    RetagLoose(h1, {p, b}, B2, p, m1, m2);
    ValidIs(h1.(mem := m2, blocks := B2));
  }

  lemma LiveMergeBack(B: Blocks, p: nat)
    requires p in B && B[p].size > 0 && p + B[p].size in B && B[p].free && !B[p + B[p].size].free
    ensures Live(Merge(B, p)) == Live(B) - {p + B[p].size}
  {
    MergeShape(B, p);
    var B' := Merge(B, p);
    hide Merge;
    assert forall x :: x in Live(B') <==> x in Live(B) && x != p + B[p].size;
    assert forall x :: x in Live(B') ==> Live(B')[x] == Live(B)[x];
  }

  lemma BackCoalesced(B: Blocks, brk: nat, p: nat)
    requires Sized(B, brk) && Disjoint(B) && Coalesced(B) && p in B && B[p].free && p + B[p].size in B && !B[p + B[p].size].free
    requires p in Merge(B, p)
    ensures Coalesced(Mark(Merge(B, p), p, false))
  {
    hide Aligned;
    MergeShape(B, p);
    hide Merge;
  }

  lemma LiveBlock(h: Heap, b: nat)
    requires Valid(h) && b in Live(h.blocks)
    ensures Formed(h) && b in h.blocks && !h.blocks[b].free && Live(h.blocks)[b] == h.blocks[b].size
    ensures MIN_BLOCK <= h.blocks[b].size <= MAX_HEAP && FIRST <= b && b + h.blocks[b].size <= |h.mem| && Aligned(b) && Aligned(h.base)
  {
    hide Tagged, Listed, Aligned, Coalesced;
  }

  lemma MarkIs(B: Blocks, b: nat, free: bool)
    requires b in B
    ensures b in Mark(B, b, free) && Mark(B, b, free)[b] == Block(B[b].size, free)
  {
  }

  lemma ForwardKept(h: Heap, h1: Heap, h': Heap, b: nat)
    requires b in h.blocks && !h.blocks[b].free && b in h'.blocks && Live(h'.blocks) == Live(h.blocks)[b := h'.blocks[b].size]
    requires h.blocks[b].size <= h'.blocks[b].size
    requires PayloadsKept(h.mem, h1.mem, Live(h.blocks)) && PayloadsKept(h1.mem, h'.mem, Live(h'.blocks))
    ensures PayloadsKept(h.mem, h'.mem, Live(h.blocks))
  {
    assert forall x :: x in Live(h.blocks) ==> x in Live(h'.blocks) && Live(h.blocks)[x] <= Live(h'.blocks)[x];
  }

  // ------------------------------------------------ what callers may write

  ghost predicate InPayload(i: nat, live: map<nat, nat>) {
    exists b :: b in live && b <= i && i + 8 < b + live[b]
  }

  /** Only bytes of live payloads differ. */
  ghost predicate OnlyPayloads(m: seq<byte>, m': seq<byte>, live: map<nat, nat>) {
    |m'| == |m| && forall i: nat :: i < |m| && !InPayload(i, live) ==> m'[i] == m[i]
  }

  lemma WordUntouched(m: seq<byte>, m': seq<byte>, live: map<nat, nat>, a: nat)
    requires OnlyPayloads(m, m', live) && a + 4 <= |m|
    requires forall b :: b in live ==> a + 4 <= b || b + live[b] <= a + 8
    ensures Word(m', a) == Word(m, a)
  {
    assert forall i :: a <= i < a + 4 ==> !InPayload(i, live);
  }

  /** Whatever callers do inside their live payloads leaves the heap well formed. */
  lemma CallersMayWrite(h: Heap, m': seq<byte>)
    requires Valid(h) && OnlyPayloads(h.mem, m', Live(h.blocks))
    ensures Valid(h.(mem := m'))
  {
    hide Word, Chained, Backed, Aligned, Listed, Coalesced, OnlyPayloads;
    assert |m'| == |h.mem| by {
      OnlyPayloadsSize(h.mem, m', Live(h.blocks));
    }
    CallersKeepTags(h, m');
    CallersKeepLinks(h, m');
  }

  lemma OnlyPayloadsSize(m: seq<byte>, m': seq<byte>, live: map<nat, nat>)
    requires OnlyPayloads(m, m', live)
    ensures |m'| == |m|
  {
  }

  lemma CallersKeepTags(h: Heap, m': seq<byte>)
    requires Formed(h) && OnlyPayloads(h.mem, m', Live(h.blocks))
    ensures Tagged(m', h.blocks, h.brk)
  {
    hide Word, Chained, Backed, Aligned, Listed, FreeOnly, OnlyPayloads;
    var live := Live(h.blocks);
    OnlyPayloadsSize(h.mem, m', live);
    WordUntouched(h.mem, m', live, 4);
    WordUntouched(h.mem, m', live, 8);
    WordUntouched(h.mem, m', live, h.brk - 4);
    forall b | b in h.blocks
      ensures Tags(m', h.blocks, b)
    {
      assert Tags(h.mem, h.blocks, b);
      WordUntouched(h.mem, m', live, b - 4);
      WordUntouched(h.mem, m', live, b + h.blocks[b].size - 8);
    }
  }

  lemma CallersKeepLinks(h: Heap, m': seq<byte>)
    requires Formed(h) && OnlyPayloads(h.mem, m', Live(h.blocks))
    ensures Listed(m', h.base, h.head, h.free)
  {
    hide Word, Chained, Backed, Aligned, Tagged, OnlyPayloads;
    var live := Live(h.blocks);
    OnlyPayloadsSize(h.mem, m', live);
    forall k: nat | k < |h.free|
      ensures Links(m', h.base, h.free, k)
    {
      assert Links(h.mem, h.base, h.free, k) && h.free[k] in h.blocks && h.blocks[h.free[k]].free;
      WordUntouched(h.mem, m', live, h.free[k]);
      WordUntouched(h.mem, m', live, h.free[k] + 4);
      WordUntouched(h.mem, m', live, h.free[k] + 8);
      WordUntouched(h.mem, m', live, h.free[k] + 12);
    }
  }

  // ------------------------------------------------ what validity amounts to

  /** Payloads handed out are 8-aligned, inside the heap and apart; every free
      block is on the list exactly once, and its neighbours are in use. */
  lemma ValidMeans(h: Heap)
    requires Valid(h)
    ensures forall b :: b in Live(h.blocks) ==>
              FIRST <= b && b + Live(h.blocks)[b] <= h.brk && Aligned(h.base + b) && MIN_BLOCK <= Live(h.blocks)[b]
    ensures forall a, b :: a in Live(h.blocks) && b in Live(h.blocks) && a < b ==> a + Live(h.blocks)[a] <= b
    ensures forall b :: b in h.blocks && h.blocks[b].free ==> b in h.free
    ensures forall j, k :: 0 <= j < k < |h.free| ==> h.free[j] != h.free[k]
    ensures forall b :: b in h.blocks && h.blocks[b].free ==> NextBusy(h.blocks, b) && PrevBusy(h.blocks, b)
  {
    hide Tagged, Listed, Chained, Backed;
    forall b | b in Live(h.blocks)
      ensures Aligned(h.base + b)
    {
      AlignedSums(h.base, b);
    }
    hide Aligned;
  }

  /** Following NEXT_BLKP through the bytes from any block meets exactly the
      blocks of the map, ending at the epilogue. */
  ghost function Sweep(m: seq<byte>, b: nat, fuel: nat): (s: seq<nat>)
    decreases fuel
  {
    if fuel == 0 || b < 4 || |m| < b || SizeOf(Word(m, b - 4)) == 0 then []
    else [b] + Sweep(m, b + SizeOf(Word(m, b - 4)), fuel - 1)
  }

  lemma {:induction false} SweepFinds(h: Heap, b: nat, fuel: nat)
    requires Formed(h) && (b in h.blocks || b == h.brk) && h.brk <= b + fuel
    ensures forall x :: x in Sweep(h.mem, b, fuel) <==> x in h.blocks && b <= x
    decreases fuel
  {
    hide Word, Listed, FreeOnly, Backed;
    if b == h.brk {
      TagReads(Block(0, false));
      TagSmall(Block(0, false));
    } else {
      assert Tags(h.mem, h.blocks, b) && HasNext(h.blocks, h.brk, b);
      TagReads(h.blocks[b]);
      var n := b + h.blocks[b].size;
      hide SizeOf, Tag, Aligned;
      if fuel > 0 {
        SweepFinds(h, n, fuel - 1);
      }
    }
  }
}
