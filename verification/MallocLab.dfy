/** mm.c: the boundary-tag allocator with an explicit free list.  Block
    pointers are offsets from the start of the heap; the pointers stored in
    the heap and handed to callers are absolute, `base` being the heap's
    address. */
module MallocLab {
  import opened HeapBytes
  import opened BlockMap
  import opened HeapLayout
  import opened HeapSteps
  import opened RequestSizes

  ghost predicate Fits(h: Heap, asize: nat, k: nat)
    requires FreeOnly(h.blocks, h.free) && k < |h.free|
  {
    asize <= h.blocks[h.free[k]].size
  }

  /** Among the first `n` listed blocks, the `k`-th is the first smallest that fits. */
  ghost predicate BestIn(h: Heap, asize: nat, k: nat, n: nat)
    requires FreeOnly(h.blocks, h.free) && n <= |h.free|
  {
    && k < n && Fits(h, asize, k)
    && forall j :: 0 <= j < n && Fits(h, asize, j) ==>
         h.blocks[h.free[k]].size < h.blocks[h.free[j]].size
         || (h.blocks[h.free[k]].size == h.blocks[h.free[j]].size && k <= j)
  }

  ghost predicate SomeFits(h: Heap, asize: nat) {
    FreeOnly(h.blocks, h.free) && exists k: nat :: k < |h.free| && Fits(h, asize, k)
  }

  /** `b` is the smallest free block that fits, and of those the first listed. */
  ghost predicate Best(h: Heap, asize: nat, b: nat) {
    FreeOnly(h.blocks, h.free) && exists k: nat :: k < |h.free| && BestIn(h, asize, k, |h.free|) && b == h.free[k]
  }

  /** The block behind `b` is free and large enough together with it. */
  ghost predicate RoomBehind(B: Blocks, b: nat, asize: nat) {
    && b in B && b + B[b].size in B && B[b + B[b].size].free
    && asize <= B[b].size + B[b + B[b].size].size
  }

  /** `p` is the block before `b`, free, and large enough together with it. */
  ghost predicate RoomBefore(B: Blocks, p: nat, b: nat, asize: nat) {
    && b in B && p in B && p + B[p].size == b && B[p].free
    && asize <= B[p].size + B[b].size
  }

  lemma NoRoomBefore(h: Heap, b: nat, asize: nat)
    requires Valid(h) && b in h.blocks
    requires b == FIRST || exists p :: p in h.blocks && p + h.blocks[p].size == b && !RoomBefore(h.blocks, p, b, asize)
    ensures forall q :: q in h.blocks ==> !RoomBefore(h.blocks, q, b, asize)
  {
    hide Tagged, Listed, FreeOnly, Aligned, Loose, Coalesced;
    forall q | q in h.blocks && q + h.blocks[q].size == b
      ensures !RoomBefore(h.blocks, q, b, asize)
    {
      if b != FIRST {
        var p :| p in h.blocks && p + h.blocks[p].size == b && !RoomBefore(h.blocks, p, b, asize);
        PrevIsUnique(h.blocks, h.brk, p, q);
      }
    }
  }

  /** No listed block fits and the heap cannot grow: `mm_malloc` gives up. */
  ghost predicate Refused(h: Heap, asize: nat) {
    !SomeFits(h, asize) && !Granted(h.brk, ExtendBytes(asize))
  }

  /** What `mm_realloc` promises for live block `b`: nothing changes, or the
      block is replaced by one large enough that starts with the same bytes,
      and all other payloads are as before. */
  ghost predicate Resized(h: Heap, h': Heap, b: nat, size: nat, p: nat) {
    Valid(h') && b in Live(h.blocks) &&
    if p == 0 then h' == h
    else
      && h.base <= p && Aligned(p) && p - h.base in Live(h'.blocks)
      && (p - h.base == b || p - h.base !in Live(h.blocks))
      && size + 8 <= Live(h'.blocks)[p - h.base]
      && Live(h'.blocks) == (Live(h.blocks) - {b})[p - h.base := Live(h'.blocks)[p - h.base]]
      && PayloadsKept(h.mem, h'.mem, Live(h.blocks) - {b})
      && PrefixKept(h, h', b, p - h.base, size)
  }

  /** The first `size` bytes, or all of the old block's if those are fewer. */
  ghost predicate PrefixKept(h: Heap, h': Heap, b: nat, b': nat, size: nat)
    requires b in Live(h.blocks)
  {
    forall k :: b <= k < b + size && k + 8 < b + Live(h.blocks)[b] && k < |h.mem| && k - b + b' < |h'.mem| ==>
      h'.mem[k - b + b'] == h.mem[k]
  }

  /** Live block `b` has become block `p`, which starts with all of its bytes. */
  ghost predicate Taken(h: Heap, h': Heap, b: nat, p: nat) {
    && b in Live(h.blocks) && p in Live(h'.blocks) && p !in Live(h.blocks) && Live(h.blocks)[b] <= Live(h'.blocks)[p]
    && Live(h'.blocks) == (Live(h.blocks) - {b})[p := Live(h'.blocks)[p]]
    && PayloadsKept(h.mem, h'.mem, Live(h.blocks) - {b})
    && PrefixKept(h, h', b, p, Live(h.blocks)[b])
  }

  ghost function SizeAt(B: Blocks, b: nat): nat {
    if b in B then B[b].size else 0
  }

  ghost function LiveAt(h: Heap, b: nat): nat {
    if b in Live(h.blocks) then Live(h.blocks)[b] else 0
  }

  ghost predicate SomeRoomBefore(B: Blocks, b: nat, asize: nat) {
    exists q: nat :: RoomBefore(B, q, b, asize)
  }

  /** `mm_malloc` chose the new block. */
  ghost predicate Rehoused(h: Heap, size: nat, p: nat) {
    && (p == 0 <==> Refused(h, AdjustedSize(size)))
    && (p != 0 && SomeFits(h, AdjustedSize(size)) ==> h.base <= p && Best(h, AdjustedSize(size), p - h.base))
  }

  /** Which of its four ways `mm_realloc` goes: the block is large enough as it
      is, grows into the next one, moves down into the previous one, or is
      given up for a new block, which fails exactly when `mm_malloc` does. */
  ghost predicate PathTaken(h: Heap, h': Heap, b: nat, size: nat, p: nat) {
    var asize := PlainSize(size);
    var was := SizeAt(h.blocks, b);
    if asize <= was then h' == h && p == h.base + b
    else if RoomBehind(h.blocks, b, asize) then
      p == h.base + b && LiveAt(h', b) == was + SizeAt(h.blocks, b + was)
    else if SomeRoomBefore(h.blocks, b, asize) then
      && h.base <= p && RoomBefore(h.blocks, p - h.base, b, asize)
      && LiveAt(h', p - h.base) == SizeAt(h.blocks, p - h.base) + was
    else Rehoused(h, size, p)
  }

  /** The overlapping copy of the backward merge, read as an ascending one. */
  lemma MovedDown(h: Heap, h1: Heap, h2: Heap, b: nat, p: nat, m: seq<byte>)
    requires Valid(h) && b in h.blocks && !h.blocks[b].free && p in h.blocks && h.blocks[p].free && p + h.blocks[p].size == b
    requires p in h2.blocks && !h2.blocks[p].free && h2.blocks[p].size == h.blocks[p].size + h.blocks[b].size
    requires Valid(h2) && Live(h2.blocks) == (Live(h.blocks) - {b})[p := h2.blocks[p].size]
    requires PayloadsKept(h.mem, h1.mem, Live(h.blocks)) && PayloadsKept(h1.mem, h2.mem, Live(h2.blocks))
    requires KeptOutside(h2.mem, m, p, p + h.blocks[b].size - 8)
    requires forall k :: p <= k < p + h.blocks[b].size - 8 && k < |m| && k - p + b < |h2.mem| ==> m[k] == h2.mem[k - p + b]
    ensures OnlyPayloads(h2.mem, m, Live(h2.blocks))
    ensures Taken(h, h2.(mem := m), b, p)
  {
    hide Word, Pointer, Tagged, Listed, Chained, Backed, Aligned, Coalesced, PayloadsKept, PrefixKept, OnlyPayloads;
    var old_size := h.blocks[b].size;
    assert ChangedOnly(h2.mem, m, p, p + old_size - 8);
    CopyIsInside(h2.mem, m, Live(h2.blocks), p, old_size);
    OthersKept(h, h1.mem, h2.mem, m, b, p, Live(h2.blocks));
    PrefixMoved(h, h1.mem, h2, m, b, p);
  }

  lemma CopyIsInside(m: seq<byte>, m': seq<byte>, live: map<nat, nat>, p: nat, n: nat)
    requires 8 <= n && ChangedOnly(m, m', p, p + n - 8) && p in live && n <= live[p]
    ensures OnlyPayloads(m, m', live)
  {
    forall i: nat | i < |m| && !InPayload(i, live)
      ensures m'[i] == m[i]
    {
      assert !(p <= i && i + 8 < p + live[p]);
    }
  }

  lemma OthersKept(h: Heap, m1: seq<byte>, m2: seq<byte>, m3: seq<byte>, b: nat, p: nat, live: map<nat, nat>)
    requires Sized(h.blocks, h.brk) && Disjoint(h.blocks) && b in h.blocks && p in h.blocks && h.blocks[p].free
    requires p + h.blocks[p].size == b && live == (Live(h.blocks) - {b})[p := h.blocks[p].size + h.blocks[b].size]
    requires PayloadsKept(h.mem, m1, Live(h.blocks)) && PayloadsKept(m1, m2, live)
    requires ChangedOnly(m2, m3, p, p + h.blocks[b].size - 8)
    ensures PayloadsKept(h.mem, m3, Live(h.blocks) - {b})
  {
    hide Aligned;
    forall x, i: nat | x in Live(h.blocks) && x != b && x <= i && i + 8 < x + Live(h.blocks)[x] && i < |h.mem|
      ensures m3[i] == h.mem[i]
    {
      assert x in live && live[x] == Live(h.blocks)[x];
      assert i < p || b + h.blocks[b].size <= i;
      assert m2[i] == m1[i] == h.mem[i];
    }
  }

  lemma PrefixMoved(h: Heap, m1: seq<byte>, h2: Heap, m: seq<byte>, b: nat, p: nat)
    requires b in h.blocks && !h.blocks[b].free && p in h.blocks && p + h.blocks[p].size == b
    requires p in h2.blocks && !h2.blocks[p].free && h2.blocks[p].size == h.blocks[p].size + h.blocks[b].size
    requires PayloadsKept(h.mem, m1, Live(h.blocks)) && PayloadsKept(m1, h2.mem, Live(h2.blocks)) && |m| == |h2.mem|
    requires forall k :: p <= k < p + h.blocks[b].size - 8 && k < |m| && k - p + b < |h2.mem| ==> m[k] == h2.mem[k - p + b]
    ensures PrefixKept(h, h2.(mem := m), b, p, Live(h.blocks)[b])
  {
    forall k | b <= k && k + 8 < b + Live(h.blocks)[b] && k < |h.mem| && k - b + p < |m|
      ensures m[k - b + p] == h.mem[k]
    {
      var j := k - b + p;
      assert m[j] == h2.mem[j - p + b];
      assert p in Live(h2.blocks) && p <= k && k + 8 < p + Live(h2.blocks)[p];
      assert h2.mem[k] == m1[k] == h.mem[k];
    }
  }

  ghost predicate Snug(B: Blocks, b: nat, asize: nat) {
    b in Live(B) && asize <= Live(B)[b] < asize + MIN_BLOCK
  }

  lemma FitsIs(h: Heap, asize: nat, k: nat)
    requires FreeOnly(h.blocks, h.free) && k < |h.free|
    ensures Fits(h, asize, k) <==> asize <= h.blocks[h.free[k]].size
  {
  }

  /** An exact fit is not beaten by any block further on. */
  lemma SmallestIs(h: Heap, asize: nat, i: nat, k: nat)
    requires FreeOnly(h.blocks, h.free) && i <= k < |h.free| && BestIn(h, asize, i, k + 1) && h.blocks[h.free[k]].size == asize
    ensures BestIn(h, asize, i, |h.free|)
  {
    assert Fits(h, asize, k);
  }

  /** What `mm_malloc` promises: nothing changes, or there is one more live
      block, large enough, aligned, and all other payloads are as before. */
  ghost predicate Served(h: Heap, h': Heap, size: nat, p: nat) {
    Valid(h') &&
    if p == 0 then h' == h
    else
      && h.base <= p && Aligned(p) && p - h.base !in Live(h.blocks) && p - h.base in Live(h'.blocks)
      && size + 8 <= Live(h'.blocks)[p - h.base]
      && Live(h'.blocks) == Live(h.blocks)[p - h.base := Live(h'.blocks)[p - h.base]]
      && PayloadsKept(h.mem, h'.mem, Live(h.blocks))
  }

  lemma BestFits(h: Heap, asize: nat, b: nat)
    requires Best(h, asize, b)
    ensures b in h.blocks && h.blocks[b].free && asize <= h.blocks[b].size
    ensures SomeFits(h, asize)
  {
  }

  lemma ServedIs(h: Heap, h1: Heap, h': Heap, size: nat, b: nat)
    requires Valid(h1) && Valid(h') && h'.base == h1.base == h.base && Live(h1.blocks) == Live(h.blocks)
    requires b in h1.blocks && h1.blocks[b].free && b in Live(h'.blocks) && size + 8 <= Live(h'.blocks)[b]
    requires Live(h'.blocks) == Live(h.blocks)[b := Live(h'.blocks)[b]] && PayloadsKept(h.mem, h'.mem, Live(h.blocks))
    ensures Served(h, h', size, h.base + b)
  {
    hide Formed, PayloadsKept, Live, Aligned, Coalesced, Loose;
    BlockSize(h1, b);
    ValidSize(h1);
    AlignedSums(h.base, b);
    LiveIsBusy(h1.blocks, b);
  }

  lemma NotResized(h: Heap, h': Heap, b: nat, size: nat)
    requires Served(h, h', size, 0) && b in h.blocks && !h.blocks[b].free
    ensures Resized(h, h', b, size, 0)
  {
  }

  lemma ServedParts(h: Heap, h': Heap, b: nat, size: nat, p: nat)
    requires Valid(h) && b in h.blocks && !h.blocks[b].free && Served(h, h', size, p) && p != 0 && h'.base == h.base
    ensures h.base <= p && Valid(h') && Aligned(p) && |h'.mem| == |h.mem|
    ensures p - h.base + size + 8 <= |h'.mem|
    ensures p - h.base + size + 8 <= b || b + h.blocks[b].size <= p - h.base
  {
    hide Word, Pointer, Tagged, Listed, Chained, Backed, Aligned, Coalesced, PayloadsKept;
    LiveIsBusy(h.blocks, b);
    LiveBlock(h', p - h.base);
    LiveBlock(h', b);
  }

  /** The copy stays inside the new block. */
  lemma CopiedOut(h: Heap, h1: Heap, h2: Heap, b: nat, size: nat, p: nat, n: nat)
    requires Valid(h) && b in h.blocks && !h.blocks[b].free && Served(h, h1, size, p) && p != 0 && h1.base == h.base
    requires n <= size && h2 == h1.(mem := h2.mem) && h.base <= p && KeptOutside(h1.mem, h2.mem, p - h.base, p - h.base + n)
    ensures Valid(h2) && b in Live(h2.blocks) && b in h2.blocks
  {
    hide Word, Pointer, Tagged, Listed, Tiles, Aligned, Coalesced, PayloadsKept, OnlyPayloads, Valid;
    assert ChangedOnly(h1.mem, h2.mem, p - h.base, p - h.base + n);
    CopyIsInside(h1.mem, h2.mem, Live(h1.blocks), p - h.base, n + 8);
    CallersMayWrite(h1, h2.mem);
    LiveIsBusy(h.blocks, b);
  }

  lemma Relocated(h: Heap, h1: Heap, h2: Heap, h3: Heap, b: nat, size: nat, p: nat, n: nat)
    requires Valid(h) && b in h.blocks && !h.blocks[b].free && Served(h, h1, size, p) && p != 0 && h1.base == h.base
    requires h2 == h1.(mem := h2.mem) && n == (if size < h.blocks[b].size - 8 then size else h.blocks[b].size - 8)
    requires h.base <= p && KeptOutside(h1.mem, h2.mem, p - h.base, p - h.base + n)
    requires forall k :: p - h.base <= k < p - h.base + n && k < |h2.mem| && k - (p - h.base) + b < |h1.mem| ==>
               h2.mem[k] == h1.mem[k - (p - h.base) + b]
    requires Valid(h3) && Live(h3.blocks) == Live(h2.blocks) - {b} && PayloadsKept(h2.mem, h3.mem, Live(h3.blocks))
    ensures Resized(h, h3, b, size, p)
  {
    hide Word, Pointer, Formed, Aligned, Coalesced, Loose, PayloadsKept, PrefixKept, KeptOutside, Live, Valid;
    var b' := p - h.base;
    LiveIsBusy(h.blocks, b);
    LiveBlock(h, b);
    LiveBlock(h1, b);
    ValidSize(h1);
    ValidSize(h3);
    LiveBlock(h3, b');
    assert b' != b && b' in Live(h1.blocks);
    assert Live(h3.blocks) == (Live(h.blocks) - {b})[b' := Live(h3.blocks)[b']];
    BesidesCopy(h, h1, h2.mem, h3.mem, b, b', n, Live(h3.blocks));
    KeptSize(h1.mem, h2.mem, b', b' + n);
    PrefixCopied(h, h1.mem, h2.mem, h3, b, b', size, n);
  }

  lemma BesidesCopy(h: Heap, h1: Heap, m2: seq<byte>, m3: seq<byte>, b: nat, b': nat, n: nat, live: map<nat, nat>)
    requires Valid(h1) && b' in Live(h1.blocks) && b' !in Live(h.blocks) && n + 8 <= Live(h1.blocks)[b']
    requires Live(h1.blocks) == Live(h.blocks)[b' := Live(h1.blocks)[b']] && live == Live(h1.blocks) - {b}
    requires PayloadsKept(h.mem, h1.mem, Live(h.blocks)) && KeptOutside(h1.mem, m2, b', b' + n) && PayloadsKept(m2, m3, live)
    ensures PayloadsKept(h.mem, m3, Live(h.blocks) - {b})
  {
    hide Word, Pointer, Aligned, Coalesced, Loose, Tagged, Listed, Chained, Backed;
    forall x, i: nat | x in Live(h.blocks) && x != b && x <= i && i + 8 < x + Live(h.blocks)[x] && i < |h.mem|
      ensures m3[i] == h.mem[i]
    {
      assert x in Live(h1.blocks) && Live(h1.blocks)[x] == Live(h.blocks)[x] && x != b';
      assert x in live && live[x] == Live(h.blocks)[x];
      assert i < b' || b' + n <= i;
      assert m2[i] == h1.mem[i] == h.mem[i];
    }
  }

  lemma PrefixCopied(h: Heap, m1: seq<byte>, m2: seq<byte>, h3: Heap, b: nat, b': nat, size: nat, n: nat)
    requires b in Live(h.blocks) && b' in Live(h3.blocks) && size + 8 <= Live(h3.blocks)[b'] && |m1| == |m2|
    requires size <= n || Live(h.blocks)[b] <= n + 8
    requires PayloadsKept(h.mem, m1, Live(h.blocks)) && PayloadsKept(m2, h3.mem, Live(h3.blocks))
    requires forall k :: b' <= k < b' + n && k < |m2| && k - b' + b < |m1| ==> m2[k] == m1[k - b' + b]
    ensures PrefixKept(h, h3, b, b', size)
  {
    forall k | b <= k < b + size && k + 8 < b + Live(h.blocks)[b] && k < |h.mem| && k - b + b' < |h3.mem|
      ensures h3.mem[k - b + b'] == h.mem[k]
    {
      var j := k - b + b';
      assert b' <= j && j + 8 < b' + Live(h3.blocks)[b'] && h3.mem[j] == m2[j];
      assert m2[j] == m1[j - b' + b];
      assert m1[k] == h.mem[k];
    }
  }

  lemma PrefixShorter(h: Heap, h': Heap, b: nat, p: nat, size: nat)
    requires b in Live(h.blocks) && PrefixKept(h, h', b, p, Live(h.blocks)[b])
    ensures PrefixKept(h, h', b, p, size)
  {
  }

  lemma TakenPath(h: Heap, h': Heap, b: nat, size: nat, p: nat)
    requires b in h.blocks
    requires var asize, was := PlainSize(size), h.blocks[b].size;
             (asize <= was && h' == h && p == h.base + b)
             || (asize > was && RoomBehind(h.blocks, b, asize) && p == h.base + b
                 && LiveAt(h', b) == was + SizeAt(h.blocks, b + was))
             || (asize > was && !RoomBehind(h.blocks, b, asize) && h.base <= p && RoomBefore(h.blocks, p - h.base, b, asize)
                 && LiveAt(h', p - h.base) == SizeAt(h.blocks, p - h.base) + was)
             || (asize > was && !RoomBehind(h.blocks, b, asize)
                 && (forall q: nat :: q in h.blocks ==> !RoomBefore(h.blocks, q, b, asize)) && Rehoused(h, size, p))
    ensures PathTaken(h, h', b, size, p)
  {
    hide Rehoused, RoomBehind;
  }

  lemma StaysPut(h: Heap, b: nat, size: nat)
    requires Valid(h) && b in h.blocks && !h.blocks[b].free && size + 8 <= h.blocks[b].size
    ensures Resized(h, h, b, size, h.base + b)
  {
    hide Formed, Aligned, Coalesced, Loose;
    LiveIsBusy(h.blocks, b);
    LiveBlock(h, b);
    ValidSize(h);
    AlignedSums(h.base, b);
  }

  lemma GrewInPlace(h: Heap, h': Heap, b: nat, size: nat)
    requires Valid(h) && b in h.blocks && !h.blocks[b].free && Valid(h') && h'.base == h.base && b in Live(h'.blocks)
    requires size + 8 <= Live(h'.blocks)[b] && Live(h'.blocks) == Live(h.blocks)[b := Live(h'.blocks)[b]]
    requires PayloadsKept(h.mem, h'.mem, Live(h.blocks))
    ensures Resized(h, h', b, size, h.base + b)
  {
    hide Formed, Aligned, Coalesced, Loose;
    LiveIsBusy(h.blocks, b);
    LiveBlock(h, b);
    ValidSize(h);
    AlignedSums(h.base, b);
  }

  lemma MovedBack(h: Heap, h': Heap, b: nat, p: nat, size: nat)
    requires Valid(h) && Valid(h') && h'.base == h.base && Taken(h, h', b, p) && size + 8 <= Live(h'.blocks)[p]
    ensures Resized(h, h', b, size, h.base + p)
  {
    hide Formed, Aligned, Coalesced, Loose, PayloadsKept;
    LiveBlock(h', p);
    ValidSize(h);
    AlignedSums(h.base, p);
    PrefixShorter(h, h', b, p, size);
  }

  class Allocator {
    const base: nat
    const mem: array<byte>
    var brk: nat
    var freeListp: nat
    ghost var blocks: Blocks
    ghost var free: seq<nat>

    ghost function Now(): Heap
      reads this, mem
    {
      Heap(base, mem[..], brk, freeListp, blocks, free)
    }

    // ---------------------------------------------------------- the macros

    function GetSize(a: nat): nat
      requires a + 4 <= mem.Length
      reads mem
    {
      SizeOf(Word(mem[..], a))
    }

    function GetAlloc(a: nat): bool
      requires a + 4 <= mem.Length
      reads mem
    {
      Word(mem[..], a) % 2 == 1
    }

    /** `HDRP(NEXT_BLKP(b))` and `PREV_BLKP(b)`, `FTRP(b)` likewise through the tags. */
    function NextBlkp(b: nat): nat
      requires 4 <= b <= mem.Length
      reads mem
    {
      b + GetSize(b - 4)
    }

    function PrevBlkp(b: nat): int
      requires 8 <= b <= mem.Length
      reads mem
    {
      b - GetSize(b - 8)
    }

    function Ftrp(b: nat): int
      requires 4 <= b <= mem.Length
      reads mem
    {
      b + GetSize(b - 4) - 8
    }

    /** `PUT` of header and footer. */
    method PutTags(b: nat, block: Block) returns (ghost m1: seq<byte>)
      requires 4 <= b && 8 <= block.size && b + block.size <= mem.Length && Aligned(block.size)
      requires block.size + 1 < WORD_LIMIT
      modifies mem
      ensures Retagged(old(mem[..]), m1, mem[..], b, block)
    {
      hide KeptOutside, Word, SizeOf, Tag, Aligned;
      TagReads(block);
      TagSmall(block);
      PutWord(mem, b - 4, Tag(block));
      m1 := mem[..];
      PutWord(mem, Ftrp(b), Tag(block));
    }

    lemma RetaggedReads(m: seq<byte>, m1: seq<byte>, m2: seq<byte>, b: nat, block: Block)
      requires Retagged(m, m1, m2, b, block) && mem[..] == m2 && Aligned(block.size)
      ensures 4 <= b <= mem.Length && GetSize(b - 4) == block.size
    {
      hide Word, Pointer, SizeOf, Tag, ChangedOnly;
      TagReads(block);
    }

    /** What the tags of a block say. */
    lemma ReadTags(b: nat)
      requires Formed(Now()) && b in blocks
      ensures FIRST <= b && b + blocks[b].size <= brk <= mem.Length && MIN_BLOCK <= blocks[b].size
      ensures GetSize(b - 4) == blocks[b].size && GetAlloc(b - 4) == !blocks[b].free
      ensures GetSize(b + blocks[b].size - 8) == blocks[b].size
      ensures GetAlloc(b + blocks[b].size - 8) == !blocks[b].free
    {
      hide Word, Chained, Backed, Disjoint, Listed, FreeOnly, Aligned, SizeOf, Tag;
      assert Tags(mem[..], blocks, b);
      TagReads(blocks[b]);
    }

    /** What the header behind a block says: the next block's, or the epilogue's. */
    lemma ReadNext(b: nat)
      requires Formed(Now()) && b in blocks
      ensures var n := b + blocks[b].size;
              && 4 <= n <= brk <= mem.Length
              && (if n in blocks then GetSize(n - 4) == blocks[n].size && GetAlloc(n - 4) == !blocks[n].free
                  else n == brk && GetSize(n - 4) == 0 && GetAlloc(n - 4))
    {
      hide Word, Backed, Disjoint, Listed, FreeOnly, Aligned, SizeOf, Tag;
      assert HasNext(blocks, brk, b);
      if b + blocks[b].size in blocks {
        ReadTags(b + blocks[b].size);
      } else {
        TagReads(Block(0, false));
        TagSmall(Block(0, false));
      }
    }

    /** What the footer before `b` says: the previous block's, or the prologue's. */
    lemma ReadPrev(b: nat)
      requires Formed(Now()) && b in blocks
      ensures 16 <= b <= mem.Length && 8 <= PrevBlkp(b) && 0 <= Ftrp(PrevBlkp(b)) && Ftrp(PrevBlkp(b)) + 4 <= mem.Length
      ensures var p := PrevBlkp(b);
              if b == FIRST then p == 8 && GetAlloc(Ftrp(p)) && GetAlloc(p - 4)
              else p in blocks && p + blocks[p].size == b && GetAlloc(Ftrp(p)) == !blocks[p].free
                   && GetSize(p - 4) == blocks[p].size && GetAlloc(p - 4) == !blocks[p].free
    {
      hide Word, Chained, Disjoint, Listed, FreeOnly, Aligned, SizeOf, Tag;
      if b == FIRST {
        TagReads(Block(8, false));
        TagSmall(Block(8, false));
      } else {
        assert HasPrev(blocks, b);
        var p :| p in blocks && p + blocks[p].size == b;
        ReadTags(p);
      }
    }

    /** The pointers around the `k`-th free block. */
    lemma OpenLinks(k: nat)
      requires Formed(Now()) && k < |free|
      ensures var bp, m := free[k], mem[..];
              && 0 < base && base + mem.Length < ADDRESS_LIMIT && bp + 16 <= mem.Length == |m|
              && Pointer(m, bp + 8) == (if k == 0 then 0 else base + free[k - 1])
              && Pointer(m, bp) == (if k + 1 == |free| then 0 else base + free[k + 1])
              && (k > 0 ==> free[k - 1] + 16 <= mem.Length)
              && (k + 1 < |free| ==> free[k + 1] + 16 <= mem.Length)
    {
      hide Word, Pointer, Tiles, Tagged, FreeOnly, Aligned;
      var m := mem[..];
      assert Links(m, base, free, k);
      assert k > 0 ==> Links(m, base, free, k - 1);
      assert k + 1 < |free| ==> Links(m, base, free, k + 1);
    }

    // ------------------------------------------------------ the free list

    method RemoveFromFreeList(bp: nat, ghost D: set<nat>)
      requires Formed(Now()) && Loose(Now(), D) && bp in free
      modifies this`freeListp, this`free, mem
      ensures Formed(Now()) && Loose(Now(), D + {bp})
      ensures exists k: nat :: k < |old(free)| && old(free)[k] == bp && free == Without(old(free), k)
      ensures PayloadsKept(old(mem[..]), mem[..], Live(blocks))
    {
      hide Formed, Pointer, KeptOutside, Without, OnlyLinks, PayloadsKept, Live, Loose;
      ghost var h := Now();
      ghost var k: nat :| k < |free| && free[k] == bp;
      OpenLinks(k);
      var prev := Pointer(mem[..], bp + 8);
      var next := Pointer(mem[..], bp);
      if prev == 0 {
        freeListp := next;
      } else {
        PutPointer(mem, prev - base, next);
      }
      ghost var m1 := mem[..];
      if next != 0 {
        PutPointer(mem, next - base + 8, prev);
      }
      RemoveDone(h, m1, mem[..], k);
      free := Without(free, k);
      LooseRemoved(h, Now(), k, D);
      FormedOnly(h);
      LinksKeepPayloads(h.mem, mem[..], blocks, brk, h.free);
    }

    /** `x` is the block that `coalesce` has settled on. */
    method AddToFreeList(x: nat)
      requires Pending(Now(), x) && NextBusy(blocks, x) && PrevBusy(blocks, x)
      modifies this`freeListp, this`free, mem
      ensures Valid(Now()) && free == [x] + old(free)
      ensures PayloadsKept(old(mem[..]), mem[..], Live(blocks))
    {
      hide Formed, Pointer, KeptOutside, OnlyLinks, PayloadsKept, Live, Loose, NextBusy, PrevBusy, CoalescedBut, Valid;
      ghost var h := Now();
      OpenPending(h, x);
      PutPointer(mem, x, freeListp);
      ghost var m1 := mem[..];
      PutPointer(mem, x + 8, 0);
      ghost var m2 := mem[..];
      if freeListp != 0 {
        PutPointer(mem, freeListp - base + 8, base + x);
      }
      freeListp := base + x;
      free := [x] + free;
      PushedIs(h, m1, m2, mem[..], x);
      AddDone(h, m1, m2, mem[..], x);
      Settled(h, Now(), x);
      FormedOnly(Now());
      LinksKeepPayloads(h.mem, mem[..], blocks, brk, free);
    }

    // ---------------------------------------------------------- coalescing

    /** Case 2: only the next block is free. */
    method SwallowNextBlock(x: nat)
      requires Pending(Now(), x) && x + blocks[x].size in blocks && blocks[x + blocks[x].size].free && PrevBusy(blocks, x)
      modifies this`freeListp, this`free, this`blocks, mem
      ensures Pending(Now(), x) && NextBusy(blocks, x) && PrevBusy(blocks, x) && Live(blocks) == old(Live(blocks))
      ensures old(blocks)[x].size <= blocks[x].size && PayloadsKept(old(mem[..]), mem[..], Live(blocks))
    {
      hide Formed, Pending, Loose, Live, NextBusy, PrevBusy, PayloadsKept, Retagged, SizeOf, Aligned, Merge;
      ghost var h := Now();
      OpenPending(h, x);
      ReadTags(x);
      ReadTags(x + blocks[x].size);
      var next := NextBlkp(x);
      ListedIn(h, {x}, next);
      RemoveFromFreeList(next, {x});
      LooseSame(Now(), {x} + {next}, {x, next});
      ReadTags(x);
      ReadTags(next);
      var size := GetSize(x - 4) + GetSize(next - 4);
      ghost var h1 := Now();
      ghost var B := Merge(blocks, x);
      MergeFits(h1, x);
      ghost var m1 := PutTags(x, Block(size, true));
      SwallowNext(h, x, h1, B, m1, mem[..]);
      blocks := B;
      PayloadsTwice(h.mem, h1.mem, mem[..], Live(B));
    }

    /** Case 3: only the previous block is free. */
    method SwallowedByPrev(x: nat) returns (p: nat)
      requires Pending(Now(), x) && NextBusy(blocks, x) && x != FIRST
      requires forall q :: q in blocks && q + blocks[q].size == x ==> blocks[q].free
      modifies this`freeListp, this`free, this`blocks, mem
      ensures Pending(Now(), p) && NextBusy(blocks, p) && PrevBusy(blocks, p) && Live(blocks) == old(Live(blocks))
      ensures p <= x && x + old(blocks)[x].size <= p + blocks[p].size
      ensures PayloadsKept(old(mem[..]), mem[..], Live(blocks))
    {
      hide Formed, Pending, Loose, Live, NextBusy, PrevBusy, PayloadsKept, Retagged, SizeOf, Aligned, Merge;
      ghost var h := Now();
      OpenPending(h, x);
      ReadTags(x);
      ReadPrev(x);
      p := PrevBlkp(x);
      ListedIn(h, {x}, p);
      RemoveFromFreeList(p, {x});
      LooseSame(Now(), {x} + {p}, {x, p});
      ReadTags(x);
      ReadTags(p);
      var size := GetSize(x - 4) + GetSize(p - 4);
      ghost var h1 := Now();
      ghost var B := Merge(blocks, p);
      MergeFits(h1, p);
      ghost var m1 := PutTags(p, Block(size, true));
      SwallowPrev(h, x, p, h1, B, m1, mem[..]);
      blocks := B;
      PayloadsTwice(h.mem, h1.mem, mem[..], Live(B));
    }

    /** Case 4: both neighbours are free. */
    method SwallowedWithNext(x: nat) returns (p: nat)
      requires Pending(Now(), x) && x + blocks[x].size in blocks && blocks[x + blocks[x].size].free && x != FIRST
      requires forall q :: q in blocks && q + blocks[q].size == x ==> blocks[q].free
      modifies this`freeListp, this`free, this`blocks, mem
      ensures Pending(Now(), p) && NextBusy(blocks, p) && PrevBusy(blocks, p) && Live(blocks) == old(Live(blocks))
      ensures p <= x && x + old(blocks)[x].size <= p + blocks[p].size
      ensures PayloadsKept(old(mem[..]), mem[..], Live(blocks))
    {
      hide Formed, Pending, Loose, Live, NextBusy, PrevBusy, PayloadsKept, Retagged, SizeOf, Aligned, Merge;
      ghost var h := Now();
      OpenPending(h, x);
      var next: nat;
      next, p := UnlistBoth(x);
      ReadTags(x);
      ReadTags(p);
      ReadTags(next);
      var size := GetSize(x - 4) + GetSize(p - 4) + GetSize(Ftrp(next));
      ghost var h1 := Now();
      ghost var B1, B2 := MergeTwoFits(h1, x, p);
      // FTRP of the next block is FTRP of the merged block.
      ghost var m1 := PutTags(p, Block(size, true));
      SwallowBoth(h, x, p, h1, B1, B2, m1, mem[..]);
      blocks := B2;
      PayloadsTwice(h.mem, h1.mem, mem[..], Live(B2));
    }

    method UnlistBoth(x: nat) returns (next: nat, p: nat)
      requires Pending(Now(), x) && x + blocks[x].size in blocks && blocks[x + blocks[x].size].free && x != FIRST
      requires forall q :: q in blocks && q + blocks[q].size == x ==> blocks[q].free
      modifies this`freeListp, this`free, mem
      ensures Formed(Now()) && Loose(Now(), {x, next, p})
      ensures next == x + blocks[x].size && p in blocks && p + blocks[p].size == x
      ensures PayloadsKept(old(mem[..]), mem[..], Live(blocks))
    {
      hide Formed, Pending, Loose, Live, PayloadsKept, SizeOf, Aligned;
      ghost var h := Now();
      OpenPending(h, x);
      ReadTags(x);
      ReadTags(x + blocks[x].size);
      next := NextBlkp(x);
      ListedIn(h, {x}, next);
      RemoveFromFreeList(next, {x});
      LooseSame(Now(), {x} + {next}, {x, next});
      ghost var h0 := Now();
      ReadPrev(x);
      p := PrevBlkp(x);
      ListedIn(h0, {x, next}, p);
      RemoveFromFreeList(p, {x, next});
      LooseSame(Now(), {x, next} + {p}, {x, next, p});
      PayloadsTwice(h.mem, h0.mem, mem[..], Live(h.blocks));
    }

    /** Merges the pending block with its free neighbours and lists the result. */
    method Coalesce(x: nat) returns (bp: nat)
      requires Pending(Now(), x)
      modifies this`freeListp, this`free, this`blocks, mem
      ensures Valid(Now()) && Live(blocks) == old(Live(blocks))
      ensures PayloadsKept(old(mem[..]), mem[..], Live(blocks))
      ensures bp in blocks && blocks[bp].free && bp <= x && x + old(blocks)[x].size <= bp + blocks[bp].size
    {
      hide Formed, Pending, Valid, Loose, Merge, Live, PayloadsKept, Retagged, SizeOf, Aligned;
      ghost var h := Now();
      OpenPending(h, x);
      ReadTags(x);
      ReadNext(x);
      ReadPrev(x);
      PrevDecides(h, x);
      var prevAlloc := GetAlloc(Ftrp(PrevBlkp(x)));
      var nextAlloc := GetAlloc(NextBlkp(x) - 4);
      bp := x;
      if !nextAlloc && prevAlloc {
        SwallowNextBlock(x);
      } else if !prevAlloc && nextAlloc {
        bp := SwallowedByPrev(x);
      } else if !prevAlloc && !nextAlloc {
        bp := SwallowedWithNext(x);
      }
      ghost var h1 := Now();
      OpenPending(h1, bp);
      AddToFreeList(bp);
      PayloadsSame(h.mem, Live(blocks));
      PayloadsTwice(h.mem, h1.mem, mem[..], Live(blocks));
    }

    // --------------------------------------------------- growing the heap

    method MemSbrk(incr: int) returns (r: int)
      modifies this`brk
      ensures if 0 <= incr && old(brk) + incr <= MAX_HEAP then r == old(brk) && brk == old(brk) + incr
              else r == -1 && brk == old(brk)
    {
      if incr < 0 || brk + incr > MAX_HEAP {
        return -1;
      }
      r := brk;
      brk := brk + incr;
    }

    /** Grows the heap by a free block; negative when `mem_sbrk` refuses. */
    method ExtendHeap(words: nat) returns (bp: int)
      requires Valid(Now())
      requires var size := EvenBytes(words);
               Granted(brk, size) ==> size == ToInt(size) && MIN_BLOCK <= size && Aligned(size)
      modifies this`brk, this`freeListp, this`free, this`blocks, mem
      ensures bp < 0 <==> !Granted(old(brk), EvenBytes(words))
      ensures bp < 0 ==> Now() == old(Now())
      ensures bp >= 0 ==>
                && Valid(Now()) && brk == old(brk) + EvenBytes(words)
                && bp in blocks && blocks[bp].free && EvenBytes(words) <= blocks[bp].size
      ensures Live(blocks) == old(Live(blocks)) && PayloadsKept(old(mem[..]), mem[..], Live(blocks))
    {
      hide Formed, Loose, Live, PayloadsKept, Retagged, KeptOutside, SizeOf, Aligned, Word, Valid, Grow, EvenBytes, Pending;
      ghost var h := Now();
      ValidSize(h);
      var size := EvenBytes(words);
      var old_brk := MemSbrk(ToInt(size));
      PayloadsSame(h.mem, Live(h.blocks));
      if old_brk < 0 {
        return -1;
      }
      ghost var m1 := PutTags(old_brk, Block(size, true));
      ghost var m2 := mem[..];
      PutWord(mem, old_brk + size - 4, 1);
      GrowDone(h, size, m1, m2, mem[..]);
      blocks := Grow(blocks, old_brk, size);
      ghost var h1 := Now();
      GrownBlock(h, size);
      bp := Coalesce(old_brk);
      PayloadsTwice(h.mem, h1.mem, mem[..], Live(blocks));
    }

    // ------------------------------------------------- starting a new heap

    /** `mem_init`: an empty heap of `MAX_HEAP` bytes at address `start`. */
    constructor (start: nat)
      requires 0 < start && Aligned(start) && start + MAX_HEAP < ADDRESS_LIMIT
      ensures base == start && brk == 0 && mem.Length == MAX_HEAP && fresh(mem)
    {
      base := start;
      mem := new byte[MAX_HEAP];
      brk := 0;
      freeListp := 0;
      blocks := map[];
      free := [];
    }

    /** `mm_init` on an empty heap: the result is 0 and nothing is live. */
    method Init() returns (r: int)
      requires 0 < base && Aligned(base) && base + MAX_HEAP < ADDRESS_LIMIT && mem.Length == MAX_HEAP
      requires brk == 0
      modifies this`brk, this`freeListp, this`free, this`blocks, mem
      ensures r == 0 && Valid(Now()) && Live(blocks) == map[] && brk == 80
    {
      hide Formed, Loose, Live, KeptOutside, Word, Valid, EvenBytes, Granted, ToInt;
      var heapListp := MemSbrk(16);
      if heapListp == -1 {
        return -1;
      }
      StartWords();
      freeListp := 0;
      blocks := map[];
      free := [];
      StartDone(Now(), 16);
      EvenWords(16);
      SmallGranted(brk, 64);
      var bp := ExtendHeap(16);
      if bp < 0 {
        return -1;
      }
      r := 0;
    }

    method StartWords()
      requires mem.Length == MAX_HEAP
      modifies mem
      ensures Word(mem[..], 4) == 9 && Word(mem[..], 8) == 9 && Word(mem[..], 12) == 1
    {
      hide Word, ChangedOnly;
      PutWord(mem, 0, 0);
      PutWord(mem, 4, 9);
      PutWord(mem, 8, 9);
      PutWord(mem, 12, 1);
    }

    // ------------------------------------------------ finding and placing

    /** The best fit, null when no listed block is large enough. */
    method BestFit(asize: nat) returns (best: nat)
      requires Formed(Now())
      ensures best == 0 <==> !SomeFits(Now(), asize)
      ensures best != 0 ==> base <= best && Best(Now(), asize, best - base)
    {
      hide Formed, Pointer, SizeOf, Word, Fits;
      ghost var h := Now();
      ValidSizeOf(h);
      var bp := freeListp;
      best := 0;
      ghost var i: nat, k: nat := 0, 0;
      HeadIs(h);
      while bp != 0
        invariant k <= |free| && bp == At(base, free, k)
        invariant best == 0 ==> forall j :: 0 <= j < k ==> !Fits(h, asize, j)
        invariant best != 0 ==> i < k && BestIn(h, asize, i, k) && best == base + free[i]
        decreases |free| - k
      {
        OpenLinks(k);
        ReadTags(free[k]);
        FitsIs(h, asize, k);
        var bsize := GetSize(bp - base - 4);
        if asize <= bsize {
          if best != 0 {
            ReadTags(free[i]);
          }
          if best == 0 || bsize < GetSize(best - base - 4) {
            best, i := bp, k;
          }
          if bsize == asize {
            SmallestIs(h, asize, i, k);
            break;
          }
        }
        bp := Pointer(mem[..], bp - base);
        k := k + 1;
      }
      assert Now() == h;
      assert best != 0 ==> Fits(h, asize, i);
    }

    /** Takes free block `bp` into use, cutting off a remainder that can stand alone. */
    method Place(bp: nat, asize: nat)
      requires Valid(Now()) && bp in blocks && blocks[bp].free
      requires Aligned(asize) && MIN_BLOCK <= asize <= blocks[bp].size
      modifies this`freeListp, this`free, this`blocks, mem
      ensures Valid(Now())
      ensures var csize := old(blocks)[bp].size;
              Live(blocks) == old(Live(blocks))[bp := if csize - asize >= MIN_BLOCK then asize else csize]
      ensures PayloadsKept(old(mem[..]), mem[..], old(Live(blocks)))
    {
      hide Formed, Loose, Live, PayloadsKept, Retagged, SizeOf, Aligned, Valid, Split, Mark, Pending, NextBusy, PrevBusy;
      ghost var h := Now();
      ghost var L := Live(blocks);
      ValidParts(h);
      ReadTags(bp);
      BlockSize(h, bp);
      LiveIsBusy(blocks, bp);
      var csize := GetSize(bp - 4);
      ListedIn(h, {}, bp);
      RemoveFromFreeList(bp, {});
      LooseSame(Now(), {} + {bp}, {bp});
      ghost var h1 := Now();
      if csize - asize >= 3 * 8 {
        AlignedSums(csize, asize);
        ghost var m1 := PutTags(bp, Block(asize, false));
        ghost var m2 := mem[..];
        RetaggedReads(h1.mem, m1, m2, bp, Block(asize, false));
        var nextBp := NextBlkp(bp);
        ghost var m3 := PutTags(nextBp, Block(csize - asize, true));
        SplitDone(h, bp, asize, h1, m1, m2, m3, mem[..]);
        blocks := Split(blocks, bp, asize);
        ghost var h2 := Now();
        AddToFreeList(nextBp);
        LiveGrew(h2.mem, mem[..], L, bp, asize);
        PayloadsTwice(h.mem, h1.mem, h2.mem, L);
        PayloadsTwice(h.mem, h2.mem, mem[..], L);
      } else {
        ghost var m1 := PutTags(bp, Block(csize, false));
        PlacedWhole(h, bp, h1, m1, mem[..]);
        blocks := Mark(blocks, bp, false);
        PayloadsTwice(h.mem, h1.mem, mem[..], L);
      }
    }

    /** Null for a request of 0 and when nothing fits and the heap cannot grow. */
    method Malloc(size: nat) returns (p: nat)
      requires Valid(Now()) && size < ADDRESS_LIMIT && Servable(brk, size)
      modifies this`brk, this`freeListp, this`free, this`blocks, mem
      ensures Served(old(Now()), Now(), size, p)
      ensures p == 0 <==>
                size == 0
                || (!SomeFits(old(Now()), AdjustedSize(size)) && !Granted(old(brk), ExtendBytes(AdjustedSize(size))))
      ensures p != 0 && SomeFits(old(Now()), AdjustedSize(size)) ==>
                brk == old(brk) && Best(old(Now()), AdjustedSize(size), p - base)
      ensures p != 0 && !SomeFits(old(Now()), AdjustedSize(size)) ==> brk == old(brk) + ExtendBytes(AdjustedSize(size))
      ensures p != 0 ==> base <= p && Snug(blocks, p - base, AdjustedSize(size))
    {
      hide Formed, Live, PayloadsKept, Aligned, Valid, SomeFits, Best, AdjustedSize, ExtendBytes, Granted, ToInt, PlainSize, EvenBytes, Servable;
      ghost var h := Now();
      ValidSize(h);
      PayloadsSame(h.mem, Live(blocks));
      if size == 0 {
        return 0;
      }
      var asize := AdjustedSize(size);
      ServableGrows(brk, size);
      var best := BestFit(asize);
      if best != 0 {
        BestFits(h, asize, best - base);
        Place(best - base, asize);
        ServedIs(h, h, Now(), size, best - base);
        return best;
      }
      var extendsize := ExtendSize(asize);
      var bp := ExtendHeap(extendsize / 2);
      if bp < 0 {
        return 0;
      }
      ghost var h1 := Now();
      Place(bp, asize);
      PayloadsTwice(h.mem, h1.mem, mem[..], Live(h.blocks));
      ServedIs(h, h1, Now(), size, bp);
      p := base + bp;
    }

    // ------------------------------------------------ freeing and resizing

    method Free(ptr: nat)
      requires Valid(Now()) && base <= ptr && ptr - base in Live(blocks)
      modifies this`freeListp, this`free, this`blocks, mem
      ensures Valid(Now()) && Live(blocks) == old(Live(blocks)) - {ptr - base}
      ensures PayloadsKept(old(mem[..]), mem[..], Live(blocks))
    {
      hide Formed, Loose, Live, PayloadsKept, Retagged, SizeOf, Aligned, Valid, Mark, Pending;
      ghost var h := Now();
      var bp := ptr - base;
      LiveBlock(h, bp);
      BlockSize(h, bp);
      ReadTags(bp);
      var size := GetSize(bp - 4);
      ghost var m1 := PutTags(bp, Block(size, true));
      FreeDone(h, bp, m1, mem[..]);
      blocks := Mark(blocks, bp, true);
      ghost var h1 := Now();
      var x := Coalesce(bp);
      PayloadsTwice(h.mem, h1.mem, mem[..], Live(blocks));
    }

    /** The block swallows the free block behind it. */
    method GrowForward(b: nat, asize: nat) returns (ok: bool)
      requires Valid(Now()) && b in blocks && !blocks[b].free
      modifies this`freeListp, this`free, this`blocks, mem
      ensures ok <==> RoomBehind(old(blocks), b, asize)
      ensures !ok ==> Now() == old(Now())
      ensures ok ==>
                && Valid(Now()) && b in Live(blocks) && asize <= Live(blocks)[b]
                && Live(blocks)[b] == old(blocks)[b].size + old(blocks)[b + old(blocks)[b].size].size
                && Live(blocks) == old(Live(blocks))[b := Live(blocks)[b]]
                && PayloadsKept(old(mem[..]), mem[..], old(Live(blocks)))
    {
      hide Formed, Loose, Live, PayloadsKept, Retagged, SizeOf, Aligned, Valid, Merge, Pending;
      ghost var h := Now();
      ValidParts(h);
      ReadTags(b);
      ReadNext(b);
      var next := NextBlkp(b);
      if next in blocks {
        BlockSize(h, next);
      }
      if GetAlloc(next - 4) || GetSize(next - 4) == 0 {
        return false;
      }
      var newSize := GetSize(b - 4) + GetSize(next - 4);
      if newSize < asize {
        return false;
      }
      ListedIn(h, {}, next);
      RemoveFromFreeList(next, {});
      LooseSame(Now(), {} + {next}, {next});
      ghost var h1 := Now();
      ghost var B := Merge(blocks, b);
      MergeFits(h1, b);
      ghost var m1 := PutTags(b, Block(newSize, false));
      GrownForward(h, b, h1, B, m1, mem[..]);
      blocks := B;
      ForwardKept(h, h1, Now(), b);
      ok := true;
    }

    /** The block moves down over the free block before it. */
    method GrowBackward(b: nat, asize: nat) returns (ok: bool, p: nat)
      requires Valid(Now()) && b in blocks && !blocks[b].free
      modifies this`freeListp, this`free, this`blocks, mem
      ensures ok ==> RoomBefore(old(blocks), p, b, asize)
      ensures !ok ==> Now() == old(Now()) && forall q :: q in blocks ==> !RoomBefore(blocks, q, b, asize)
      ensures ok ==> Valid(Now()) && Taken(old(Now()), Now(), b, p) && p in Live(blocks)
      ensures ok ==> Live(blocks)[p] == old(blocks)[p].size + old(blocks)[b].size
    {
      hide Formed, Loose, Live, PayloadsKept, Retagged, SizeOf, Aligned, Valid, Merge, Mark, Pending, KeptOutside, Taken;
      ghost var h := Now();
      ValidParts(h);
      ReadTags(b);
      ReadPrev(b);
      p := PrevBlkp(b);
      if GetAlloc(p - 4) || GetSize(p - 4) == 0 {
        NoRoomBefore(h, b, asize);
        return false, p;
      }
      var oldSize := GetSize(b - 4);
      var newSize := GetSize(p - 4) + oldSize;
      if newSize < asize {
        NoRoomBefore(h, b, asize);
        return false, p;
      }
      ListedIn(h, {}, p);
      MoveDown(b, p, oldSize, newSize);
      ok := true;
    }

    method MoveDown(b: nat, p: nat, oldSize: nat, newSize: nat)
      requires Valid(Now()) && b in blocks && !blocks[b].free && blocks[b].size == oldSize
      requires p in free && p in blocks && blocks[p].free && p + blocks[p].size == b && newSize == blocks[p].size + oldSize
      modifies this`freeListp, this`free, this`blocks, mem
      ensures Valid(Now()) && Taken(old(Now()), Now(), b, p) && p in Live(blocks) && newSize == Live(blocks)[p]
    {
      hide Formed, Loose, Live, PayloadsKept, Retagged, SizeOf, Aligned, Valid, Merge, Mark, Pending, KeptOutside, Taken;
      ghost var h := Now();
      ValidParts(h);
      BlockSize(h, b);
      BlockSize(h, p);
      RemoveFromFreeList(p, {});
      LooseSame(Now(), {} + {p}, {p});
      ghost var h1 := Now();
      ghost var B1 := Merge(blocks, p);
      MergeFits(h1, p);
      ghost var m1 := PutTags(p, Block(newSize, false));
      ghost var B2 := Mark(B1, p, false);
      MarkIs(B1, p, false);
      GrownBackward(h, b, p, h1, B1, B2, m1, mem[..]);
      blocks := B2;
      ghost var h2 := Now();
      CopyUp(mem, p, b, oldSize - 8);
      MovedDown(h, h1, h2, b, p, mem[..]);
      CallersMayWrite(h2, mem[..]);
      LiveIsBusy(blocks, p);
    }

    /** `malloc`, copy, `free`. */
    method Relocate(b: nat, size: nat) returns (p: nat)
      requires Valid(Now()) && b in blocks && !blocks[b].free && 0 < size < ADDRESS_LIMIT && Servable(brk, size)
      modifies this`brk, this`freeListp, this`free, this`blocks, mem
      ensures Resized(old(Now()), Now(), b, size, p)
      ensures p == 0 <==> Refused(old(Now()), AdjustedSize(size))
      ensures p != 0 && SomeFits(old(Now()), AdjustedSize(size)) ==>
                base <= p && brk == old(brk) && Best(old(Now()), AdjustedSize(size), p - base)
    {
      hide Formed, Loose, Live, PayloadsKept, SizeOf, Aligned, Valid, KeptOutside, SomeFits, Best, Granted, Servable, Resized, Served;
      ghost var h := Now();
      ValidParts(h);
      ReadTags(b);
      var oldSize := GetSize(b - 4);
      p := Malloc(size);
      if p == 0 {
        NotResized(h, Now(), b, size);
        return;
      }
      ghost var h1 := Now();
      ServedParts(h, h1, b, size, p);
      var copySize := oldSize - 8;
      if size < copySize {
        copySize := size;
      }
      CopyUp(mem, p - base, b, copySize);
      ghost var h2 := Now();
      CopiedOut(h, h1, h2, b, size, p, copySize);
      Free(base + b);
      Relocated(h, h1, h2, Now(), b, size, p, copySize);
    }

    method Realloc(ptr: nat, size: nat) returns (p: nat)
      requires Valid(Now()) && size < ADDRESS_LIMIT
      requires if ptr == 0 then Servable(brk, size) else base <= ptr && ptr - base in Live(blocks) && Resizable(brk, size)
      modifies this`brk, this`freeListp, this`free, this`blocks, mem
      ensures ptr == 0 ==> Served(old(Now()), Now(), size, p)
      ensures ptr != 0 && size == 0 ==>
                && p == 0 && Valid(Now()) && Live(blocks) == old(Live(blocks)) - {ptr - base}
                && PayloadsKept(old(mem[..]), mem[..], Live(blocks))
      ensures ptr != 0 && size != 0 ==> Resized(old(Now()), Now(), ptr - base, size, p)
      ensures ptr != 0 && size != 0 ==> PathTaken(old(Now()), Now(), ptr - base, size, p)
    {
      hide Formed, Live, PayloadsKept, SizeOf, Aligned, Valid, Servable, Resizable, Resized, Served, Taken, PlainSize, SomeFits, Best, Granted, Refused, PathTaken;
      ghost var h := Now();
      if ptr == 0 {
        p := Malloc(size);
        return;
      }
      if size == 0 {
        Free(ptr);
        return 0;
      }
      var b := ptr - base;
      LiveBlock(h, b);
      ReadTags(b);
      var oldSize := GetSize(b - 4);
      var asize := PlainSize(size);
      ResizableIsServable(brk, size);
      if asize <= oldSize {
        StaysPut(h, b, size);
        TakenPath(h, Now(), b, size, ptr);
        return ptr;
      }
      var ok := GrowForward(b, asize);
      if ok {
        GrewInPlace(h, Now(), b, size);
        TakenPath(h, Now(), b, size, ptr);
        return ptr;
      }
      var prev: nat;
      ok, prev := GrowBackward(b, asize);
      if ok {
        MovedBack(h, Now(), b, prev, size);
        TakenPath(h, Now(), b, size, base + prev);
        return base + prev;
      }
      p := Relocate(b, size);
      TakenPath(h, Now(), b, size, p);
    }
  }
}
