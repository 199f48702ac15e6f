/** How mm.c lays blocks and free list out in the heap's bytes: a header and a
    footer word per block, and in each free block two pointers that chain the
    free blocks into a doubly linked list. */
module HeapLayout {
  import opened HeapBytes
  import opened BlockMap

  /** `PACK(size, alloc)`. */
  function Tag(b: Block): nat {
    b.size + (if b.free then 0 else 1)
  }

  function SizeOf(w: nat): nat {
    w - w % 8
  }

  ghost predicate Tags(m: seq<byte>, B: Blocks, b: nat)
    requires b in B
  {
    && 4 <= b && b + B[b].size <= |m| && 8 <= B[b].size
    && Word(m, b - 4) == Tag(B[b]) && Word(m, b + B[b].size - 8) == Tag(B[b])
  }

  /** Every block's header and footer tell its size and state; prologue and epilogue are in use. */
  ghost predicate Tagged(m: seq<byte>, B: Blocks, brk: nat) {
    && FIRST <= brk <= |m|
    && Word(m, 4) == 9 && Word(m, 8) == 9 && Word(m, brk - 4) == 1
    && forall b {:trigger Tags(m, B, b)} :: b in B ==> Tags(m, B, b)
  }

  // ------------------------------------------------------------- free list

  /** The pointer to the `k`-th free block, null beyond either end. */
  function At(base: nat, fl: seq<nat>, k: int): nat {
    if 0 <= k < |fl| then base + fl[k] else 0
  }

  ghost predicate Links(m: seq<byte>, base: nat, fl: seq<nat>, k: nat)
    requires k < |fl|
  {
    && fl[k] + 16 <= |m|
    && Pointer(m, fl[k]) == At(base, fl, k + 1)
    && Pointer(m, fl[k] + 8) == At(base, fl, k - 1)
  }

  /** NEXT and PREV run through `fl` in both directions, starting at `head`. */
  ghost predicate Listed(m: seq<byte>, base: nat, head: nat, fl: seq<nat>) {
    && head == At(base, fl, 0)
    && forall k: nat {:trigger Links(m, base, fl, k)} :: k < |fl| ==> Links(m, base, fl, k)
  }

  ghost predicate Spaced(fl: seq<nat>) {
    forall j, k :: 0 <= j < |fl| && 0 <= k < |fl| && j != k ==> fl[j] + 16 <= fl[k] || fl[k] + 16 <= fl[j]
  }

  ghost predicate InArea(i: nat, fl: seq<nat>) {
    exists k :: 0 <= k < |fl| && fl[k] <= i < fl[k] + 16
  }

  /** Bytes outside the link areas of the listed blocks are unchanged. */
  ghost predicate OnlyLinks(m: seq<byte>, m': seq<byte>, fl: seq<nat>) {
    |m'| == |m| && forall i: nat :: i < |m| && !InArea(i, fl) ==> m'[i] == m[i]
  }

  function Without(fl: seq<nat>, k: nat): seq<nat>
    requires k < |fl|
  {
    fl[..k] + fl[k + 1..]
  }

  lemma WithoutShape(fl: seq<nat>, k: nat)
    requires k < |fl| && Spaced(fl)
    ensures var f := Without(fl, k);
            && |f| == |fl| - 1
            && (forall j :: 0 <= j < |f| ==> f[j] == if j < k then fl[j] else fl[j + 1])
            && Spaced(f) && (forall x :: x in f <==> x in fl && x != fl[k])
  {
    var f := Without(fl, k);
    forall x | x in fl && x != fl[k]
      ensures x in f
    {
      var j :| 0 <= j < |fl| && fl[j] == x;
      assert f[if j < k then j else j - 1] == x;
    }
  }

  /** The first store of `remove_from_free_list`: the previous block skips the `k`-th. */
  ghost predicate Skipped(m: seq<byte>, m1: seq<byte>, base: nat, fl: seq<nat>, k: nat)
    requires k < |fl|
  {
    |m1| == |m| &&
    if k == 0 then m1 == m
    else fl[k - 1] + 16 <= |m| && KeptOutside(m, m1, fl[k - 1], fl[k - 1] + 8)
         && Pointer(m1, fl[k - 1]) == At(base, fl, k + 1)
  }

  /** The second store: so does the next block, backward. */
  ghost predicate SkippedBack(m: seq<byte>, m1: seq<byte>, base: nat, fl: seq<nat>, k: nat)
    requires k < |fl|
  {
    |m1| == |m| &&
    if k + 1 == |fl| then m1 == m
    else fl[k + 1] + 16 <= |m| && KeptOutside(m, m1, fl[k + 1] + 8, fl[k + 1] + 16)
         && Pointer(m1, fl[k + 1] + 8) == At(base, fl, k - 1)
  }

  /** One surviving block's links after the two stores. */
  lemma LinkKept(m: seq<byte>, m1: seq<byte>, m2: seq<byte>, base: nat, fl: seq<nat>, k: nat, j: nat)
    requires Spaced(fl) && k < |fl| && j < |fl| && j != k && Links(m, base, fl, j)
    requires Skipped(m, m1, base, fl, k) && SkippedBack(m1, m2, base, fl, k)
    ensures fl[j] + 16 <= |m2|
    ensures Pointer(m2, fl[j]) == At(base, fl, if j + 1 == k then k + 1 else j + 1)
    ensures Pointer(m2, fl[j] + 8) == At(base, fl, if j == k + 1 then k - 1 else j - 1)
  {
    hide Pointer, Word, ChangedOnly;
  }

  /** Both stores together unlink the `k`-th block. */
  lemma Unlinked(m: seq<byte>, m1: seq<byte>, m2: seq<byte>, base: nat, head: nat, fl: seq<nat>, k: nat)
    requires Listed(m, base, head, fl) && Spaced(fl) && k < |fl|
    requires Skipped(m, m1, base, fl, k) && SkippedBack(m1, m2, base, fl, k)
    ensures Listed(m2, base, if k == 0 then At(base, fl, 1) else head, Without(fl, k))
  {
    hide Pointer, Word, KeptOutside, Skipped, SkippedBack, Spaced;
    var f := Without(fl, k);
    WithoutShape(fl, k);
    forall j: nat | j < |f|
      ensures Links(m2, base, f, j)
    {
      var i := if j < k then j else j + 1;
      assert Links(m, base, fl, i);
      LinkKept(m, m1, m2, base, fl, k, i);
    }
  }

  lemma UnlinkedOnly(m: seq<byte>, m1: seq<byte>, m2: seq<byte>, base: nat, fl: seq<nat>, k: nat)
    requires k < |fl| && Skipped(m, m1, base, fl, k) && SkippedBack(m1, m2, base, fl, k)
    ensures OnlyLinks(m, m2, fl)
  {
    hide Pointer, Word;
    forall i: nat | i < |m| && !InArea(i, fl)
      ensures m2[i] == m[i]
    {
      assert k > 0 ==> !(fl[k - 1] <= i < fl[k - 1] + 16);
      assert k + 1 < |fl| ==> !(fl[k + 1] <= i < fl[k + 1] + 16);
    }
  }

  /** The stores of `add_to_free_list`. */
  ghost predicate Pushed(m: seq<byte>, m1: seq<byte>, m2: seq<byte>, m3: seq<byte>, base: nat, head: nat, fl: seq<nat>, b: nat) {
    && |m| == |m1| == |m2| == |m3| && b + 16 <= |m|
    && KeptOutside(m, m1, b, b + 8) && Pointer(m1, b) == head
    && KeptOutside(m1, m2, b + 8, b + 16) && Pointer(m2, b + 8) == 0
    && if fl == [] then m3 == m2
       else fl[0] + 16 <= |m| && KeptOutside(m2, m3, fl[0] + 8, fl[0] + 16) && Pointer(m3, fl[0] + 8) == base + b
  }

  lemma Prepended(m: seq<byte>, m1: seq<byte>, m2: seq<byte>, m3: seq<byte>, base: nat, head: nat, fl: seq<nat>, b: nat)
    requires Listed(m, base, head, fl) && Spaced([b] + fl) && 0 < base
    requires Pushed(m, m1, m2, m3, base, head, fl, b)
    ensures Listed(m3, base, base + b, [b] + fl)
  {
    hide Pointer, Word, ChangedOnly;
    var f := [b] + fl;
    assert f[0] == b;
    assert forall j :: 0 <= j < |fl| ==> f[j + 1] == fl[j];
    forall j: nat | j < |f|
      ensures Links(m3, base, f, j)
    {
      if j > 0 {
        assert Links(m, base, fl, j - 1);
      }
    }
  }

  lemma PrependedOnly(m: seq<byte>, m1: seq<byte>, m2: seq<byte>, m3: seq<byte>, base: nat, head: nat, fl: seq<nat>, b: nat)
    requires Pushed(m, m1, m2, m3, base, head, fl, b)
    ensures OnlyLinks(m, m3, [b] + fl)
  {
    hide Pointer, Word;
    var f := [b] + fl;
    assert f[0] == b && (fl != [] ==> f[1] == fl[0]);
    forall i: nat | i < |m| && !InArea(i, f)
      ensures m3[i] == m[i]
    {
      assert !(f[0] <= i < f[0] + 16);
      assert fl != [] ==> !(f[1] <= i < f[1] + 16);
    }
  }

  /** Stores that miss every link area keep the list. */
  lemma ListKept(m: seq<byte>, m': seq<byte>, base: nat, head: nat, fl: seq<nat>, lo: nat, hi: nat)
    requires Listed(m, base, head, fl) && KeptOutside(m, m', lo, hi)
    requires forall k :: 0 <= k < |fl| ==> fl[k] + 16 <= lo || hi <= fl[k]
    ensures Listed(m', base, head, fl)
  {
    hide Pointer, Word;
    forall k: nat | k < |fl|
      ensures Links(m', base, fl, k)
    {
      assert Links(m, base, fl, k);
    }
  }

  /** Relinking keeps every block's tags. */
  lemma TagsKept(m: seq<byte>, m': seq<byte>, B: Blocks, brk: nat, fl: seq<nat>)
    requires Tiles(B, brk) && Tagged(m, B, brk) && OnlyLinks(m, m', fl)
    requires forall x :: x in fl ==> x in B
    ensures Tagged(m', B, brk)
  {
    hide Word, Chained, Backed, Aligned;
    forall a | 4 <= a && a + 4 <= |m| && forall k :: 0 <= k < |fl| ==> a + 4 <= fl[k] || fl[k] + 16 <= a
      ensures Word(m', a) == Word(m, a)
    {
      WordKept(m, m', fl, a);
    }
    forall k | 0 <= k < |fl|
      ensures FIRST <= fl[k] && fl[k] + 16 <= brk - 4
    {
      assert fl[k] in B;
    }
    forall b | b in B
      ensures Tags(m', B, b)
    {
      assert Tags(m, B, b);
      forall k | 0 <= k < |fl|
        ensures b <= fl[k] || fl[k] + 16 <= b - 4
        ensures b + B[b].size - 4 <= fl[k] || fl[k] + 16 <= b + B[b].size - 8
      {
        assert fl[k] in B;
      }
    }
  }

  lemma WordKept(m: seq<byte>, m': seq<byte>, fl: seq<nat>, a: nat)
    requires OnlyLinks(m, m', fl) && a + 4 <= |m|
    requires forall k :: 0 <= k < |fl| ==> a + 4 <= fl[k] || fl[k] + 16 <= a
    ensures Word(m', a) == Word(m, a)
  {
  }

  /** Writing one block's header and footer. */
  ghost predicate Retagged(m: seq<byte>, m1: seq<byte>, m2: seq<byte>, b: nat, block: Block) {
    && 4 <= b && 8 <= block.size && b + block.size <= |m| && |m| == |m1| == |m2|
    && KeptOutside(m, m1, b - 4, b) && Word(m1, b - 4) == Tag(block)
    && KeptOutside(m1, m2, b + block.size - 8, b + block.size - 4) && Word(m2, b + block.size - 8) == Tag(block)
  }

  /** All blocks but `b` carry their tags already, and so do prologue and epilogue. */
  ghost predicate TaggedBut(m: seq<byte>, B: Blocks, brk: nat, b: nat) {
    && FIRST <= brk <= |m|
    && Word(m, 4) == 9 && Word(m, 8) == 9 && Word(m, brk - 4) == 1
    && forall x {:trigger Tags(m, B, x)} :: x in B && x != b ==> Tags(m, B, x)
  }

  lemma TagsDone(m: seq<byte>, m1: seq<byte>, m2: seq<byte>, B: Blocks, brk: nat, b: nat)
    requires Sized(B, brk) && Disjoint(B) && b in B && TaggedBut(m, B, brk, b) && Retagged(m, m1, m2, b, B[b])
    ensures Tagged(m2, B, brk)
  {
    hide Word, Pointer, Aligned, ChangedOnly;
    forall x | x in B
      ensures Tags(m2, B, x)
    {
      if x != b {
        assert Tags(m, B, x);
      }
    }
  }

  /** Tagging misses every link area that lies in other blocks. */
  lemma ListKeptRetag(m: seq<byte>, m1: seq<byte>, m2: seq<byte>, B: Blocks, brk: nat, b: nat, base: nat, head: nat, fl: seq<nat>)
    requires Sized(B, brk) && Disjoint(B) && b in B && Retagged(m, m1, m2, b, B[b])
    requires Listed(m, base, head, fl)
    requires forall k :: 0 <= k < |fl| ==> fl[k] in B && fl[k] != b
    ensures Listed(m2, base, head, fl)
  {
    hide Word, Pointer, Aligned, ChangedOnly, KeptOutside, Listed;
    var f := b + B[b].size - 8;
    forall k | 0 <= k < |fl|
      ensures (fl[k] + 16 <= b - 4 || b <= fl[k]) && (fl[k] + 16 <= f || f + 4 <= fl[k])
    {
      assert fl[k] in B;
    }
    ListKept(m, m1, base, head, fl, b - 4, b);
    ListKept(m1, m2, base, head, fl, f, f + 4);
  }

  /** The list holds free blocks only, each at most once. */
  ghost predicate FreeOnly(B: Blocks, fl: seq<nat>) {
    && (forall k :: 0 <= k < |fl| ==> fl[k] in B && B[fl[k]].free)
    && (forall j, k :: 0 <= j < |fl| && 0 <= k < |fl| && j != k ==> fl[j] != fl[k])
  }

  lemma FreeSpaced(B: Blocks, brk: nat, fl: seq<nat>)
    requires Sized(B, brk) && Disjoint(B) && FreeOnly(B, fl)
    ensures Spaced(fl)
  {
    forall j, k | 0 <= j < |fl| && 0 <= k < |fl| && j != k
      ensures fl[j] + 16 <= fl[k] || fl[k] + 16 <= fl[j]
    {
      assert fl[j] in B && fl[k] in B && fl[j] != fl[k];
    }
  }

  lemma FreeWithout(B: Blocks, brk: nat, fl: seq<nat>, k: nat)
    requires Sized(B, brk) && Disjoint(B) && FreeOnly(B, fl) && k < |fl|
    ensures FreeOnly(B, Without(fl, k)) && forall x :: x in Without(fl, k) <==> x in fl && x != fl[k]
  {
    FreeSpaced(B, brk, fl);
    WithoutShape(fl, k);
  }

  /** The bytes a caller may use: the block without header and footer. */
  ghost predicate PayloadsKept(m: seq<byte>, m': seq<byte>, live: map<nat, nat>) {
    |m'| == |m| && forall b, i: nat :: b in live && b <= i && i + 8 < b + live[b] && i < |m| ==> m'[i] == m[i]
  }

  /** Free-list pointers live in free blocks only. */
  lemma LinksKeepPayloads(m: seq<byte>, m': seq<byte>, B: Blocks, brk: nat, fl: seq<nat>)
    requires Sized(B, brk) && Disjoint(B) && FreeOnly(B, fl) && OnlyLinks(m, m', fl)
    ensures PayloadsKept(m, m', Live(B))
  {
    hide Aligned;
    forall b, i: nat | b in Live(B) && b <= i && i + 8 < b + Live(B)[b] && i < |m|
      ensures m'[i] == m[i]
    {
      forall k | 0 <= k < |fl|
        ensures !(fl[k] <= i < fl[k] + 16)
      {
        assert fl[k] in B && fl[k] != b;
      }
      assert !InArea(i, fl);
    }
  }

  /** Tags are never inside a payload. */
  lemma TagsKeepPayloads(m: seq<byte>, m1: seq<byte>, m2: seq<byte>, B: Blocks, brk: nat, b: nat)
    requires Sized(B, brk) && Disjoint(B) && b in B && Retagged(m, m1, m2, b, B[b])
    ensures PayloadsKept(m, m2, Live(B))
  {
    hide Aligned, Word, Pointer;
  }

  lemma TagReads(b: Block)
    requires Aligned(b.size)
    ensures SizeOf(Tag(b)) == b.size && (Tag(b) % 2 == 1 <==> !b.free)
  {
    var q := b.size / 8;
    LowBits8(q);
    LowBits2(4 * q);
  }

  lemma TagSmall(b: Block)
    ensures b.size <= Tag(b) <= b.size + 1 && (!b.free ==> Tag(b) == b.size + 1)
  {
  }

  lemma LowBits8(q: nat)
    ensures (8 * q) % 8 == 0 && (8 * q + 1) % 8 == 1
  {
  }

  lemma LowBits2(q: nat)
    ensures (2 * q) % 2 == 0 && (2 * q + 1) % 2 == 1
  {
  }

  // ------------------------------------------------------- the whole heap

  const MAX_HEAP := 20 * 1024 * 1024

  /** The allocator's state: heap address, bytes, break, `free_listp`, and the
      blocks and free list they stand for. */
  datatype Heap = Heap(base: nat, mem: seq<byte>, brk: nat, head: nat, blocks: Blocks, free: seq<nat>)

  /** Blocks tile the heap and are tagged; the free list is a proper doubly linked list of free blocks. */
  ghost predicate Formed(h: Heap) {
    && 0 < h.base && Aligned(h.base) && h.base + MAX_HEAP < ADDRESS_LIMIT
    && |h.mem| == MAX_HEAP && h.brk <= MAX_HEAP
    && Tiles(h.blocks, h.brk) && Tagged(h.mem, h.blocks, h.brk)
    && Listed(h.mem, h.base, h.head, h.free) && FreeOnly(h.blocks, h.free)
  }

  /** The list holds every free block except those in `D`. */
  ghost predicate Loose(h: Heap, D: set<nat>) {
    forall b :: b in h.free <==> b in h.blocks && h.blocks[b].free && b !in D
  }

  /** Moreover no two adjacent blocks are free, and every free block is listed. */
  ghost predicate Valid(h: Heap) {
    Formed(h) && Coalesced(h.blocks) && Loose(h, {})
  }

  /** Block `x` is free but neither listed nor merged with its neighbours yet. */
  ghost predicate Pending(h: Heap, x: nat) {
    Formed(h) && CoalescedBut(h.blocks, x) && x in h.blocks && h.blocks[x].free && Loose(h, {x})
  }

  /** `k`-th free block taken off the list. */
  lemma RemoveDone(h: Heap, m1: seq<byte>, m2: seq<byte>, k: nat)
    requires Formed(h) && k < |h.free|
    requires Skipped(h.mem, m1, h.base, h.free, k) && SkippedBack(m1, m2, h.base, h.free, k)
    ensures Formed(h.(mem := m2, head := if k == 0 then At(h.base, h.free, 1) else h.head, free := Without(h.free, k)))
    ensures OnlyLinks(h.mem, m2, h.free)
  {
    hide Word, Pointer, Tagged, Listed, Skipped, SkippedBack, FreeOnly, Aligned, OnlyLinks, Spaced, Without;
    FreeSpaced(h.blocks, h.brk, h.free);
    Unlinked(h.mem, m1, m2, h.base, h.head, h.free, k);
    UnlinkedOnly(h.mem, m1, m2, h.base, h.free, k);
    FreeWithout(h.blocks, h.brk, h.free, k);
    FreeMembers(h.blocks, h.free);
    TagsKept(h.mem, m2, h.blocks, h.brk, h.free);
    OnlyLinksSize(h.mem, m2, h.free);
  }

  lemma OnlyLinksSize(m: seq<byte>, m': seq<byte>, fl: seq<nat>)
    requires OnlyLinks(m, m', fl)
    ensures |m'| == |m|
  {
  }

  /** Free block `b` put at the front of the list. */
  lemma AddDone(h: Heap, m1: seq<byte>, m2: seq<byte>, m3: seq<byte>, b: nat)
    requires Formed(h) && b in h.blocks && h.blocks[b].free && b !in h.free
    requires Pushed(h.mem, m1, m2, m3, h.base, h.head, h.free, b)
    ensures Formed(h.(mem := m3, head := h.base + b, free := [b] + h.free))
    ensures OnlyLinks(h.mem, m3, [b] + h.free)
  {
    hide Word, Pointer, Tagged, Listed, Pushed, Aligned, OnlyLinks, Spaced;
    FreeSpaced(h.blocks, h.brk, [b] + h.free);
    Prepended(h.mem, m1, m2, m3, h.base, h.head, h.free, b);
    PrependedOnly(h.mem, m1, m2, m3, h.base, h.head, h.free, b);
    FreeMembers(h.blocks, [b] + h.free);
    TagsKept(h.mem, m3, h.blocks, h.brk, [b] + h.free);
    OnlyLinksSize(h.mem, m3, [b] + h.free);
  }

  lemma FreeMembers(B: Blocks, fl: seq<nat>)
    requires FreeOnly(B, fl)
    ensures forall x :: x in fl ==> x in B && B[x].free
  {
  }

  /** Writing the tags of block `b` turns the blocks into `B`. */
  lemma RetagDone(h: Heap, B: Blocks, b: nat, m1: seq<byte>, m2: seq<byte>)
    requires Formed(h) && Tiles(B, h.brk) && b in B && b !in h.free
    requires forall x :: x in B && x != b ==> x in h.blocks && h.blocks[x] == B[x]
    requires forall x :: x in h.free ==> x in B
    requires Retagged(h.mem, m1, m2, b, B[b])
    ensures Formed(h.(mem := m2, blocks := B))
    ensures PayloadsKept(h.mem, m2, Live(B))
  {
    hide Word, Pointer, Chained, Backed, Listed, Aligned, KeptOutside, Retagged;
    forall x | x in B && x != b
      ensures Tags(h.mem, B, x)
    {
      assert Tags(h.mem, h.blocks, x);
    }
    RetaggedSize(h.mem, m1, m2, b, B[b]);
    TagsDone(h.mem, m1, m2, B, h.brk, b);
    forall k | 0 <= k < |h.free|
      ensures h.free[k] in B && h.free[k] != b && B[h.free[k]].free
    {
      assert h.free[k] in h.free;
    }
    ListKeptRetag(h.mem, m1, m2, B, h.brk, b, h.base, h.head, h.free);
    TagsKeepPayloads(h.mem, m1, m2, B, h.brk, b);
  }

  lemma RetaggedSize(m: seq<byte>, m1: seq<byte>, m2: seq<byte>, b: nat, block: Block)
    requires Retagged(m, m1, m2, b, block)
    ensures |m2| == |m|
  {
  }

  lemma LooseRemoved(h: Heap, h': Heap, k: nat, D: set<nat>)
    requires Formed(h) && Loose(h, D) && k < |h.free| && h'.blocks == h.blocks && h'.free == Without(h.free, k)
    ensures Loose(h', D + {h.free[k]})
  {
    hide Without, Tagged, Listed, Chained, Backed;
    FreeWithout(h.blocks, h.brk, h.free, k);
  }

  /** The last store of `coalesce` makes the heap whole. */
  lemma Settled(h: Heap, h': Heap, x: nat)
    requires Pending(h, x) && NextBusy(h.blocks, x) && PrevBusy(h.blocks, x)
    requires Formed(h') && h'.blocks == h.blocks && h'.free == [x] + h.free
    ensures Valid(h')
  {
    hide Formed;
    CoalesceDone(h.blocks, x);
    assert forall b :: b in h'.free <==> b == x || b in h.free;
  }

  /** `RetagDone` for a list from which the changed blocks have been taken. */
  lemma RetagLoose(h: Heap, D: set<nat>, B: Blocks, x: nat, m1: seq<byte>, m2: seq<byte>)
    requires Formed(h) && Loose(h, D) && Tiles(B, h.brk) && x in B && x in D
    requires forall y :: y in B && y != x ==> y in h.blocks && h.blocks[y] == B[y] && y !in D
    requires forall y :: y in h.blocks && y !in D ==> y in B
    requires Retagged(h.mem, m1, m2, x, B[x])
    ensures var h' := h.(mem := m2, blocks := B);
            Formed(h') && Loose(h', if B[x].free then {x} else {})
    ensures PayloadsKept(h.mem, m2, Live(B))
  {
    hide Formed, Tiles, Retagged, PayloadsKept, Live;
    RetagDone(h, B, x, m1, m2);
  }
}
