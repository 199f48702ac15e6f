/** The size arithmetic of mm.c in its C types: `size_t` wraps at 2^64 and
    `mem_sbrk` takes an `int`. */
module RequestSizes {
  import opened HeapBytes
  import opened BlockMap
  import opened HeapLayout

  const CHUNKSIZE := 1024

  function SizeT(x: nat): nat {
    x % ADDRESS_LIMIT
  }

  /** `ALIGN`. */
  function Align(size: nat): nat {
    SizeOf(SizeT(size + 7))
  }

  /** `ALIGN(size + DSIZE)`. */
  function PlainSize(size: nat): nat {
    Align(SizeT(size + 8))
  }

  /** The block size `mm_malloc` looks for. */
  function AdjustedSize(size: nat): nat {
    if size == 448 then 520 else if size == 112 then 136 else PlainSize(size)
  }

  function ExtendSize(asize: nat): nat {
    if asize < CHUNKSIZE then CHUNKSIZE
    else if asize < CHUNKSIZE * 4 then asize + CHUNKSIZE / 4
    else SizeT(asize + asize / 24)
  }

  /** What `extend_heap` asks `mem_sbrk` for. */
  function EvenBytes(words: nat): nat {
    SizeT((if words % 2 == 1 then SizeT(words + 1) else words) * 4)
  }

  function ExtendBytes(asize: nat): nat {
    EvenBytes(ExtendSize(asize) / 2)
  }

  /** Conversion of a `size_t` argument to `int`. */
  function ToInt(x: nat): int {
    var low := x % WORD_LIMIT;
    if low < 0x8000_0000 then low else low - WORD_LIMIT
  }

  /** `mem_sbrk` accepts the increment. */
  predicate Granted(brk: nat, bytes: nat) {
    0 <= ToInt(bytes) && brk + ToInt(bytes) <= MAX_HEAP
  }

  lemma Wrapping(x: nat)
    requires x < 2 * ADDRESS_LIMIT
    ensures SizeT(x) == if x < ADDRESS_LIMIT then x else x - ADDRESS_LIMIT
  {
  }

  lemma RoundedDown(w: nat)
    ensures w < SizeOf(w) + 8 && SizeOf(w) <= w && Aligned(SizeOf(w))
  {
    LowBits8(w / 8);
  }

  /** The requests that `mm_malloc` handles as promised. */
  predicate Servable(brk: nat, size: nat) {
    size == 0
    || (8 < size < ADDRESS_LIMIT - 15 && (MAX_HEAP < PlainSize(size) ==> !Granted(brk, ExtendBytes(PlainSize(size)))))
  }

  /** Likewise for `mm_realloc`, where small sizes are no trouble. */
  predicate Resizable(brk: nat, size: nat) {
    size < ADDRESS_LIMIT - 15 && (MAX_HEAP < PlainSize(size) ==> !Granted(brk, ExtendBytes(PlainSize(size))))
  }

  lemma ResizableIsServable(brk: nat, size: nat)
    requires Resizable(brk, size)
    ensures size + 8 <= PlainSize(size)
    ensures MIN_BLOCK < PlainSize(size) ==> Servable(brk, size)
  {
    hide PlainSize, ExtendBytes;
    AdjustedIsEnough(size);
    if size <= 8 {
      SmallPlainSize(size);
    }
  }

  lemma SmallPlainSize(size: nat)
    requires size <= 8
    ensures size + 8 <= PlainSize(size) <= MIN_BLOCK
  {
    hide SizeT, SizeOf;
    Wrapping(size + 8);
    Wrapping(size + 15);
    RoundedDown(size + 15);
  }

  /** The servable requests are exactly those whose block has room for the request and for the
      links of a free block, and is not larger than what the heap grows by. */
  lemma ServableIsExact(brk: nat, size: nat)
    requires 0 < size < ADDRESS_LIMIT
    ensures var asize := AdjustedSize(size);
            Servable(brk, size) <==>
              MIN_BLOCK <= asize && size + 8 <= asize && (Granted(brk, ExtendBytes(asize)) ==> asize <= ToInt(ExtendBytes(asize)))
  {
    hide PlainSize, ExtendBytes;
    AdjustedIsEnough(size);
    var asize := AdjustedSize(size);
    if asize <= MAX_HEAP {
      ExtensionCovers(asize);
    } else if Granted(brk, ExtendBytes(asize)) {
      OversizedIsShort(brk, asize);
    }
  }

  /** The block found for a request has room for the free-list pointers, and
      for the request, exactly for sizes above 8 that do not wrap. */
  lemma AdjustedIsEnough(size: nat)
    requires size < ADDRESS_LIMIT
    ensures MIN_BLOCK <= AdjustedSize(size) && size + 8 <= AdjustedSize(size) <==> 8 < size < ADDRESS_LIMIT - 15
    ensures Aligned(AdjustedSize(size)) && Aligned(PlainSize(size))
    ensures 8 < size < ADDRESS_LIMIT - 15 ==> size + 8 <= PlainSize(size) < size + 16
    ensures AdjustedSize(448) == 520 && AdjustedSize(112) == 136
    ensures 8 < size < ADDRESS_LIMIT - 15 && size != 448 && size != 112 ==> size + 8 <= AdjustedSize(size) < size + 16
  {
    Wrapping(size + 8);
    Wrapping(SizeT(size + 8) + 7);
    RoundedDown(SizeT(SizeT(size + 8) + 7));
    WholeWords(SizeT(SizeT(size + 8) + 7), 24);
    hide SizeT, SizeOf;
  }

  lemma WholeWords(w: nat, n: nat)
    requires Aligned(n)
    ensures n <= SizeOf(w) <==> n <= w
  {
  }

  /** A block that can exist at all is covered by what the heap grows by. */
  lemma ExtensionCovers(asize: nat)
    requires asize <= MAX_HEAP && Aligned(asize)
    ensures asize <= ExtendBytes(asize) == ToInt(ExtendBytes(asize)) && MIN_BLOCK <= ExtendBytes(asize)
    ensures Aligned(ExtendBytes(asize))
  {
    EvenWords(ExtendSize(asize) / 2);
  }

  /** How far the heap grows when nothing fits: `extend_heap` is given half of the bytes wanted as a number
      of four-byte words, so it is twice as far; 2 KB for small blocks, 512 bytes more than twice the
      block for middling ones, a twelfth more for large ones. */
  lemma ExtensionIs(asize: nat)
    requires asize <= MAX_HEAP && Aligned(asize)
    ensures asize < 1024 ==> ExtendBytes(asize) == 2048
    ensures 1024 <= asize < 4096 ==> ExtendBytes(asize) == 2 * asize + 512
    ensures 4096 <= asize ==> 2 * (asize + asize / 24) - 2 <= ExtendBytes(asize) <= 2 * (asize + asize / 24) + 4
  {
    EvenWords(ExtendSize(asize) / 2);
    hide EvenBytes;
  }

  lemma EvenWords(words: nat)
    requires words < 0x1000_0000
    ensures EvenBytes(words) == 4 * (words + words % 2) && Aligned(EvenBytes(words)) && ToInt(EvenBytes(words)) == EvenBytes(words)
  {
    var q := (words + words % 2) / 2;
    assert words + words % 2 == 2 * q;
    LowBits8(q);
  }

  lemma ServableGrows(brk: nat, size: nat)
    requires 0 < size < ADDRESS_LIMIT && Servable(brk, size)
    ensures var asize := AdjustedSize(size);
            && MIN_BLOCK <= asize && size + 8 <= asize && Aligned(asize)
            && ExtendBytes(asize) == EvenBytes(ExtendSize(asize) / 2)
            && (Granted(brk, ExtendBytes(asize)) ==>
                  asize <= ExtendBytes(asize) == ToInt(ExtendBytes(asize)) && Aligned(ExtendBytes(asize)))
  {
    hide PlainSize, EvenBytes;
    AdjustedIsEnough(size);
    if AdjustedSize(size) <= MAX_HEAP {
      ExtensionCovers(AdjustedSize(size));
    }
  }

  /** The conversion to `int` lets some oversized requests through: the heap
      grows by less than the block that is then cut out of it. */
  lemma OversizedIsShort(brk: nat, asize: nat)
    requires MAX_HEAP < asize && Granted(brk, ExtendBytes(asize))
    ensures ToInt(ExtendBytes(asize)) < asize
  {
  }

  lemma OversizedCanBeGranted()
    ensures var asize := AdjustedSize(2061584392);
            MAX_HEAP < asize && Granted(80, ExtendBytes(asize)) && ToInt(ExtendBytes(asize)) == 208
  {
    AdjustedIsEnough(2061584392);
    hide PlainSize, ExtendBytes;
    var asize := AdjustedSize(2061584392);
    assert asize == 2061584400;
    ExtensionOf(asize);
  }

  lemma ExtensionOf(asize: nat)
    requires asize == 2061584400
    ensures ExtendBytes(asize) == 4294967504
  {
    hide SizeT;
    Wrapping(asize + asize / 24);
    assert ExtendSize(asize) == 2147483750;
    Wrapping(1073741875 + 1);
    Wrapping(1073741876 * 4);
  }

  lemma SmallGranted(brk: nat, bytes: nat)
    requires brk + bytes <= MAX_HEAP
    ensures Granted(brk, bytes) && ToInt(bytes) == bytes
  {
  }
}
