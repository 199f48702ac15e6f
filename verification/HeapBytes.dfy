/** The bytes of the malloc-lab heap, and the 4-byte words and 8-byte pointers
    that mm.c keeps in them, little-endian as on x86-64. */
module HeapBytes {

  type byte = x: int | 0 <= x < 256

  const WORD_LIMIT := 0x1_0000_0000
  const ADDRESS_LIMIT := 0x1_0000_0000_0000_0000

  function Word(m: seq<byte>, a: nat): (w: nat)
    requires a + 4 <= |m|
    ensures w < WORD_LIMIT
  {
    var b0: int, b1: int, b2: int, b3: int := m[a], m[a + 1], m[a + 2], m[a + 3];
    b0 + 0x100 * b1 + 0x1_0000 * b2 + 0x100_0000 * b3
  }

  function Pointer(m: seq<byte>, a: nat): (p: nat)
    requires a + 8 <= |m|
    ensures p < ADDRESS_LIMIT
  {
    Word(m, a) + WORD_LIMIT * Word(m, a + 4)
  }

  /** `m'` differs from `m` at most in `[lo, hi)`. */
  ghost predicate ChangedOnly(m: seq<byte>, m': seq<byte>, lo: nat, hi: nat) {
    |m'| == |m| && forall i :: 0 <= i < |m| && !(lo <= i < hi) ==> m'[i] == m[i]
  }

  /** Everything outside `[lo, hi)` reads the same, as words and as pointers too. */
  ghost predicate KeptOutside(m: seq<byte>, m': seq<byte>, lo: nat, hi: nat) {
    && ChangedOnly(m, m', lo, hi)
    && (forall a: nat {:trigger Word(m', a)} :: a + 4 <= |m| && (a + 4 <= lo || hi <= a) ==> Word(m', a) == Word(m, a))
    && (forall a: nat {:trigger Pointer(m', a)} ::
          a + 8 <= |m| && (a + 8 <= lo || hi <= a) ==> Pointer(m', a) == Pointer(m, a))
  }

  lemma KeepOutside(m: seq<byte>, m': seq<byte>, lo: nat, hi: nat)
    requires ChangedOnly(m, m', lo, hi)
    ensures KeptOutside(m, m', lo, hi)
  {
  }

  /** `PUT` and `GET` are inverse: the four bytes of `w` read back as `w`. */
  lemma WordOfBytes(w: nat)
    requires w < WORD_LIMIT
    ensures w % 0x100 + 0x100 * (w / 0x100 % 0x100) + 0x1_0000 * (w / 0x1_0000 % 0x100) + 0x100_0000 * (w / 0x100_0000) == w
    ensures w / 0x100_0000 < 0x100
  {
  }

  method PutWord(mem: array<byte>, a: nat, w: nat)
    requires a + 4 <= mem.Length && w < WORD_LIMIT
    modifies mem
    ensures Word(mem[..], a) == w
    ensures KeptOutside(old(mem[..]), mem[..], a, a + 4)
  {
    WordOfBytes(w);
    mem[a] := w % 0x100;
    mem[a + 1] := w / 0x100 % 0x100;
    mem[a + 2] := w / 0x1_0000 % 0x100;
    mem[a + 3] := w / 0x100_0000;
    KeepOutside(old(mem[..]), mem[..], a, a + 4);
  }

  method PutPointer(mem: array<byte>, a: nat, p: nat)
    requires a + 8 <= mem.Length && p < ADDRESS_LIMIT
    modifies mem
    ensures Pointer(mem[..], a) == p
    ensures KeptOutside(old(mem[..]), mem[..], a, a + 8)
  {
    PutWord(mem, a, p % WORD_LIMIT);
    PutWord(mem, a + 4, p / WORD_LIMIT);
    KeepOutside(old(mem[..]), mem[..], a, a + 8);
  }

  /** `memcpy` as an ascending byte loop; safe for a destination below the source. */
  method CopyUp(mem: array<byte>, dst: nat, src: nat, n: nat)
    requires dst + n <= mem.Length && src + n <= mem.Length && (dst <= src || src + n <= dst)
    modifies mem
    ensures forall k :: dst <= k < dst + n ==> mem[k] == old(mem[..])[k - dst + src]
    ensures KeptOutside(old(mem[..]), mem[..], dst, dst + n)
  {
    for i := 0 to n
      invariant forall k :: dst <= k < dst + i ==> mem[k] == old(mem[..])[k - dst + src]
      invariant forall k :: 0 <= k < mem.Length && !(dst <= k < dst + i) ==> mem[k] == old(mem[..])[k]
    {
      mem[dst + i] := mem[src + i];
    }
    KeepOutside(old(mem[..]), mem[..], dst, dst + n);
  }
}
