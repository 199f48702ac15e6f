/** pintos/lib/kernel/bitmap.c: an array of bits packed in 64-bit words, with
    first-fit search, and its image in a file. */
module Bitmaps {

  const ELEM_BITS: nat := 64
  const BITMAP_ERROR: nat := 0xFFFF_FFFF

  // ---------------------------------------------------- one bit of a word

  /** The place of a bit in its word, as a shift amount. */
  function Place(i: nat): bv6 {
    (i % ELEM_BITS) as bv6
  }

  function BitMask(i: nat): bv64 {
    (1 as bv64) << Place(i)
  }

  function And(w: bv64, m: bv64): bv64 {
    w & m
  }

  predicate Has(w: bv64, m: bv64) {
    And(w, m) != 0
  }

  function Or(w: bv64, m: bv64): bv64 {
    w | m
  }

  function AndNot(w: bv64, m: bv64): bv64 {
    w & !m
  }

  function Xor(w: bv64, m: bv64): bv64 {
    w ^ m
  }

  lemma PlaceBack(k: nat)
    requires k < 64
    ensures (k as bv6) as nat == k
  {
  }

  lemma PlacesDiffer(i: nat, j: nat)
    ensures Place(i) == Place(j) <==> i % 64 == j % 64
  {
    PlaceBack(i % ELEM_BITS);
    PlaceBack(j % ELEM_BITS);
  }

  lemma ShiftsApart(j: bv6, k: bv6)
    ensures (1 as bv64) << j != 0
    ensures j != k ==> ((1 as bv64) << j) & ((1 as bv64) << k) == 0
  {
  }

  lemma ShiftIsOneBit(w: bv64, k: bv6)
    ensures var m := (1 as bv64) << k; w & m == 0 || w & m == m
  {
  }

  predicate Apart(m: bv64, x: bv64) {
    m & x == 0
  }

  predicate OneBitOf(w: bv64, m: bv64) {
    m != 0 && (And(w, m) == 0 || And(w, m) == m)
  }

  lemma AreMasks(w: bv64, i: nat, j: nat)
    ensures if i % 64 == j % 64 then BitMask(i) == BitMask(j) else Apart(BitMask(i), BitMask(j))
    ensures OneBitOf(w, BitMask(i))
  {
    hide Place;
    PlacesDiffer(i, j);
    ShiftsApart(Place(i), Place(j));
    ShiftIsOneBit(w, Place(i));
  }

  lemma AndSame(w: bv64, m: bv64)
    ensures And(Or(w, m), m) == m && And(AndNot(w, m), m) == 0
  {
  }

  lemma AndXorSame(w: bv64, m: bv64)
    ensures And(w, m) == 0 ==> And(Xor(w, m), m) == m
    ensures And(w, m) == m ==> And(Xor(w, m), m) == 0
  {
  }

  lemma OrOther(w: bv64, m: bv64, x: bv64)
    requires Apart(m, x)
    ensures And(Or(w, m), x) == And(w, x)
  {
  }

  lemma AndNotOther(w: bv64, m: bv64, x: bv64)
    requires Apart(m, x)
    ensures And(AndNot(w, m), x) == And(w, x)
  {
  }

  lemma XorOther(w: bv64, m: bv64, x: bv64)
    requires Apart(m, x)
    ensures And(Xor(w, m), x) == And(w, x)
  {
  }

  /** What the three updates of a word do to each of its bits. */
  lemma WordSteps(w: bv64, i: nat, j: nat)
    ensures Has(Or(w, BitMask(i)), BitMask(j)) <==> i % 64 == j % 64 || Has(w, BitMask(j))
    ensures Has(AndNot(w, BitMask(i)), BitMask(j)) <==> i % 64 != j % 64 && Has(w, BitMask(j))
    ensures Has(Xor(w, BitMask(i)), BitMask(j)) <==> ((i % 64 == j % 64) != Has(w, BitMask(j)))
  {
    hide BitMask, And, Or, AndNot, Xor, Apart;
    AreMasks(w, i, j);
    if i % 64 == j % 64 {
      AndSame(w, BitMask(i));
      AndXorSame(w, BitMask(i));
    } else {
      OrOther(w, BitMask(i), BitMask(j));
      AndNotOther(w, BitMask(i), BitMask(j));
      XorOther(w, BitMask(i), BitMask(j));
    }
  }

  // --------------------------------------------------------------- the bits

  function ElemCnt(bitCnt: nat): nat {
    (bitCnt + ELEM_BITS - 1) / ELEM_BITS
  }

  predicate TestAt(ws: seq<bv64>, i: nat)
    requires i / ELEM_BITS < |ws|
  {
    Has(ws[i / ELEM_BITS], BitMask(i))
  }

  /** The first bits of the words are `bits`. */
  ghost predicate Holds(ws: seq<bv64>, bits: seq<bool>) {
    |ws| == ElemCnt(|bits|) && forall i: nat :: i < |bits| ==> i / ELEM_BITS < |ws| && bits[i] == TestAt(ws, i)
  }

  ghost function BitsOf(ws: seq<bv64>, n: nat): (bits: seq<bool>)
    requires |ws| == ElemCnt(n)
    ensures |bits| == n && Holds(ws, bits)
  {
    seq(n, i requires 0 <= i < n => i / ELEM_BITS < |ws| && TestAt(ws, i))
  }

  lemma HeldAreThose(ws: seq<bv64>, bits: seq<bool>)
    requires Holds(ws, bits)
    ensures BitsOf(ws, |bits|) == bits
  {
  }

  function SetWord(w: bv64, i: nat, value: bool): bv64 {
    if value then Or(w, BitMask(i)) else AndNot(w, BitMask(i))
  }

  lemma WordSet(ws: seq<bv64>, bits: seq<bool>, i: nat, value: bool)
    requires Holds(ws, bits) && i < |bits|
    ensures i / ELEM_BITS < |ws|
    ensures Holds(ws[i / ELEM_BITS := SetWord(ws[i / ELEM_BITS], i, value)], bits[i := value])
  {
    hide And, Or, AndNot, Xor, BitMask, Has;
    var ws' := ws[i / ELEM_BITS := SetWord(ws[i / ELEM_BITS], i, value)];
    forall j: nat | j < |bits|
      ensures j / ELEM_BITS < |ws'| && bits[i := value][j] == TestAt(ws', j)
    {
      WordSteps(ws[i / ELEM_BITS], i, j);
      SamePlace(i, j);
    }
  }

  lemma WordFlipped(ws: seq<bv64>, bits: seq<bool>, i: nat)
    requires Holds(ws, bits) && i < |bits|
    ensures i / ELEM_BITS < |ws|
    ensures Holds(ws[i / ELEM_BITS := Xor(ws[i / ELEM_BITS], BitMask(i))], bits[i := !bits[i]])
  {
    hide And, Or, AndNot, Xor, BitMask, Has;
    var ws' := ws[i / ELEM_BITS := Xor(ws[i / ELEM_BITS], BitMask(i))];
    forall j: nat | j < |bits|
      ensures j / ELEM_BITS < |ws'| && bits[i := !bits[i]][j] == TestAt(ws', j)
    {
      WordSteps(ws[i / ELEM_BITS], i, j);
      SamePlace(i, j);
    }
  }

  lemma SamePlace(i: nat, j: nat)
    ensures i / 64 == j / 64 && i % 64 == j % 64 <==> i == j
  {
  }

  /** `cnt` bits from `start` on all have the value. */
  ghost predicate Group(bits: seq<bool>, start: nat, cnt: nat, value: bool) {
    start + cnt <= |bits| && forall i :: start <= i < start + cnt ==> bits[i] == value
  }

  /** `idx` is the first group at or after `start`, or the error value when there is none. */
  ghost predicate FirstGroup(bits: seq<bool>, start: nat, cnt: nat, value: bool, idx: nat) {
    && (idx != BITMAP_ERROR ==> start <= idx && Group(bits, idx, cnt, value))
    && forall j: nat :: start <= j && (idx == BITMAP_ERROR || j < idx) ==> !Group(bits, j, cnt, value)
  }

  /** A scan for no bits at all stops where it starts. */
  lemma EmptyGroup(bits: seq<bool>, start: nat, value: bool, idx: nat)
    requires FirstGroup(bits, start, 0, value, idx) && start <= |bits| < BITMAP_ERROR
    ensures idx == start
  {
    assert Group(bits, start, 0, value);
  }

  ghost function Painted(bits: seq<bool>, start: nat, cnt: nat, value: bool): (r: seq<bool>)
    requires start + cnt <= |bits|
    ensures |r| == |bits|
    ensures forall i :: 0 <= i < |bits| ==> r[i] == if start <= i < start + cnt then value else bits[i]
  {
    seq(|bits|, i requires 0 <= i < |bits| => if start <= i < start + cnt then value else bits[i])
  }

  /** Undoing a flip gives the bits back. */
  lemma FlipUndone(bits: seq<bool>, start: nat, cnt: nat, value: bool)
    requires Group(bits, start, cnt, value)
    ensures Painted(Painted(bits, start, cnt, !value), start, cnt, value) == bits
  {
  }

  // -------------------------------------------------------- the file image

  function ByteOf(w: bv64, k: nat): bv8
    requires k < 8
  {
    ((match k
      case 0 => w
      case 1 => w >> 8
      case 2 => w >> 16
      case 3 => w >> 24
      case 4 => w >> 32
      case 5 => w >> 40
      case 6 => w >> 48
      case _ => w >> 56) & 0xFF) as bv8
  }

  function Joined(b: seq<bv8>): bv64
    requires |b| == 8
  {
    ((b[0] as bv64) | ((b[1] as bv64) << 8) | ((b[2] as bv64) << 16) | ((b[3] as bv64) << 24))
    | (((b[4] as bv64) << 32) | ((b[5] as bv64) << 40) | ((b[6] as bv64) << 48) | ((b[7] as bv64) << 56))
  }

  lemma WordBack(w: bv64, b: seq<bv8>)
    requires |b| == 8 && forall k: nat :: k < 8 ==> b[k] == ByteOf(w, k)
    ensures Joined(b) == w
  {
    assert b[0] == ByteOf(w, 0) && b[1] == ByteOf(w, 1) && b[2] == ByteOf(w, 2) && b[3] == ByteOf(w, 3);
    assert b[4] == ByteOf(w, 4) && b[5] == ByteOf(w, 5) && b[6] == ByteOf(w, 6) && b[7] == ByteOf(w, 7);
  }

  /** The words as bytes in memory order, as they are copied to the file. */
  function Image(ws: seq<bv64>): (b: seq<bv8>)
    ensures |b| == 8 * |ws|
  {
    seq(8 * |ws|, i requires 0 <= i < 8 * |ws| => ByteOf(ws[i / 8], i % 8))
  }

  ghost function FromImage(b: seq<bv8>, n: nat): (ws: seq<bv64>)
    requires |b| == 8 * n
    ensures |ws| == n
  {
    seq(n, i requires 0 <= i < n => Joined(b[8 * i..8 * i + 8]))
  }

  /** Reading back a written image gives the words. */
  lemma ImageBack(ws: seq<bv64>)
    ensures FromImage(Image(ws), |ws|) == ws
  {
    hide ByteOf, Joined;
    var b := Image(ws);
    forall i | 0 <= i < |ws|
      ensures Joined(b[8 * i..8 * i + 8]) == ws[i]
    {
      var part := b[8 * i..8 * i + 8];
      forall k: nat | k < 8
        ensures part[k] == ByteOf(ws[i], k)
      {
        assert part[k] == b[8 * i + k];
        assert (8 * i + k) / 8 == i && (8 * i + k) % 8 == k;
      }
      WordBack(ws[i], part);
    }
  }

  /** Ones in the places of the last word that are in use. */
  function LastMask(bitCnt: nat): bv64 {
    if bitCnt % ELEM_BITS == 0 then 0xFFFF_FFFF_FFFF_FFFF else ((1 as bv64) << Place(bitCnt)) - 1
  }

  lemma PlaceOrder(i: nat, j: nat)
    ensures Place(i) < Place(j) <==> i % 64 < j % 64
  {
    PlaceBack(i % ELEM_BITS);
    PlaceBack(j % ELEM_BITS);
  }

  lemma LowOnes(j: bv6, k: bv6)
    ensures And(((1 as bv64) << k) - 1, (1 as bv64) << j) == if j < k then (1 as bv64) << j else 0
  {
  }

  lemma MaskedBit(w: bv64, l: bv64, m: bv64)
    ensures And(l, m) == m ==> And(And(w, l), m) == And(w, m)
    ensures And(l, m) == 0 ==> And(And(w, l), m) == 0
  {
  }

  lemma AllOnes(m: bv64)
    ensures And(0xFFFF_FFFF_FFFF_FFFF, m) == m
  {
  }

  lemma LastMaskIs(bitCnt: nat, i: nat)
    ensures And(LastMask(bitCnt), BitMask(i)) == if bitCnt % 64 == 0 || i % 64 < bitCnt % 64 then BitMask(i) else 0
  {
    hide Place, And;
    PlaceOrder(i, bitCnt);
    AllOnes(BitMask(i));
    LowOnes(Place(i), Place(bitCnt));
  }

  /** The mask keeps the bits in use and clears the others of the last word. */
  lemma LastMaskBits(w: bv64, bitCnt: nat, i: nat)
    ensures Has(And(w, LastMask(bitCnt)), BitMask(i)) <==> (bitCnt % 64 == 0 || i % 64 < bitCnt % 64) && Has(w, BitMask(i))
  {
    hide LastMask, BitMask, And;
    LastMaskIs(bitCnt, i);
    MaskedBit(w, LastMask(bitCnt), BitMask(i));
  }

  ghost function LastMasked(ws: seq<bv64>, n: nat): seq<bv64>
    requires |ws| == ElemCnt(n)
  {
    if n == 0 then ws else ws[|ws| - 1 := And(ws[|ws| - 1], LastMask(n))]
  }

  lemma LastMaskKeeps(ws: seq<bv64>, bits: seq<bool>)
    requires Holds(ws, bits)
    ensures Holds(LastMasked(ws, |bits|), bits)
  {
    hide And, BitMask, LastMask, Has;
    var n := |bits|;
    if n > 0 {
      var ws' := LastMasked(ws, n);
      forall i: nat | i < n
        ensures i / ELEM_BITS < |ws'| && bits[i] == TestAt(ws', i)
      {
        WordInside(n, i);
        LastMaskBits(ws[|ws| - 1], n, i);
      }
    }
  }

  lemma WordInside(n: nat, i: nat)
    requires i < n
    ensures i / ELEM_BITS < ElemCnt(n)
    ensures i / ELEM_BITS == ElemCnt(n) - 1 ==> n % 64 == 0 || i % 64 < n % 64
  {
  }

  // ------------------------------------------------------------- the bitmap

  class Bitmap {
    const bitCnt: nat
    const bits: array<bv64>

    /** All sector counts are 32 bits wide and below the error value. */
    ghost predicate Valid() {
      bits.Length == ElemCnt(bitCnt) && bitCnt < BITMAP_ERROR
    }

    ghost function Contents(): (s: seq<bool>)
      requires Valid()
      reads bits
      ensures |s| == bitCnt && Holds(bits[..], s)
    {
      BitsOf(bits[..], bitCnt)
    }

    /** bitmap_create, where memory for it is found. */
    constructor (bitCnt: nat)
      requires bitCnt < BITMAP_ERROR
      ensures Valid() && this.bitCnt == bitCnt && fresh(bits)
      ensures Contents() == seq(bitCnt, _ => false)
    {
      this.bitCnt := bitCnt;
      bits := new bv64[ElemCnt(bitCnt)];
      new;
      SetMultiple(0, bitCnt, false);
    }

    method Set(idx: nat, value: bool)
      requires Valid() && idx < bitCnt
      modifies bits
      ensures Contents() == old(Contents())[idx := value]
    {
      if value {
        Mark(idx);
      } else {
        Reset(idx);
      }
    }

    method Mark(idx: nat)
      requires Valid() && idx < bitCnt
      modifies bits
      ensures Contents() == old(Contents())[idx := true]
    {
      hide Or, AndNot, BitMask;
      WordSet(bits[..], Contents(), idx, true);
      var e := idx / ELEM_BITS;
      var w := Or(bits[e], BitMask(idx));
      bits[e] := w;
      HeldAreThose(bits[..], old(Contents())[idx := true]);
    }

    method Reset(idx: nat)
      requires Valid() && idx < bitCnt
      modifies bits
      ensures Contents() == old(Contents())[idx := false]
    {
      hide Or, AndNot, BitMask;
      WordSet(bits[..], Contents(), idx, false);
      var e := idx / ELEM_BITS;
      var w := AndNot(bits[e], BitMask(idx));
      bits[e] := w;
      HeldAreThose(bits[..], old(Contents())[idx := false]);
    }

    method Flip(idx: nat)
      requires Valid() && idx < bitCnt
      modifies bits
      ensures Contents() == old(Contents())[idx := !old(Contents())[idx]]
    {
      hide Xor, BitMask;
      WordFlipped(bits[..], Contents(), idx);
      var e := idx / ELEM_BITS;
      var w := Xor(bits[e], BitMask(idx));
      bits[e] := w;
      HeldAreThose(bits[..], old(Contents())[idx := !old(Contents())[idx]]);
    }

    method Test(idx: nat) returns (r: bool)
      requires Valid() && idx < bitCnt
      ensures r == Contents()[idx]
    {
      WordInside(bitCnt, idx);
      r := Has(bits[idx / ELEM_BITS], BitMask(idx));
      assert r == TestAt(bits[..], idx);
    }

    method SetMultiple(start: nat, cnt: nat, value: bool)
      requires Valid() && start + cnt <= bitCnt
      modifies bits
      ensures Contents() == Painted(old(Contents()), start, cnt, value)
    {
      hide Holds, ElemCnt, BitsOf;
      for i := 0 to cnt
        invariant Contents() == Painted(old(Contents()), start, i, value)
      {
        Set(start + i, value);
      }
    }

    method Count(start: nat, cnt: nat, value: bool) returns (valueCnt: nat)
      requires Valid() && start + cnt <= bitCnt
      ensures valueCnt == multiset(Contents()[start..start + cnt])[value]
    {
      hide Holds, ElemCnt, BitsOf;
      valueCnt := 0;
      for i := 0 to cnt
        invariant valueCnt == multiset(Contents()[start..start + i])[value]
      {
        var b := Test(start + i);
        assert Contents()[start..start + i + 1] == Contents()[start..start + i] + [Contents()[start + i]];
        if b == value {
          valueCnt := valueCnt + 1;
        }
      }
    }

    /** bitmap_any, bitmap_none and bitmap_all are this for the value true, its negation, and its negation for false. */
    method Contains(start: nat, cnt: nat, value: bool) returns (r: bool)
      requires Valid() && start + cnt <= bitCnt
      ensures r <==> !Group(Contents(), start, cnt, !value)
    {
      hide Holds, ElemCnt, BitsOf;
      for i := 0 to cnt
        invariant Group(Contents(), start, i, !value)
      {
        var b := Test(start + i);
        if b == value {
          return true;
        }
      }
      return false;
    }

    method Scan(start: nat, cnt: nat, value: bool) returns (idx: nat)
      requires Valid() && start <= bitCnt
      ensures FirstGroup(Contents(), start, cnt, value, idx)
    {
      hide Holds, ElemCnt, BitsOf;
      if cnt <= bitCnt {
        var last := bitCnt - cnt;
        var i := start;
        while i <= last
          invariant start <= i
          invariant forall j: nat :: start <= j < i ==> !Group(Contents(), j, cnt, value)
        {
          var other := Contains(i, cnt, !value);
          if !other {
            return i;
          }
          i := i + 1;
        }
      }
      return BITMAP_ERROR;
    }

    method ScanAndFlip(start: nat, cnt: nat, value: bool) returns (idx: nat)
      requires Valid() && start <= bitCnt
      modifies bits
      ensures FirstGroup(old(Contents()), start, cnt, value, idx)
      ensures idx == BITMAP_ERROR ==> bits[..] == old(bits[..])
      ensures idx != BITMAP_ERROR ==> idx + cnt <= bitCnt && Contents() == Painted(old(Contents()), idx, cnt, !value)
    {
      hide Holds, ElemCnt, BitsOf;
      idx := Scan(start, cnt, value);
      if idx != BITMAP_ERROR {
        SetMultiple(idx, cnt, !value);
      }
    }

    /** What bitmap_read does with the bytes of the file, all of which have been read. */
    method Load(b: seq<bv8>)
      requires Valid() && |b| == 8 * bits.Length
      modifies bits
      ensures bits[..] == LastMasked(FromImage(b, bits.Length), bitCnt)
    {
      hide Joined, LastMask, And;
      for i := 0 to bits.Length
        invariant bits[..i] == FromImage(b, bits.Length)[..i]
      {
        var w := Joined(b[8 * i..8 * i + 8]);
        bits[i] := w;
      }
      if bitCnt > 0 {
        var last := bits.Length - 1;
        bits[last] := And(bits[last], LastMask(bitCnt));
      }
    }
  }

  /** A bitmap written to its file and read again is the same bitmap. */
  lemma StoredAndLoaded(ws: seq<bv64>, bits: seq<bool>)
    requires Holds(ws, bits)
    ensures Holds(LastMasked(FromImage(Image(ws), |ws|), |bits|), bits)
  {
    ImageBack(ws);
    LastMaskKeeps(ws, bits);
  }
}
