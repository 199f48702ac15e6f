/** lib/stdio.c: integer conversions of printf, and lib/stdlib.c: atoi. */
module Printf {

  type int32 = x: int | -0x8000_0000 <= x < 0x8000_0000
  type uint64 = x: int | 0 <= x < 0x1_0000_0000_0000_0000

  datatype Flags = Flags(minus: bool, plus: bool, space: bool, pound: bool, zero: bool, group: bool)

  /** A precision of -1 stands for none. */
  datatype Conversion = Conversion(flags: Flags, width: nat, precision: int)

  /** `x` is empty unless the base has a prefix letter. */
  datatype Base = Base(base: nat, digits: string, x: string, group: nat)

  const BASE_D := Base(10, "0123456789", "", 3)
  const BASE_O := Base(8, "01234567", "", 3)
  const BASE_X := Base(16, "0123456789abcdef", "x", 4)
  const BASE_UPPER_X := Base(16, "0123456789ABCDEF", "X", 4)

  predicate IsBase(b: Base) {
    b == BASE_D || b == BASE_O || b == BASE_X || b == BASE_UPPER_X
  }

  const BUF_SIZE := 64

  // -------------------------------------------------- what is to come out

  function Comma(b: Base, grouped: bool, count: nat): string
    requires IsBase(b)
  {
    if grouped && count > 0 && count % b.group == 0 then "," else ""
  }

  /** The digits of a value, last one first, with separators between groups. */
  function DigitsFrom(value: nat, b: Base, grouped: bool, count: nat): (s: string)
    requires IsBase(b)
    decreases value
  {
    if value == 0 then ""
    else Comma(b, grouped, count) + [b.digits[value % b.base]] + DigitsFrom(value / b.base, b, grouped, count + 1)
  }

  function Repeat(ch: char, n: int): (s: string)
    ensures |s| == (if n > 0 then n else 0) && forall i :: 0 <= i < |s| ==> s[i] == ch
  {
    if n <= 0 then "" else Repeat(ch, n - 1) + [ch]
  }

  function Reverse(s: string): (r: string)
    ensures |r| == |s|
  {
    if s == "" then "" else Reverse(s[1..]) + [s[0]]
  }

  function SignOf(isSigned: bool, negative: bool, f: Flags): string {
    if !isSigned then ""
    else if negative then "-"
    else if f.plus then "+"
    else if f.space then " "
    else ""
  }

  /** The digits, last one first, with the zeros that precision and `#` ask for; the buffer limits the former. */
  function Body(value: nat, b: Base, c: Conversion): string
    requires IsBase(b)
  {
    var digits := DigitsFrom(value, b, c.flags.group, 0);
    var precision := if c.precision < 0 then 1 else if c.precision < BUF_SIZE - 1 then c.precision else BUF_SIZE - 1;
    var filled := digits + Repeat('0', precision - |digits|);
    if c.flags.pound && b.base == 8 && (filled == "" || filled[|filled| - 1] != '0') then filled + "0" else filled
  }

  function PrefixOf(value: nat, b: Base, f: Flags): string {
    if f.pound && value != 0 && b.x != "" then "0" + b.x else ""
  }

  /** Sign, prefix and digits, padded to the field width on the side that the flags say. */
  function Padded(sign: string, prefix: string, body: string, c: Conversion): string {
    var pad := c.width - |body| - |prefix| - |sign|;
    (if c.flags.minus || c.flags.zero then "" else Repeat(' ', pad))
    + sign + prefix + (if c.flags.zero then Repeat('0', pad) else "") + Reverse(body)
    + (if c.flags.minus then Repeat(' ', pad) else "")
  }

  /** The text of one integer conversion. */
  function Rendered(value: nat, isSigned: bool, negative: bool, b: Base, c: Conversion): string
    requires IsBase(b)
  {
    Padded(SignOf(isSigned, negative, c.flags), PrefixOf(value, b, c.flags), Body(value, b, c), c)
  }

  // --------------------------------------------------------- the buffer

  function Pow8(k: nat): nat {
    if k == 0 then 1 else 8 * Pow8(k - 1)
  }

  lemma {:induction false} DigitsFit(value: nat, b: Base, grouped: bool, count: nat, k: nat)
    requires IsBase(b) && value < Pow8(k)
    ensures |DigitsFrom(value, b, grouped, count)| <= 2 * k
    decreases k
  {
    if value > 0 {
      assert k > 0;
      assert value / b.base < Pow8(k - 1);
      DigitsFit(value / b.base, b, grouped, count + 1, k - 1);
    }
  }

  lemma Digits64(value: uint64, b: Base, grouped: bool)
    requires IsBase(b)
    ensures |DigitsFrom(value, b, grouped, 0)| <= 44
  {
    assert Pow8(6) == 0x4_0000;
    assert Pow8(12) == 0x10_0000_0000;
    assert Pow8(18) == 0x40_0000_0000_0000;
    assert Pow8(22) == 0x4_0000_0000_0000_0000;
    DigitsFit(value, b, grouped, 0, 22);
  }

  method OutputDup(ch: char, cnt: int, out: string) returns (out': string)
    ensures out' == out + Repeat(ch, cnt)
  {
    out' := out;
    var i := 0;
    while i < cnt
      invariant i <= (if cnt > 0 then cnt else 0) && 0 <= i && out' == out + Repeat(ch, i)
    {
      out' := out' + [ch];
      i := i + 1;
    }
  }

  /** Digits are collected in a 64-byte buffer, which is never overrun, and put out in reverse. */
  method FormatInteger(value: uint64, isSigned: bool, negative: bool, b: Base, c: Conversion) returns (out: string)
    requires IsBase(b)
    ensures out == Rendered(value, isSigned, negative, b, c)
  {
    hide DigitsFrom, Repeat, Padded;
    var buf := new char[BUF_SIZE];
    var sign := "";
    if isSigned {
      if c.flags.plus {
        sign := if negative then "-" else "+";
      } else if c.flags.space {
        sign := if negative then "-" else " ";
      } else if negative {
        sign := "-";
      }
    }
    var x := if c.flags.pound && value != 0 then b.x else "";
    ghost var digits := DigitsFrom(value, b, c.flags.group, 0);
    var cp := CollectDigits(buf, value, b, c.flags.group);
    cp := FillZeros(buf, cp, c.precision, digits);
    ghost var filled := buf[..cp];
    if c.flags.pound && b.base == 8 && (cp == 0 || buf[cp - 1] != '0') {
      buf[cp] := '0';
      cp := cp + 1;
      assert buf[..cp] == filled + "0";
    }
    assert buf[..cp] == Body(value, b, c);
    out := PutOut(buf, cp, sign, x, c);
  }

  method PutOut(buf: array<char>, cp0: nat, sign: string, x: string, c: Conversion) returns (out: string)
    requires cp0 <= buf.Length && |sign| <= 1 && |x| <= 1
    ensures out == Padded(sign, if x != "" then "0" + x else "", buf[..cp0], c)
  {
    hide Reverse, Repeat;
    var cp := cp0;
    ghost var body := buf[..cp0];
    var padCnt := c.width - cp - (if x != "" then 2 else 0) - (if sign != "" then 1 else 0);
    if padCnt < 0 {
      padCnt := 0;
    }
    ghost var prefix := if x != "" then "0" + x else "";
    ghost var pad := c.width - |body| - |prefix| - |sign|;
    NoPad(pad);
    ghost var left := if c.flags.minus || c.flags.zero then "" else Repeat(' ', pad);
    ghost var zeros := if c.flags.zero then Repeat('0', pad) else "";
    out := "";
    if !c.flags.minus && !c.flags.zero {
      out := OutputDup(' ', padCnt, out);
    }
    assert out == left;
    out := out + sign;
    if x != "" {
      out := out + "0" + x;
    }
    assert out == left + sign + prefix;
    if c.flags.zero {
      out := OutputDup('0', padCnt, out);
    }
    assert out == left + sign + prefix + zeros;
    out := PutReversed(buf, cp, out);
    if c.flags.minus {
      out := OutputDup(' ', padCnt, out);
    } else {
      assert out == out + "";
    }
  }

  method PutReversed(buf: array<char>, cp0: nat, out0: string) returns (out: string)
    requires cp0 <= buf.Length
    ensures out == out0 + Reverse(buf[..cp0])
  {
    hide Reverse;
    ghost var body := buf[..cp0];
    var cp := cp0;
    out := out0;
    NoPad(0);
    assert body[..cp] == body;
    while cp > 0
      invariant 0 <= cp <= |body|
      invariant out + Reverse(body[..cp]) == out0 + Reverse(body)
    {
      cp := cp - 1;
      ReverseLast(body[..cp + 1]);
      assert body[..cp + 1][..cp] == body[..cp];
      assert out + ([buf[cp]] + Reverse(body[..cp])) == out + [buf[cp]] + Reverse(body[..cp]);
      out := out + [buf[cp]];
    }
    assert body[..0] == "";
  }

  lemma NoPad(n: int)
    ensures n < 0 ==> Repeat(' ', n) == Repeat(' ', 0) && Repeat('0', n) == Repeat('0', 0)
    ensures Reverse("") == ""
  {
  }

  lemma {:induction false} ReverseLast(s: string)
    requires s != ""
    ensures Reverse(s) == [s[|s| - 1]] + Reverse(s[..|s| - 1])
  {
    if |s| > 1 {
      ReverseLast(s[1..]);
      assert s[1..][..|s| - 2] == s[..|s| - 1][1..];
    }
  }

  method CollectDigits(buf: array<char>, value0: uint64, b: Base, grouped: bool) returns (cp: nat)
    requires IsBase(b) && buf.Length == BUF_SIZE
    modifies buf
    ensures cp <= 44 && buf[..cp] == DigitsFrom(value0, b, grouped, 0)
  {
    hide DigitsFrom, Comma;
    Digits64(value0, b, grouped);
    var value: nat := value0;
    var digitCnt := 0;
    cp := 0;
    ghost var all := DigitsFrom(value0, b, grouped, 0);
    while value > 0
      invariant cp <= 44 && buf[..cp] + DigitsFrom(value, b, grouped, digitCnt) == all
      decreases value
    {
      ghost var done := buf[..cp];
      ghost var rest := DigitsStep(value, b, grouped, digitCnt);
      if grouped && digitCnt > 0 && digitCnt % b.group == 0 {
        buf[cp] := ',';
        cp := cp + 1;
      }
      assert buf[..cp] == done + Comma(b, grouped, digitCnt);
      buf[cp] := b.digits[value % b.base];
      cp := cp + 1;
      OneDigit(done, Comma(b, grouped, digitCnt), b.digits[value % b.base], rest, buf[..cp]);
      value := value / b.base;
      digitCnt := digitCnt + 1;
    }
    assert DigitsFrom(0, b, grouped, digitCnt) == "" by {
      NoDigits(b, grouped, digitCnt);
    }
  }

  lemma NoDigits(b: Base, grouped: bool, count: nat)
    requires IsBase(b)
    ensures DigitsFrom(0, b, grouped, count) == ""
  {
  }

  lemma DigitsStep(value: nat, b: Base, grouped: bool, count: nat) returns (rest: string)
    requires IsBase(b) && value > 0
    ensures rest == DigitsFrom(value / b.base, b, grouped, count + 1)
    ensures DigitsFrom(value, b, grouped, count) == Comma(b, grouped, count) + [b.digits[value % b.base]] + rest
    ensures Comma(b, grouped, count) == if grouped && count > 0 && count % b.group == 0 then "," else ""
  {
    rest := DigitsFrom(value / b.base, b, grouped, count + 1);
  }

  lemma OneDigit(done: string, comma: string, ch: char, rest: string, now: string)
    requires now == done + comma + [ch]
    ensures done + (comma + [ch] + rest) == now + rest
  {
  }

  method FillZeros(buf: array<char>, cp0: nat, precision0: int, ghost digits: string) returns (cp: nat)
    requires buf.Length == BUF_SIZE && cp0 <= 44 && buf[..cp0] == digits
    modifies buf
    ensures cp <= BUF_SIZE - 1
    ensures var p := if precision0 < 0 then 1 else if precision0 < BUF_SIZE - 1 then precision0 else BUF_SIZE - 1;
            buf[..cp] == digits + Repeat('0', p - |digits|)
  {
    var precision := if precision0 < 0 then 1 else precision0;
    cp := cp0;
    while cp < precision && cp < BUF_SIZE - 1
      invariant cp0 <= cp <= BUF_SIZE - 1 && (cp == cp0 || cp <= precision)
      invariant buf[..cp] == digits + Repeat('0', cp - cp0)
    {
      buf[cp] := '0';
      cp := cp + 1;
      assert buf[..cp] == digits + Repeat('0', cp - 1 - cp0) + ['0'];
    }
  }

  // ------------------------------------------------------------ parsing

  datatype Length = CharLen | ShortLen | IntLen | IntmaxLen | LongLen | LongLongLen | PtrdiffLen | SizeLen

  predicate IsDigit(ch: char) {
    '0' <= ch <= '9'
  }

  predicate IsFlag(ch: char) {
    ch == '-' || ch == '+' || ch == ' ' || ch == '#' || ch == '0' || ch == '\''
  }

  /** The flags given by a run of flag characters. */
  function FlagsIn(s: string): Flags {
    Flags('-' in s, '+' in s, ' ' in s, '#' in s, '0' in s, '\'' in s)
  }

  /** Which flags remain after the width and precision are known; a negative width
      given as an argument adds `-` after `-` has turned off `0`. */
  function Settled(f: Flags, negativeWidth: bool, precise: bool): Flags {
    Flags(f.minus || negativeWidth, f.plus, f.space && !f.plus, f.pound, f.zero && !f.minus && !precise, f.group)
  }

  function CharAt(s: string, i: nat): char {
    if i < |s| then s[i] else '\0'
  }

  /** A width or precision as written: digits, or `*` for an argument. */
  datatype Field = Digits(digits: string) | Star

  /** What stands between `%` and the conversion letter. */
  datatype Spec = Spec(flags: string, width: Field, dot: bool, precision: Field, length: string)

  function FieldText(f: Field): string {
    if f.Star? then "*" else f.digits
  }

  function TextOf(s: Spec): string {
    s.flags + FieldText(s.width) + (if s.dot then "." + FieldText(s.precision) else "") + s.length
  }

  function FieldValue(f: Field, arg: int): int {
    if f.Star? then arg else NumberOf(f.digits)
  }

  ghost predicate FieldOk(f: Field) {
    f.Digits? ==> forall ch :: ch in f.digits ==> IsDigit(ch)
  }

  /** A well-formed specification. */
  ghost predicate IsSpec(s: Spec) {
    && (forall ch :: ch in s.flags ==> IsFlag(ch)) && FieldOk(s.width) && FieldOk(s.precision)
    && s.length in ["", "h", "hh", "j", "l", "ll", "t", "z"]
  }

  function LengthOf(s: string): Length {
    if s == "hh" then CharLen else if s == "h" then ShortLen else if s == "j" then IntmaxLen
    else if s == "l" then LongLen else if s == "ll" then LongLongLen else if s == "t" then PtrdiffLen
    else if s == "z" then SizeLen else IntLen
  }

  /** What the specification means; the width's `*` takes its argument before the precision's. */
  function Meaning(s: Spec, args: seq<int>): Conversion
    requires |args| >= 2
  {
    var w := FieldValue(s.width, args[0]);
    var p := if s.dot then FieldValue(s.precision, if s.width.Star? then args[1] else args[0]) else -1;
    Conversion(Settled(FlagsIn(s.flags), w < 0, p >= 0), if w < 0 then -w else w, if p < 0 then -1 else p)
  }

  predicate IsLengthChar(ch: char) {
    ch == 'h' || ch == 'j' || ch == 'l' || ch == 't' || ch == 'z'
  }

  function FromPrecision(s: Spec, rest: string): string {
    s.length + rest
  }

  function FromDot(s: Spec, rest: string): string {
    (if s.dot then "." + FieldText(s.precision) else "") + FromPrecision(s, rest)
  }

  function FromWidth(s: Spec, rest: string): string {
    FieldText(s.width) + FromDot(s, rest)
  }

  /** Each part was read as far as it goes; `rest` is what follows. */
  ghost predicate Greedy(s: Spec, rest: string) {
    && !IsFlag(CharAt(FromWidth(s, rest), 0))
    && (s.width == Digits("") ==> CharAt(FromDot(s, rest), 0) != '*')
    && (s.width.Digits? ==> !IsDigit(CharAt(FromDot(s, rest), 0)))
    && (!s.dot ==> CharAt(FromPrecision(s, rest), 0) != '.')
    && (s.dot && s.precision == Digits("") ==> CharAt(FromPrecision(s, rest), 0) != '*')
    && (s.dot && s.precision.Digits? ==> !IsDigit(CharAt(FromPrecision(s, rest), 0)))
    && (s.length == "" ==> !IsLengthChar(CharAt(rest, 0)))
    && (s.length == "h" ==> CharAt(rest, 0) != 'h')
    && (s.length == "l" ==> CharAt(rest, 0) != 'l')
  }

  /** Parses what stands between `%` and the conversion letter; `args` are the arguments for `*`. */
  method ParseConversion(format: string, i0: nat, args: seq<int>)
    returns (c: Conversion, length: Length, i: nat, ghost spec: Spec)
    requires i0 <= |format| && |args| >= 2
    ensures i0 <= i <= |format| && format[i0..i] == TextOf(spec)
    ensures IsSpec(spec) && Greedy(spec, format[i..])
    ensures c == Meaning(spec, args) && length == LengthOf(spec.length)
  {
    hide NumberOf, FlagsIn, IsFlag, IsDigit, TextOf, LengthOf, IsLengthChar, Greedy, FieldText, FieldValue;
    var f: Flags;
    f, i := ParseFlags(format, i0);
    ghost var i1, raw := i, format[i0..i];
    if f.minus {
      f := f.(zero := false);
    }
    if f.plus {
      f := f.(space := false);
    }
    ghost var width, precise;
    var w, star;
    w, star, i, width := ParseWidth(format, i, args[0]);
    ghost var i2 := i;
    if w < 0 {
      w := -w;
      f := f.(minus := true);
    }
    var precision := -1;
    ghost var dot := CharAt(format, i) == '.';
    precise := Digits("");
    if CharAt(format, i) == '.' {
      i := i + 1;
      var starred;
      precision, starred, i, precise := ParseWidth(format, i, if star then args[1] else args[0]);
      if precision < 0 {
        precision := -1;
      }
    }
    if precision >= 0 {
      f := f.(zero := false);
    }
    ghost var i3 := i;
    length, i := ParseLength(format, i);
    c := Conversion(f, w, precision);
    spec := Spec(raw, width, dot, precise, format[i3..i]);
    ReadAll(format, i0, i1, i2, i3, i, spec);
  }

  /** Reading the parts one after the other is reading the whole. */
  lemma ReadAll(format: string, i0: nat, i1: nat, i2: nat, i3: nat, i: nat, s: Spec)
    requires i0 <= i1 <= i2 <= i3 <= i <= |format|
    requires s.flags == format[i0..i1] && FieldText(s.width) == format[i1..i2] && s.length == format[i3..i]
    requires s.dot == (CharAt(format, i2) == '.')
    requires if s.dot then i2 < i3 && FieldText(s.precision) == format[i2 + 1..i3] else i2 == i3
    requires !IsFlag(CharAt(format, i1))
    requires s.width == Digits("") ==> CharAt(format, i2) != '*'
    requires s.width.Digits? ==> !IsDigit(CharAt(format, i2))
    requires s.dot && s.precision == Digits("") ==> CharAt(format, i3) != '*'
    requires s.dot && s.precision.Digits? ==> !IsDigit(CharAt(format, i3))
    requires s.length == "" ==> !IsLengthChar(CharAt(format, i))
    requires s.length == "h" ==> CharAt(format, i) != 'h'
    requires s.length == "l" ==> CharAt(format, i) != 'l'
    ensures format[i0..i] == TextOf(s) && Greedy(s, format[i..])
  {
    hide IsFlag, IsDigit, IsLengthChar, TextOf, FieldText, CharAt, FromPrecision, FromDot, FromWidth;
    DotPiece(format, i2, i3, s);
    Pieces(format, i0, i1, i2, i3, i, s);
    NextChars(format, i1, i2, i3, i);
  }

  /** A field width or precision: an argument, or digits. */
  method ParseWidth(format: string, i0: nat, arg: int) returns (v: int, star: bool, i: nat, ghost field: Field)
    requires i0 <= |format|
    ensures i0 <= i <= |format| && format[i0..i] == FieldText(field) && FieldOk(field)
    ensures v == FieldValue(field, arg) && star == field.Star?
    ensures field == Digits("") ==> CharAt(format, i) != '*'
    ensures field.Digits? ==> !IsDigit(CharAt(format, i))
  {
    star := CharAt(format, i0) == '*';
    if star {
      i := i0 + 1;
      v, field := arg, Star;
    } else {
      v, i := ParseNumber(format, i0);
      field := Digits(format[i0..i]);
    }
  }

  lemma NextChars(format: string, i1: nat, i2: nat, i3: nat, i: nat)
    requires i1 <= i2 <= i3 <= i <= |format|
    ensures CharAt(format[i1..], 0) == CharAt(format, i1) && CharAt(format[i2..], 0) == CharAt(format, i2)
    ensures CharAt(format[i3..], 0) == CharAt(format, i3) && CharAt(format[i..], 0) == CharAt(format, i)
  {
  }

  lemma DotPiece(format: string, i2: nat, i3: nat, s: Spec)
    requires i2 <= i3 <= |format| && s.dot == (CharAt(format, i2) == '.')
    requires if s.dot then i2 < i3 && FieldText(s.precision) == format[i2 + 1..i3] else i2 == i3
    ensures (if s.dot then "." + FieldText(s.precision) else "") == format[i2..i3]
  {
    assert s.dot ==> format[i2..i3] == "." + format[i2 + 1..i3];
  }

  lemma Slices(f: string, a: nat, b: nat, c: nat)
    requires a <= b <= c <= |f|
    ensures f[a..b] + f[b..c] == f[a..c] && f[b..c] + f[c..] == f[b..]
  {
  }

  /** The pieces make up the whole. */
  lemma Pieces(format: string, i0: nat, i1: nat, i2: nat, i3: nat, i: nat, s: Spec)
    requires i0 <= i1 <= i2 <= i3 <= i <= |format|
    requires s.flags == format[i0..i1] && FieldText(s.width) == format[i1..i2] && s.length == format[i3..i]
    requires (if s.dot then "." + FieldText(s.precision) else "") == format[i2..i3]
    ensures format[i0..i] == TextOf(s)
    ensures FromPrecision(s, format[i..]) == format[i3..]
    ensures FromDot(s, format[i..]) == format[i2..]
    ensures FromWidth(s, format[i..]) == format[i1..]
  {
    hide FieldText;
    Slices(format, i0, i1, i2);
    Slices(format, i0, i2, i3);
    Slices(format, i0, i3, i);
  }

  /** The flags as they are after parsing, by what was written: `-` and a precision turn `0` off, `+` turns the
      space off, and a negative argument for the width counts as `-` but does not turn `0` off. */
  lemma FlagsMean(s: Spec, args: seq<int>)
    requires IsSpec(s) && |args| >= 2
    ensures var c := Meaning(s, args); var negative := s.width.Star? && args[0] < 0;
            && (c.flags.minus <==> '-' in s.flags || negative)
            && (c.flags.zero <==> '0' in s.flags && '-' !in s.flags && c.precision < 0)
            && (c.flags.plus <==> '+' in s.flags) && (c.flags.space <==> ' ' in s.flags && '+' !in s.flags)
            && (c.flags.pound <==> '#' in s.flags) && (c.flags.group <==> '\'' in s.flags)
            && (c.flags.minus && c.flags.zero <==> negative && '0' in s.flags && '-' !in s.flags && c.precision < 0)
            && c.width == (if negative then -args[0] else FieldValue(s.width, args[0]))
  {
  }

  method ParseFlags(format: string, i0: nat) returns (f: Flags, i: nat)
    requires i0 <= |format|
    ensures i0 <= i <= |format| && !IsFlag(CharAt(format, i))
    ensures (forall ch :: ch in format[i0..i] ==> IsFlag(ch)) && f == FlagsIn(format[i0..i])
  {
    i := i0;
    f := Flags(false, false, false, false, false, false);
    while IsFlag(CharAt(format, i))
      invariant i0 <= i <= |format| && (forall ch :: ch in format[i0..i] ==> IsFlag(ch)) && f == FlagsIn(format[i0..i])
      decreases |format| - i
    {
      assert format[i0..i + 1] == format[i0..i] + [format[i]];
      match format[i] {
        case '-' => f := f.(minus := true);
        case '+' => f := f.(plus := true);
        case ' ' => f := f.(space := true);
        case '#' => f := f.(pound := true);
        case '0' => f := f.(zero := true);
        case _ => f := f.(group := true);
      }
      i := i + 1;
    }
  }

  method ParseNumber(format: string, i0: nat) returns (n: nat, i: nat)
    requires i0 <= |format|
    ensures i0 <= i <= |format| && !IsDigit(CharAt(format, i)) && n == NumberOf(format[i0..i])
    ensures forall k :: i0 <= k < i ==> IsDigit(format[k])
  {
    n, i := 0, i0;
    while IsDigit(CharAt(format, i))
      invariant i0 <= i <= |format| && n == NumberOf(format[i0..i]) && forall k :: i0 <= k < i ==> IsDigit(format[k])
      decreases |format| - i
    {
      n := n * 10 + DigitValue(format[i]);
      assert format[i0..i + 1] == format[i0..i] + [format[i]];
      i := i + 1;
    }
  }

  method ParseLength(format: string, i0: nat) returns (length: Length, i: nat)
    requires i0 <= |format|
    ensures i0 <= i <= |format| && format[i0..i] in ["", "h", "hh", "j", "l", "ll", "t", "z"]
    ensures length == LengthOf(format[i0..i])
    ensures format[i0..i] == "" ==> !IsLengthChar(CharAt(format, i))
    ensures format[i0..i] == "h" ==> CharAt(format, i) != 'h'
    ensures format[i0..i] == "l" ==> CharAt(format, i) != 'l'
  {
    i := i0 + 1;
    match CharAt(format, i0) {
      case 'h' =>
        length := ShortLen;
        if CharAt(format, i) == 'h' {
          i := i + 1;
          length := CharLen;
        }
      case 'j' => length := IntmaxLen;
      case 'l' =>
        length := LongLen;
        if CharAt(format, i) == 'l' {
          i := i + 1;
          length := LongLongLen;
        }
      case 't' => length := PtrdiffLen;
      case 'z' => length := SizeLen;
      case _ =>
        length := IntLen;
        i := i - 1;
    }
    assert format[i0..i] == if i == i0 then "" else if i == i0 + 1 then [format[i0]] else [format[i0], format[i0 + 1]];
  }

  // ----------------------------------------------------------------- atoi

  predicate IsSpace(ch: char) {
    ch == ' ' || ch == '\U{0C}' || ch == '\n' || ch == '\r' || ch == '\t' || ch == '\U{0B}'
  }

  function DigitValue(ch: char): nat {
    if IsDigit(ch) then ch as nat - '0' as nat else 0
  }

  /** The number a string of digits denotes. */
  function NumberOf(s: string): nat {
    if s == "" then 0 else 10 * NumberOf(s[..|s| - 1]) + DigitValue(s[|s| - 1])
  }

  function Spaces(s: string): (n: nat)
    ensures n <= |s|
  {
    if s != "" && IsSpace(s[0]) then 1 + Spaces(s[1..]) else 0
  }

  function DigitRun(s: string): (n: nat)
    ensures n <= |s|
  {
    if s != "" && IsDigit(s[0]) then 1 + DigitRun(s[1..]) else 0
  }

  function Unsigned(t: string): string {
    if t != "" && (t[0] == '+' || t[0] == '-') then t[1..] else t
  }

  /** The number at the start of a string, behind spaces and a sign. */
  function ParseInt(s: string): int {
    var t := s[Spaces(s)..];
    var u := Unsigned(t);
    var n := NumberOf(u[..DigitRun(u)]);
    if t != "" && t[0] == '-' then -(n as int) else n
  }

  /** Digits are taken off a negative value, so that the least `int` can be read. */
  method Atoi(s: string) returns (value: int32)
    requires -0x8000_0000 <= ParseInt(s) < 0x8000_0000
    ensures value == ParseInt(s)
  {
    hide NumberOf, Spaces, DigitRun;
    var i := SkipSpaces(s);
    ghost var t := s[i..];
    var negative := false;
    if CharAt(s, i) == '+' {
      i := i + 1;
    } else if CharAt(s, i) == '-' {
      negative := true;
      i := i + 1;
    }
    ghost var u := s[i..];
    assert u == Unsigned(t);
    var v := NegatedDigits(s, i);
    if !negative {
      v := -v;
    }
    value := v;
  }

  method SkipSpaces(s: string) returns (i: nat)
    ensures i == Spaces(s)
  {
    i := 0;
    while IsSpace(CharAt(s, i))
      invariant 0 <= i <= |s| && Spaces(s) == i + Spaces(s[i..])
      decreases |s| - i
    {
      assert s[i..][1..] == s[i + 1..] && s[i..][0] == s[i];
      i := i + 1;
    }
    assert s[i..] != "" ==> s[i..][0] == CharAt(s, i);
  }

  method NegatedDigits(s: string, i0: nat) returns (v: int)
    requires i0 <= |s|
    ensures var u := s[i0..]; v == -(NumberOf(u[..DigitRun(u)]) as int)
  {
    ghost var u := s[i0..];
    var k := 0;
    v := 0;
    while IsDigit(CharAt(s, i0 + k))
      invariant 0 <= k <= |u| && DigitRun(u) == k + DigitRun(u[k..]) && v == -(NumberOf(u[..k]) as int)
      decreases |u| - k
    {
      assert u[k..][1..] == u[k + 1..] && u[k..][0] == u[k] == s[i0 + k];
      assert u[..k + 1][..k] == u[..k];
      v := v * 10 - DigitValue(s[i0 + k]);
      k := k + 1;
    }
    assert u[k..] != "" ==> u[k..][0] == CharAt(s, i0 + k);
  }

  // ------------------------------------------------------------ round trip

  ghost predicate All(s: string, p: char -> bool) {
    forall i :: 0 <= i < |s| ==> p(s[i])
  }

  lemma {:induction false} ReverseJoin(a: string, b: string)
    ensures Reverse(a + b) == Reverse(b) + Reverse(a)
  {
    if a == "" {
      assert a + b == b;
    } else {
      ReverseJoin(a[1..], b);
      assert (a + b)[1..] == a[1..] + b;
    }
  }

  lemma {:induction false} ReverseAll(s: string, ch: char)
    requires All(s, c => c == ch)
    ensures All(Reverse(s), c => c == ch)
  {
    if s != "" {
      ReverseAll(s[1..], ch);
    }
  }

  lemma {:induction false} LeadingZeros(z: string, s: string)
    requires All(z, c => c == '0')
    ensures NumberOf(z + s) == NumberOf(s)
    decreases |s|, |z|
  {
    if s != "" {
      LeadingZeros(z, s[..|s| - 1]);
      assert (z + s)[..|z + s| - 1] == z + s[..|s| - 1];
    } else if z != "" {
      assert z + s == z;
      LeadingZeros(z[..|z| - 1], "");
      assert z[..|z| - 1] + "" == z[..|z| - 1];
    }
  }

  /** Decimal digits, put in order, denote the value they came from. */
  lemma {:induction false} DigitsDenote(v: nat, count: nat)
    ensures NumberOf(Reverse(DigitsFrom(v, BASE_D, false, count))) == v
    ensures All(Reverse(DigitsFrom(v, BASE_D, false, count)), IsDigit)
    decreases v
  {
    if v > 0 {
      DigitsDenote(v / 10, count + 1);
      var d := BASE_D.digits[v % 10];
      var rest := DigitsFrom(v / 10, BASE_D, false, count + 1);
      assert DigitsFrom(v, BASE_D, false, count) == [d] + rest;
      assert ([d] + rest)[1..] == rest;
      assert Reverse([d] + rest) == Reverse(rest) + [d];
      assert (Reverse(rest) + [d])[..|rest|] == Reverse(rest);
      DecimalDigit(v % 10);
    }
  }

  lemma DecimalDigit(n: nat)
    requires n < 10
    ensures IsDigit(BASE_D.digits[n]) && DigitValue(BASE_D.digits[n]) == n
  {
  }

  lemma {:induction false} SpacesJoin(l: string, x: string)
    requires All(l, IsSpace)
    ensures Spaces(l + x) == |l| + Spaces(x)
  {
    if l == "" {
      assert l + x == x;
    } else {
      SpacesJoin(l[1..], x);
      assert (l + x)[1..] == l[1..] + x;
    }
  }

  lemma {:induction false} DigitRunJoin(d: string, m: string)
    requires All(d, IsDigit) && (m == "" || !IsDigit(m[0]))
    ensures DigitRun(d + m) == |d|
  {
    if d == "" {
      assert d + m == m;
    } else {
      DigitRunJoin(d[1..], m);
      assert (d + m)[1..] == d[1..] + m;
    }
  }

  /** Spaces, a sign, digits and more spaces read as the number they show. */
  lemma ParseShape(l: string, sign: string, d: string, m: string)
    requires All(l, IsSpace) && All(d, IsDigit) && All(m, IsSpace) && (sign == "" || sign == " " || sign == "-" || sign == "+")
    ensures ParseInt(l + (sign + (d + m))) == if sign == "-" then -(NumberOf(d) as int) else NumberOf(d)
  {
    hide NumberOf, DigitRun;
    assert m != "" ==> IsSpace(m[0]) && !IsDigit(m[0]);
    DigitRunJoin(d, m);
    SpacesJoin(l, sign + (d + m));
    if sign == "-" || sign == "+" {
      SignedShape(l, sign, d, m);
    } else {
      BareShape(l, sign, d, m);
    }
  }

  lemma SignedShape(l: string, sign: string, d: string, m: string)
    requires (sign == "-" || sign == "+") && DigitRun(d + m) == |d|
    requires Spaces(l + (sign + (d + m))) == |l| + Spaces(sign + (d + m))
    ensures ParseInt(l + (sign + (d + m))) == if sign == "-" then -(NumberOf(d) as int) else NumberOf(d)
  {
    hide NumberOf, DigitRun;
    var x := sign + (d + m);
    assert (l + x)[|l|..] == x && x[0] == sign[0] && x[1..] == d + m && (d + m)[..|d|] == d;
    assert !IsSpace(x[0]);
  }

  lemma BareShape(l: string, sign: string, d: string, m: string)
    requires (sign == "" || sign == " ") && DigitRun(d + m) == |d| && All(d, IsDigit) && All(m, IsSpace)
    requires Spaces(l + (sign + (d + m))) == |l| + Spaces(sign + (d + m))
    ensures ParseInt(l + (sign + (d + m))) == NumberOf(d)
  {
    hide NumberOf, DigitRun;
    var s := l + (sign + (d + m));
    SpacesJoin(sign, d + m);
    var t := s[Spaces(s)..];
    if d != "" {
      assert IsDigit((d + m)[0]) && !IsSpace((d + m)[0]);
      assert t == d + m && (d + m)[..|d|] == d;
    } else {
      assert d + m == m == m + "";
      SpacesJoin(m, "");
      assert t == "";
      EmptyRun(d);
    }
  }

  lemma EmptyRun(d: string)
    requires d == ""
    ensures DigitRun(d) == 0 && ""[..0] == d
  {
  }

  /** What is put out for a value: zeros, and then its digits. */
  lemma BodyParts(value: nat, c: Conversion) returns (f: string, g: string)
    requires !c.flags.group
    ensures Reverse(Body(value, BASE_D, c)) == f + g && All(f, ch => ch == '0') && All(g, IsDigit) && NumberOf(g) == value
  {
    var digits := DigitsFrom(value, BASE_D, false, 0);
    var body := Body(value, BASE_D, c);
    var fill := body[|digits|..];
    assert body == digits + fill;
    assert All(fill, ch => ch == '0');
    hide Body, DigitsFrom, NumberOf;
    ReverseJoin(digits, fill);
    ReverseAll(fill, '0');
    DigitsDenote(value, 0);
    f, g := Reverse(fill), Reverse(digits);
  }

  /** What `%d` prints, `atoi` reads back, whatever the flags (but for grouping), width and precision. */
  lemma RoundTrip(v: int32, c: Conversion)
    requires !c.flags.group
    ensures ParseInt(Rendered(if v < 0 then -(v as int) else v, true, v < 0, BASE_D, c)) == v
  {
    var value: nat := if v < 0 then -(v as int) else v;
    var f, g := BodyParts(value, c);
    var sign, body := SignOf(true, v < 0, c.flags), Body(value, BASE_D, c);
    SignIs(v < 0, c.flags);
    hide Body, ParseInt, NumberOf, SignOf, Padded, Reverse;
    assert Rendered(value, true, v < 0, BASE_D, c) == Padded(sign, "", body, c);
    hide Rendered;
    PaddedReads(sign, body, c, f, g);
  }

  lemma PaddedReads(sign: string, body: string, c: Conversion, f: string, g: string)
    requires sign == "" || sign == " " || sign == "-" || sign == "+"
    requires Reverse(body) == f + g && All(f, ch => ch == '0') && All(g, IsDigit)
    ensures ParseInt(Padded(sign, "", body, c)) == if sign == "-" then -(NumberOf(g) as int) else NumberOf(g)
  {
    hide ParseInt, NumberOf, Reverse;
    var pad := c.width - |body| - |sign|;
    var l := if c.flags.minus || c.flags.zero then "" else Repeat(' ', pad);
    var z := if c.flags.zero then Repeat('0', pad) else "";
    var m := if c.flags.minus then Repeat(' ', pad) else "";
    Assembled(l, sign, z, f, g, m);
    LeadingZeros(z + f, g);
    ParseShape(l, sign, (z + f) + g, m);
  }

  lemma SignIs(negative: bool, f: Flags)
    ensures var s := SignOf(true, negative, f); (s == "" || s == " " || s == "-" || s == "+") && (s == "-" <==> negative)
  {
  }

  lemma Assembled(l: string, sign: string, z: string, f: string, g: string, m: string)
    ensures l + sign + "" + z + (f + g) + m == l + (sign + ((z + f + g) + m))
  {
  }

  // ------------------------------------------------------- every base

  /** The value of a digit character, capital or not. */
  function CharValue(ch: char): nat {
    if '0' <= ch <= '9' then ch as nat - '0' as nat
    else if 'a' <= ch <= 'f' then 10 + (ch as nat - 'a' as nat)
    else if 'A' <= ch <= 'F' then 10 + (ch as nat - 'A' as nat)
    else 0
  }

  /** The number that a string of digits denotes in a base. */
  function ValueIn(base: nat, s: string): nat {
    if s == "" then 0 else ValueIn(base, s[..|s| - 1]) * base + CharValue(s[|s| - 1])
  }

  predicate IsDigitIn(b: Base, ch: char) {
    IsDigit(ch) || (b == BASE_X && 'a' <= ch <= 'f') || (b == BASE_UPPER_X && 'A' <= ch <= 'F')
  }

  lemma DigitMeans(b: Base, n: nat)
    requires IsBase(b) && n < b.base
    ensures CharValue(b.digits[n]) == n && IsDigitIn(b, b.digits[n]) && b.digits[n] != ','
  {
    if n >= 10 {
      assert n == 10 || n == 11 || n == 12 || n == 13 || n == 14 || n == 15;
    } else {
      assert n == 0 || n == 1 || n == 2 || n == 3 || n == 4 || n == 5 || n == 6 || n == 7 || n == 8 || n == 9;
    }
  }

  /** In every base the digits denote the value, by what the characters stand for. */
  lemma {:induction false} DigitsDenoteIn(v: nat, b: Base, count: nat)
    requires IsBase(b)
    ensures ValueIn(b.base, Reverse(DigitsFrom(v, b, false, count))) == v
    ensures All(Reverse(DigitsFrom(v, b, false, count)), ch => IsDigitIn(b, ch))
    decreases v
  {
    hide DigitsFrom, Reverse, ValueIn, IsDigitIn, IsBase;
    DigitsAre(v, b, false, count);
    if v > 0 {
      DigitsDenoteIn(v / b.base, b, count + 1);
      DenoteStep(v, b, DigitsFrom(v / b.base, b, false, count + 1));
    } else {
      NoValue(b.base);
    }
  }

  lemma NoValue(base: nat)
    ensures Reverse("") == "" && ValueIn(base, "") == 0
  {
  }

  lemma DenoteStep(v: nat, b: Base, rest: string)
    requires IsBase(b) && ValueIn(b.base, Reverse(rest)) == v / b.base && All(Reverse(rest), ch => IsDigitIn(b, ch))
    ensures var s := "" + [b.digits[v % b.base]] + rest;
            ValueIn(b.base, Reverse(s)) == v && All(Reverse(s), ch => IsDigitIn(b, ch))
  {
    var d := b.digits[v % b.base];
    DigitMeans(b, v % b.base);
    Recombined(v, b);
    assert "" + [d] + rest == [d] + rest;
    hide Reverse, ValueIn, IsDigitIn, CharValue, IsBase;
    LastDigit(d, rest, b.base);
  }

  lemma Recombined(v: nat, b: Base)
    requires IsBase(b)
    ensures v / b.base * b.base + v % b.base == v
  {
  }

  lemma LastDigit(d: char, rest: string, base: nat)
    ensures Reverse([d] + rest) == Reverse(rest) + [d]
    ensures ValueIn(base, Reverse(rest) + [d]) == ValueIn(base, Reverse(rest)) * base + CharValue(d)
  {
    assert ([d] + rest)[1..] == rest;
    var r := Reverse(rest);
    assert (r + [d])[..|r|] == r;
  }

  function DigitCount(s: string): (n: nat)
    ensures n <= |s|
  {
    if s == "" then 0 else (if s[0] == ',' then 0 else 1) + DigitCount(s[1..])
  }

  function WithoutCommas(s: string): string {
    if s == "" then "" else (if s[0] == ',' then "" else [s[0]]) + WithoutCommas(s[1..])
  }

  /** Grouping only adds commas. */
  lemma {:induction false} GroupedDigits(v: nat, b: Base, count: nat)
    requires IsBase(b)
    ensures WithoutCommas(DigitsFrom(v, b, true, count)) == DigitsFrom(v, b, false, count)
    decreases v
  {
    if v > 0 {
      GroupedDigits(v / b.base, b, count + 1);
      DigitMeans(b, v % b.base);
      var d := b.digits[v % b.base];
      var rest := DigitsFrom(v / b.base, b, true, count + 1);
      assert ([d] + rest)[1..] == rest;
      var comma := Comma(b, true, count);
      assert DigitsFrom(v, b, true, count) == comma + [d] + rest;
      assert comma == "," ==> ("," + [d] + rest)[1..] == [d] + rest;
      assert comma == "" ==> comma + [d] + rest == [d] + rest;
    }
  }

  /** A comma stands, counting from the last digit, exactly behind each full group that more digits follow. */
  lemma {:induction false} CommasStand(v: nat, b: Base, count: nat, i: nat)
    requires IsBase(b) && i < |DigitsFrom(v, b, true, count)|
    ensures var s := DigitsFrom(v, b, true, count);
            var n := count + DigitCount(s[..i]);
            s[i] == ',' <==> n > 0 && n % b.group == 0 && (i == 0 || s[i - 1] != ',')
    decreases v
  {
    hide DigitsFrom, DigitCount, Comma, IsBase;
    DigitsAre(v, b, true, count);
    DigitMeans(b, v % b.base);
    var rest, comma := DigitsFrom(v / b.base, b, true, count + 1), Comma(b, true, count);
    if i > |comma| {
      CommasStand(v / b.base, b, count + 1, i - |comma| - 1);
    }
    CommaNear(comma, b.digits[v % b.base], rest, count, b.group, i);
  }

  lemma DigitsAre(v: nat, b: Base, grouped: bool, count: nat)
    requires IsBase(b)
    ensures b.base > 1 && b.group > 0 && v % b.base < |b.digits|
    ensures DigitsFrom(v, b, grouped, count)
            == if v == 0 then "" else Comma(b, grouped, count) + [b.digits[v % b.base]] + DigitsFrom(v / b.base, b, grouped, count + 1)
    ensures Comma(b, grouped, count) == if grouped && count > 0 && count % b.group == 0 then "," else ""
    ensures v > 0 ==> v / b.base < v
  {
  }

  /** The same for a digit, perhaps behind a comma, in front of what is known to be right. */
  lemma CommaNear(comma: string, d: char, rest: string, count: nat, group: nat, i: nat)
    requires d != ',' && group > 0 && comma == (if count > 0 && count % group == 0 then "," else "")
    requires i < |comma + [d] + rest|
    requires i > |comma| ==>
      var j := i - |comma| - 1; var n := count + 1 + DigitCount(rest[..j]);
      rest[j] == ',' <==> n > 0 && n % group == 0 && (j == 0 || rest[j - 1] != ',')
    ensures var s := comma + [d] + rest;
            var n := count + DigitCount(s[..i]);
            s[i] == ',' <==> n > 0 && n % group == 0 && (i == 0 || s[i - 1] != ',')
  {
    var s := comma + [d] + rest;
    var k := |comma| + 1;
    if i >= k {
      CountBehind(comma, d, rest, i - k);
      assert s[..i] == comma + [d] + rest[..i - k];
      assert s[i] == rest[i - k] && s[i - 1] == if i > k then rest[i - k - 1] else d;
    } else {
      assert s[..i] == comma[..i];
      assert comma[..i] == "" || comma[..i] == ",";
      assert DigitCount(",") == 0;
    }
  }

  lemma CountBehind(comma: string, d: char, rest: string, j: nat)
    requires (comma == "" || comma == ",") && d != ',' && j <= |rest|
    ensures DigitCount(comma + [d] + rest[..j]) == 1 + DigitCount(rest[..j])
  {
    var t := [d] + rest[..j];
    assert t[1..] == rest[..j];
    assert comma == "," ==> ("," + t)[1..] == t;
    assert comma + [d] + rest[..j] == comma + t;
    assert "" + t == t;
  }

  // ------------------------------------------------------ sign and sides

  /** The text without padding. */
  function Unpadded(value: nat, isSigned: bool, negative: bool, b: Base, c: Conversion): string
    requires IsBase(b)
  {
    Rendered(value, isSigned, negative, b, c.(width := 0))
  }

  /** How the text begins: with a sign for a signed conversion of a negative value, or
      if the flags ask for one; then, for hexadecimal with `#`, with the prefix unless the value is 0. */
  lemma HeadMeans(value: nat, isSigned: bool, negative: bool, b: Base, c: Conversion)
    requires IsBase(b)
    ensures var t := Unpadded(value, isSigned, negative, b, c);
            && (CharAt(t, 0) == '-' <==> isSigned && negative)
            && (CharAt(t, 0) == '+' <==> isSigned && !negative && c.flags.plus)
            && (CharAt(t, 0) == ' ' <==> isSigned && !negative && !c.flags.plus && c.flags.space)
    ensures var t := Unpadded(value, isSigned, negative, b, c);
            var signed := CharAt(t, 0) == '-' || CharAt(t, 0) == '+' || CharAt(t, 0) == ' ';
            var x := CharAt(t, if signed then 2 else 1);
            && (x == 'x' <==> b == BASE_X && c.flags.pound && value != 0)
            && (x == 'X' <==> b == BASE_UPPER_X && c.flags.pound && value != 0)
  {
    var sign, prefix, body := SignOf(isSigned, negative, c.flags), PrefixOf(value, b, c.flags), Body(value, b, c);
    BodyIsDigits(value, b, c);
    UnpaddedIs(sign, prefix, body, c);
    RenderedIs(value, isSigned, negative, b, c);
    HeadFlags(value, isSigned, negative, b, c.flags);
    hide *;
    HeadOf(sign, prefix, Reverse(body));
  }

  lemma HeadFlags(value: nat, isSigned: bool, negative: bool, b: Base, f: Flags)
    requires IsBase(b)
    ensures var sign := SignOf(isSigned, negative, f);
            && (sign == "-" <==> isSigned && negative) && (sign == "+" <==> isSigned && !negative && f.plus)
            && (sign == " " <==> isSigned && !negative && !f.plus && f.space)
            && (sign == "" || sign == "-" || sign == "+" || sign == " ")
    ensures var prefix := PrefixOf(value, b, f);
            && (prefix == "0x" <==> b == BASE_X && f.pound && value != 0)
            && (prefix == "0X" <==> b == BASE_UPPER_X && f.pound && value != 0)
            && (prefix == "" || prefix == "0x" || prefix == "0X")
  {
    assert "0" + "x" == "0x" && "0" + "X" == "0X" && "0x" != "0X";
    assert b.x == "" || b.x == "x" || b.x == "X";
  }

  lemma UnpaddedIs(sign: string, prefix: string, body: string, c: Conversion)
    ensures Padded(sign, prefix, body, c.(width := 0)) == sign + prefix + Reverse(body)
  {
    var pad := 0 - |body| - |prefix| - |sign|;
    assert Repeat(' ', pad) == "" && Repeat('0', pad) == "";
    assert "" + sign + prefix + "" + Reverse(body) + "" == sign + prefix + Reverse(body);
  }

  lemma HeadOf(sign: string, prefix: string, r: string)
    requires sign == "" || sign == "-" || sign == "+" || sign == " "
    requires prefix == "" || prefix == "0x" || prefix == "0X"
    requires Plain(r)
    ensures var t := sign + prefix + r;
            && (CharAt(t, 0) == '-' <==> sign == "-") && (CharAt(t, 0) == '+' <==> sign == "+") && (CharAt(t, 0) == ' ' <==> sign == " ")
            && var x := CharAt(t, if sign == "" then 1 else 2);
            (x == 'x' <==> prefix == "0x") && (x == 'X' <==> prefix == "0X")
  {
    var t := sign + prefix + r;
    var k := if sign == "" then 1 else 2;
    if prefix == "" {
      assert k < |t| ==> t[k] == r[k - |sign|];
      assert sign == "" && 0 < |t| ==> t[0] == r[0];
    } else {
      assert t[k] == prefix[1] && t[|sign|] == prefix[0] == '0';
    }
    assert sign != "" ==> t[0] == sign[0];
  }

  /** Digits and separators only, none of them a sign or a prefix letter. */
  ghost predicate Plain(s: string) {
    forall i :: 0 <= i < |s| ==> s[i] == ',' || '0' <= s[i] <= '9' || 'a' <= s[i] <= 'f' || 'A' <= s[i] <= 'F'
  }

  lemma {:induction false} DigitsPlain(v: nat, b: Base, grouped: bool, count: nat)
    requires IsBase(b)
    ensures Plain(DigitsFrom(v, b, grouped, count))
    decreases v
  {
    if v > 0 {
      DigitMeans(b, v % b.base);
      DigitsPlain(v / b.base, b, grouped, count + 1);
    }
  }

  lemma {:induction false} ReversePlain(s: string)
    requires Plain(s)
    ensures Plain(Reverse(s))
  {
    if s != "" {
      ReversePlain(s[1..]);
    }
  }

  lemma BodyIsDigits(value: nat, b: Base, c: Conversion)
    requires IsBase(b)
    ensures Plain(Reverse(Body(value, b, c)))
  {
    DigitsPlain(value, b, c.flags.group, 0);
    ReversePlain(Body(value, b, c));
  }

  /** The padding up to the width: spaces behind with `-`, otherwise spaces in front, or zeros
      between the sign and prefix and the digits with `0`; both kinds when both flags are left in force. */
  lemma Justified(value: nat, isSigned: bool, negative: bool, b: Base, c: Conversion)
    requires IsBase(b)
    ensures var text, core := Rendered(value, isSigned, negative, b, c), Unpadded(value, isSigned, negative, b, c);
            var n, h := c.width - |core|, |SignOf(isSigned, negative, c.flags)| + |PrefixOf(value, b, c.flags)|;
            && h <= |core|
            && var zeroed := if c.flags.zero then core[..h] + Repeat('0', n) + core[h..] else core;
            text == if c.flags.minus then zeroed + Repeat(' ', n) else if c.flags.zero then zeroed else Repeat(' ', n) + core
  {
    var sign, prefix, body := SignOf(isSigned, negative, c.flags), PrefixOf(value, b, c.flags), Body(value, b, c);
    UnpaddedIs(sign, prefix, body, c);
    RenderedIs(value, isSigned, negative, b, c);
    hide Body, Reverse, DigitsFrom, SignOf, PrefixOf, Padded, Rendered, Unpadded, Repeat;
    PaddedIs(sign, prefix, body, c);
  }

  lemma RenderedIs(value: nat, isSigned: bool, negative: bool, b: Base, c: Conversion)
    requires IsBase(b)
    ensures var sign, prefix, body := SignOf(isSigned, negative, c.flags), PrefixOf(value, b, c.flags), Body(value, b, c);
            && Rendered(value, isSigned, negative, b, c) == Padded(sign, prefix, body, c)
            && Unpadded(value, isSigned, negative, b, c) == Padded(sign, prefix, body, c.(width := 0))
  {
    hide DigitsFrom, Padded;
  }

  lemma PaddedIs(sign: string, prefix: string, body: string, c: Conversion)
    ensures var core := sign + prefix + Reverse(body);
            var n, h := c.width - |core|, |sign| + |prefix|;
            var zeroed := if c.flags.zero then core[..h] + Repeat('0', n) + core[h..] else core;
            Padded(sign, prefix, body, c)
            == if c.flags.minus then zeroed + Repeat(' ', n) else if c.flags.zero then zeroed else Repeat(' ', n) + core
  {
    var r := Reverse(body);
    var core := sign + prefix + r;
    var n, h := c.width - |core|, |sign| + |prefix|;
    hide Reverse;
    assert core[..h] == sign + prefix && core[h..] == r;
    var l, z, m := if c.flags.minus || c.flags.zero then "" else Repeat(' ', n), if c.flags.zero then Repeat('0', n) else "",
                   if c.flags.minus then Repeat(' ', n) else "";
    assert Padded(sign, prefix, body, c) == l + sign + prefix + z + r + m;
    PadsAside(l, sign, prefix, z, r, m);
  }

  lemma PadsAside(l: string, sign: string, prefix: string, z: string, r: string, m: string)
    ensures l + sign + prefix + z + r + m == l + ((sign + prefix) + z + r) + m
    ensures z == "" ==> (sign + prefix) + z + r == sign + prefix + r
    ensures l == "" ==> l + ((sign + prefix) + z + r) + m == (sign + prefix) + z + r + m
    ensures m == "" ==> l + ((sign + prefix) + z + r) + m == l + ((sign + prefix) + z + r)
  {
  }

  /** The text of a number: its digits, filled up in front with zeros to as many as asked for;
      if it is to begin with 0 and would not, with one zero. */
  ghost predicate Shows(body: string, digits: string, asked: nat, zeroFirst: bool) {
    && body == Repeat('0', if asked > |digits| then asked - |digits| else if zeroFirst && CharAt(digits, 0) != '0' then 1 else 0) + digits
    && (zeroFirst ==> CharAt(body, 0) == '0')
  }

  /** How many digits: those of the value, or as many as the precision asks for if that is more and
      the buffer allows it; `#` makes an octal number begin with 0. */
  lemma DigitsShown(value: nat, b: Base, c: Conversion)
    requires IsBase(b)
    ensures Shows(Reverse(Body(value, b, c)), Reverse(DigitsFrom(value, b, c.flags.group, 0)),
                  if c.precision < 0 then 1 else if c.precision < 63 then c.precision else 63, c.flags.pound && b == BASE_O)
  {
    hide DigitsFrom, Reverse, Body, Repeat, Shows;
    var digits := DigitsFrom(value, b, c.flags.group, 0);
    var asked := if c.precision < 0 then 1 else if c.precision < 63 then c.precision else 63;
    var zeroFirst := c.flags.pound && b == BASE_O;
    BodyIs(value, b, c, digits, asked, zeroFirst);
    FilledUp(digits, asked);
    ZeroInFront(digits + Repeat('0', asked - |digits|));
    EmptyFront(digits + Repeat('0', asked - |digits|));
    ShownBy(Repeat('0', asked - |digits|), Reverse(digits), asked, zeroFirst);
  }

  lemma EmptyFront(s: string)
    ensures s == "" ==> CharAt(Reverse(s), 0) != '0'
  {
  }

  lemma BodyIs(value: nat, b: Base, c: Conversion, digits: string, asked: nat, zeroFirst: bool)
    requires IsBase(b) && digits == DigitsFrom(value, b, c.flags.group, 0) && (zeroFirst <==> c.flags.pound && b == BASE_O)
    requires asked == if c.precision < 0 then 1 else if c.precision < 63 then c.precision else 63
    ensures var filled := digits + Repeat('0', asked - |digits|);
            Body(value, b, c) == if zeroFirst && (filled == "" || filled[|filled| - 1] != '0') then filled + "0" else filled
  {
    hide DigitsFrom, Repeat;
  }

  lemma ShownBy(z: string, d: string, asked: nat, zeroFirst: bool)
    requires z == Repeat('0', asked - |d|)
    ensures Shows(if zeroFirst && CharAt(z + d, 0) != '0' then "0" + (z + d) else z + d, d, asked, zeroFirst)
  {
    if asked <= |d| {
      assert z + d == d;
      assert Repeat('0', 1) == Repeat('0', 0) + "0" && Repeat('0', 0) == "";
    }
  }

  lemma ZeroInFront(s: string)
    ensures Reverse(s + "0") == "0" + Reverse(s)
  {
    ReverseLast(s + "0");
    assert (s + "0")[..|s|] == s;
  }

  lemma FilledUp(digits: string, asked: nat)
    ensures var zeros := Repeat('0', asked - |digits|);
            && Reverse(digits + zeros) == zeros + Reverse(digits)
            && (digits + zeros != "" ==> CharAt(Reverse(digits + zeros), 0) == (digits + zeros)[|digits + zeros| - 1])
  {
    var zeros := Repeat('0', asked - |digits|);
    ReverseJoin(digits, zeros);
    ReverseAll(zeros, '0');
    assert Reverse(zeros) == zeros;
    ReverseEnds(digits + zeros);
  }

  lemma {:induction false} ReverseEnds(s: string)
    ensures s != "" ==> Reverse(s)[0] == s[|s| - 1]
  {
    if |s| > 1 {
      ReverseEnds(s[1..]);
    }
  }

  // ----------------------------------------------------------- field width

  /** The text is as wide as asked for, or as its parts if they are wider, exactly when the
      padding is not made twice: zeros in front and, by a negative width argument, spaces behind. */
  lemma WidthIsRight(value: nat, isSigned: bool, negative: bool, b: Base, c: Conversion)
    requires IsBase(b)
    ensures var n := |SignOf(isSigned, negative, c.flags)| + |PrefixOf(value, b, c.flags)| + |Body(value, b, c)|;
            |Rendered(value, isSigned, negative, b, c)| == (if n < c.width then c.width else n)
            <==> !(c.flags.minus && c.flags.zero && n < c.width)
  {
  }

  /** `0` with an argument width of -5 is such a case. */
  lemma WidthCanBeWrong()
    ensures var c := Conversion(Settled(FlagsIn("0"), true, false), 5, -1);
            c.flags.minus && c.flags.zero && |Rendered(7, true, false, BASE_D, c)| == 9
  {
    var c := Conversion(Settled(FlagsIn("0"), true, false), 5, -1);
    assert DigitsFrom(7, BASE_D, false, 0) == "7";
    assert |Body(7, BASE_D, c)| == 1;
  }

  // ------------------------------------------------------------ vsnprintf

  /** `vsnprintf_helper` on a stream of characters: at most `size - 1` are stored and then
      a null, the length is that of the whole stream. */
  method Vsnprintf(buffer: array<char>, stream: string) returns (length: nat)
    modifies buffer
    ensures length == |stream|
    ensures var n := if |stream| < buffer.Length then |stream| else buffer.Length - 1;
            buffer.Length > 0 ==> buffer[..n] == stream[..n] && buffer[n] == '\0'
  {
    var maxLength := if buffer.Length > 0 then buffer.Length - 1 else 0;
    var p := 0;
    length := 0;
    while length < |stream|
      invariant 0 <= length <= |stream| && p == (if length < maxLength then length else maxLength)
      invariant buffer[..p] == stream[..p]
    {
      if length < maxLength {
        buffer[p] := stream[length];
        p := p + 1;
      }
      length := length + 1;
    }
    if buffer.Length > 0 {
      buffer[p] := '\0';
    }
  }
}
