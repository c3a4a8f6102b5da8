/** Format strings: the sizes of libgnu/xsize.h, and what a directive of a format string says. Sizes are those of an
    LP64 machine, where `intmax_t`, `size_t` and `ptrdiff_t` are as wide as `long` and wider than `int`. */
module PrintfSyntax {
  import opened DecimalDigits

  const SIZE_MAX: int := 0xFFFF_FFFF_FFFF_FFFF

  type Size = n: int | 0 <= n <= 0xFFFF_FFFF_FFFF_FFFF

  /** "No argument", the largest size. */
  const ARG_NONE: Size := 0xFFFF_FFFF_FFFF_FFFF

  // ---------------------------------------------------------------- checked sizes

  function Xsum(a: Size, b: Size): Size {
    var sum := (a as int + b as int) % 0x1_0000_0000_0000_0000;
    if sum >= a then sum else 0xFFFF_FFFF_FFFF_FFFF
  }

  function Xtimes(n: Size, elsize: Size): Size
    requires elsize > 0
  {
    if n <= SIZE_MAX / elsize then
      XtimesFits(n, elsize);
      n * elsize
    else 0xFFFF_FFFF_FFFF_FFFF
  }

  lemma XtimesFits(n: int, elsize: int)
    requires 0 <= n && elsize > 0
    ensures n <= SIZE_MAX / elsize <==> n * elsize <= SIZE_MAX
  {
    if n <= SIZE_MAX / elsize {
      assert n * elsize <= SIZE_MAX / elsize * elsize;
    } else {
      assert n * elsize >= (SIZE_MAX / elsize + 1) * elsize;
    }
  }

  function Saturated(n: nat): Size {
    if n <= SIZE_MAX then n else SIZE_MAX
  }

  /** The checked operations are the exact ones with SIZE_MAX standing for everything too large, even when their
      operands already are. */
  lemma XsumSaturates(a: nat, b: nat)
    ensures Xsum(Saturated(a), Saturated(b)) == Saturated(a + b)
  {
  }

  lemma TimesAtLeast(n: nat, elsize: nat)
    requires elsize > 0
    ensures n * elsize >= n
  {
  }

  lemma XtimesExact(n: Size, elsize: Size)
    requires elsize > 0
    ensures Xtimes(n, elsize) == Saturated(n * elsize)
  {
    XtimesFits(n, elsize);
  }

  lemma XtimesSaturates(n: nat, elsize: Size)
    requires elsize > 0
    ensures Xtimes(Saturated(n), elsize) == Saturated(n * elsize)
  {
    hide Xtimes;
    XtimesExact(Saturated(n), elsize);
    TimesAtLeast(n, elsize);
    TimesAtLeast(Saturated(n), elsize);
  }

  // ---------------------------------------------------------------- characters and positions

  /** The character at p; the format string ends with a null character. */
  function At(f: string, p: nat): char
    requires p <= |f|
  {
    if p < |f| then f[p] else '\0'
  }

  function DigitsEnd(f: string, p: nat): (e: nat)
    requires p <= |f|
    ensures p <= e <= |f| && !IsDigit(At(f, e))
    ensures forall i :: p <= i < e ==> IsDigit(f[i])
    decreases |f| - p
  {
    if IsDigit(At(f, p)) then DigitsEnd(f, p + 1) else p
  }

  /** The number the digits from p to e denote. */
  function Value(f: string, p: nat, e: nat): (n: nat)
    requires p <= e <= |f| && forall i :: p <= i < e ==> IsDigit(f[i])
    decreases e
  {
    if p == e then 0
    else
      assert IsDigit(f[e - 1]);
      Value(f, p, e - 1) * 10 + DigitOf(f[e - 1])
  }

  /** A position: digits and a dollar sign. */
  predicate HasPosition(f: string, p: nat)
    requires p <= |f|
  {
    IsDigit(At(f, p)) && At(f, DigitsEnd(f, p)) == '$'
  }

  function PositionValue(f: string, p: nat): nat
    requires p <= |f|
  {
    Value(f, p, DigitsEnd(f, p))
  }

  function AfterPosition(f: string, p: nat): (e: nat)
    requires p <= |f|
    ensures p <= e <= |f|
  {
    if HasPosition(f, p) then DigitsEnd(f, p) + 1 else p
  }

  /** The index a position names, or the next one in sequence. */
  function IndexAt(f: string, p: nat, posn: int): int
    requires p <= |f|
  {
    if HasPosition(f, p) then PositionValue(f, p) - 1 else posn
  }

  // ---------------------------------------------------------------- flags

  datatype Flag = Group | Left | ShowSign | Space | Alt | Zero | Localized

  function FlagOf(c: char, localized: bool): set<Flag> {
    if c == '\'' then {Group}
    else if c == '-' then {Left}
    else if c == '+' then {ShowSign}
    else if c == ' ' then {Space}
    else if c == '#' then {Alt}
    else if c == '0' then {Zero}
    else if c == 'I' && localized then {Localized}
    else {}
  }

  function FlagsEnd(f: string, p: nat, localized: bool): (e: nat)
    requires p <= |f|
    ensures p <= e <= |f| && FlagOf(At(f, e), localized) == {}
    decreases |f| - p
  {
    if FlagOf(At(f, p), localized) != {} then FlagsEnd(f, p + 1, localized) else p
  }

  function FlagsIn(f: string, p: nat, e: nat, localized: bool): set<Flag>
    requires p <= e <= |f|
    decreases e
  {
    if p == e then {} else FlagsIn(f, p, e - 1, localized) + FlagOf(f[e - 1], localized)
  }

  // ---------------------------------------------------------------- width and precision

  /** A stretch of the format string, or a pair of NULL pointers. */
  datatype Span = NoSpan | Span(start: nat, end: nat) {
    function Length(): int {
      if NoSpan? then 0 else end - start
    }
  }

  function WidthSpan(f: string, p: nat): Span
    requires p <= |f|
  {
    if At(f, p) == '*' then Span(p, p + 1)
    else if IsDigit(At(f, p)) then Span(p, DigitsEnd(f, p))
    else NoSpan
  }

  function AfterWidth(f: string, p: nat): (e: nat)
    requires p <= |f|
    ensures p <= e <= |f|
  {
    if At(f, p) == '*' then AfterPosition(f, p + 1) else DigitsEnd(f, p)
  }

  function PrecisionSpan(f: string, p: nat): Span
    requires p <= |f|
  {
    if At(f, p) != '.' then NoSpan
    else if At(f, p + 1) == '*' then Span(p, p + 2)
    else Span(p, DigitsEnd(f, p + 1))
  }

  function AfterPrecision(f: string, p: nat): (e: nat)
    requires p <= |f|
    ensures p <= e <= |f|
  {
    if At(f, p) != '.' then p
    else if At(f, p + 1) == '*' then AfterPosition(f, p + 2)
    else DigitsEnd(f, p + 1)
  }

  predicate StarWidth(f: string, p: nat)
    requires p <= |f|
  {
    At(f, p) == '*'
  }

  predicate StarPrecision(f: string, p: nat)
    requires p <= |f|
  {
    At(f, p) == '.' && At(f, p + 1) == '*'
  }

  // ---------------------------------------------------------------- size specifiers and conversions

  datatype ArgType =
    | NONE | SCHAR | UCHAR | SHORT | USHORT | INT | UINT | LONGINT | ULONGINT | LONGLONGINT | ULONGLONGINT
    | DOUBLE | LONGDOUBLE | CHAR | WIDE_CHAR | STRING | WIDE_STRING | VOID_POINTER
    | COUNT_SCHAR_POINTER | COUNT_SHORT_POINTER | COUNT_INT_POINTER | COUNT_LONGINT_POINTER
    | COUNT_LONGLONGINT_POINTER

  /** `flags |= bit` for a power of two. */
  function WithBit(flags: nat, bit: nat): nat
    requires bit > 0
  {
    if flags / bit % 2 == 0 then flags + bit else flags
  }

  predicate HasBit(flags: nat, bit: nat)
    requires bit > 0
  {
    flags / bit % 2 == 1
  }

  predicate IsSizeChar(c: char) {
    c in "hLljzZt"
  }

  function SizeStep(flags: nat, c: char): nat {
    if c == 'h' then WithBit(flags, if HasBit(flags, 1) then 2 else 1)
    else if c == 'L' then WithBit(flags, 4)
    else flags + 8
  }

  function SizesEnd(f: string, p: nat): (e: nat)
    requires p <= |f|
    ensures p <= e <= |f|
    decreases |f| - p
  {
    if p < |f| && IsSizeChar(f[p]) then SizesEnd(f, p + 1) else p
  }

  function SizeFlags(f: string, p: nat, e: nat): nat
    requires p <= e <= |f|
    decreases e
  {
    if p == e then 0 else SizeStep(SizeFlags(f, p, e - 1), f[e - 1])
  }

  predicate IsConversion(c: char) {
    c in "diouxXfFeEgGaAcCsSpn%"
  }

  /** The type of the argument, by the widest size specifier that applies. */
  function TypeOf(flags: nat, c: char): (t: ArgType) {
    if c in "di" then
      if flags >= 16 || HasBit(flags, 4) then LONGLONGINT
      else if flags >= 8 then LONGINT
      else if HasBit(flags, 2) then SCHAR
      else if HasBit(flags, 1) then SHORT
      else INT
    else if c in "ouxX" then
      if flags >= 16 || HasBit(flags, 4) then ULONGLONGINT
      else if flags >= 8 then ULONGINT
      else if HasBit(flags, 2) then UCHAR
      else if HasBit(flags, 1) then USHORT
      else UINT
    else if c in "fFeEgGaA" then
      if flags >= 16 || HasBit(flags, 4) then LONGDOUBLE else DOUBLE
    else if c == 'c' then
      if flags >= 8 then WIDE_CHAR else CHAR
    else if c == 'C' then WIDE_CHAR
    else if c == 's' then
      if flags >= 8 then WIDE_STRING else STRING
    else if c == 'S' then WIDE_STRING
    else if c == 'p' then VOID_POINTER
    else if c == 'n' then
      if flags >= 16 || HasBit(flags, 4) then COUNT_LONGLONGINT_POINTER
      else if flags >= 8 then COUNT_LONGINT_POINTER
      else if HasBit(flags, 2) then COUNT_SCHAR_POINTER
      else if HasBit(flags, 1) then COUNT_SHORT_POINTER
      else COUNT_INT_POINTER
    else NONE
  }

  /** `C` and `S` are stored as `c` and `s`. */
  function Stored(c: char): char {
    if c == 'C' then 'c' else if c == 'S' then 's' else c
  }

  // ---------------------------------------------------------------- a directive

  datatype Directive = Directive(
    dirStart: nat, dirEnd: nat, flags: set<Flag>,
    width: Span, widthArg: Size, precision: Span, precisionArg: Size,
    conversion: char, argIndex: Size)

  /** Where the parts of the directive at s begin: the position, flags, width, precision, sizes, conversion. */
  datatype Landmarks = Landmarks(position: nat, flags: nat, width: nat, precision: nat, sizes: nat, conversion: nat)

  function Parts(f: string, s: nat, localized: bool): (m: Landmarks)
    requires s < |f|
    ensures s < m.position <= m.flags <= m.width <= m.precision <= m.sizes <= m.conversion <= |f|
  {
    var p1 := AfterPosition(f, s + 1);
    var p2 := FlagsEnd(f, p1, localized);
    var p3 := AfterWidth(f, p2);
    var p4 := AfterPrecision(f, p3);
    Landmarks(s + 1, p1, p2, p3, p4, SizesEnd(f, p4))
  }

  /** How many arguments in sequence the width, the precision and the value take. */
  function WidthTakes(f: string, p: nat): nat
    requires p <= |f|
  {
    if StarWidth(f, p) && !HasPosition(f, p + 1) then 1 else 0
  }

  function PrecisionTakes(f: string, p: nat): nat
    requires p <= |f|
  {
    if StarPrecision(f, p) && !HasPosition(f, p + 2) then 1 else 0
  }

  function ValueTakes(f: string, m: Landmarks): nat
    requires m.position <= |f| && m.conversion < |f|
  {
    if f[m.conversion] != '%' && !HasPosition(f, m.position) then 1 else 0
  }

  /** The type of the value. */
  function ValueType(f: string, m: Landmarks): ArgType
    requires m.sizes <= m.conversion < |f|
  {
    TypeOf(SizeFlags(f, m.sizes, m.conversion), f[m.conversion])
  }

  /** dp says what the text of the directive at s says, posn arguments having been taken before it. */
  predicate Describes(f: string, s: nat, localized: bool, posn: nat, dp: Directive)
    requires s < |f|
  {
    var m := Parts(f, s, localized);
    && f[s] == '%' && m.conversion < |f| && IsConversion(f[m.conversion])
    && dp.dirStart == s && dp.dirEnd == m.conversion + 1
    && dp.flags == FlagsIn(f, m.flags, m.width, localized)
    && dp.width == WidthSpan(f, m.width)
    && dp.widthArg == (if StarWidth(f, m.width) then IndexAt(f, m.width + 1, posn) else ARG_NONE)
    && dp.precision == PrecisionSpan(f, m.precision)
    && dp.precisionArg ==
         (if StarPrecision(f, m.precision) then IndexAt(f, m.precision + 2, posn + WidthTakes(f, m.width)) else ARG_NONE)
    && dp.conversion == Stored(f[m.conversion])
    && dp.argIndex ==
         (if f[m.conversion] == '%' then ARG_NONE
          else IndexAt(f, m.position, posn + WidthTakes(f, m.width) + PrecisionTakes(f, m.precision)))
    && (StarWidth(f, m.width) <==> dp.widthArg != ARG_NONE)
    && (StarPrecision(f, m.precision) <==> dp.precisionArg != ARG_NONE)
    && (f[m.conversion] != '%' <==> dp.argIndex != ARG_NONE)
  }
}
