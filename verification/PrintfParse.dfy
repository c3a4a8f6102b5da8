/** The format parser of libgnu/printf-parse.c. */
module PrintfParse {
  import Powers
  import opened DecimalDigits
  import opened PrintfSyntax
  import opened PrintfArgs

  // ---------------------------------------------------------------- reading the text

  method DigitLoop(f: string, cp: nat) returns (np: nat)
    requires cp <= |f|
    ensures np == DigitsEnd(f, cp)
  {
    np := cp;
    while IsDigit(At(f, np))
      invariant cp <= np <= |f| && DigitsEnd(f, np) == DigitsEnd(f, cp)
      decreases |f| - np
    {
      np := np + 1;
    }
  }

  /** Lines 162-165: the loop computes the number, or SIZE_MAX if it is too large for a size. */
  method NumberLoop(f: string, cp: nat) returns (np: nat, n: Size)
    requires cp <= |f|
    ensures np == DigitsEnd(f, cp) && n == Saturated(PositionValue(f, cp))
  {
    n := 0;
    np := cp;
    while IsDigit(At(f, np))
      invariant cp <= np <= DigitsEnd(f, cp) && DigitsEnd(f, np) == DigitsEnd(f, cp)
      invariant n == Saturated(Value(f, cp, np))
      decreases |f| - np
    {
      NumberStep(f, cp, np, n);
      n := Xsum(Xtimes(n, 10), DigitOf(f[np]));
      np := np + 1;
    }
  }

  lemma NumberStep(f: string, cp: nat, np: nat, n: Size)
    requires cp <= |f| && cp <= np < DigitsEnd(f, cp) && n == Saturated(Value(f, cp, np))
    ensures IsDigit(f[np])
    ensures Xsum(Xtimes(n, 10), DigitOf(f[np])) == Saturated(Value(f, cp, np + 1))
  {
    hide Xsum;
    hide Xtimes;
    var v, digit := Value(f, cp, np), DigitOf(f[np]);
    XtimesSaturates(v, 10);
    XsumSaturates(v * 10, digit);
  }

  /** A position that names an argument. */
  predicate GoodPosition(f: string, p: nat)
    requires p <= |f|
  {
    HasPosition(f, p) ==> 0 < PositionValue(f, p) < SIZE_MAX
  }

  /** Lines 153-175, 230-252 and 287-310. */
  method ReadPosition(f: string, cp: nat) returns (r: Status, index: Size, next: nat)
    requires cp <= |f|
    ensures r != OutOfMemory && (r == Done <==> GoodPosition(f, cp))
    ensures r == Done ==> next == AfterPosition(f, cp)
    ensures r == Done ==> index == if HasPosition(f, cp) then PositionValue(f, cp) - 1 else ARG_NONE
  {
    r, index, next := Done, ARG_NONE, cp;
    if IsDigit(At(f, cp)) {
      var np := DigitLoop(f, cp);
      if At(f, np) == '$' {
        var n;
        np, n := NumberLoop(f, cp);
        if n == 0 || n == SIZE_MAX {
          return Error, ARG_NONE, cp;
        }
        index, next := n - 1, np + 1;
      }
    }
  }

  method FlagLoop(f: string, cp: nat, localized: bool) returns (next: nat, flags: set<Flag>)
    requires cp <= |f|
    ensures next == FlagsEnd(f, cp, localized) && flags == FlagsIn(f, cp, next, localized)
  {
    next, flags := cp, {};
    while true
      invariant cp <= next <= |f| && FlagsEnd(f, next, localized) == FlagsEnd(f, cp, localized)
      invariant flags == FlagsIn(f, cp, next, localized)
      decreases |f| - next
    {
      var c := At(f, next);
      if c == '\'' {
        flags := flags + {Group};
      } else if c == '-' {
        flags := flags + {Left};
      } else if c == '+' {
        flags := flags + {ShowSign};
      } else if c == ' ' {
        flags := flags + {Space};
      } else if c == '#' {
        flags := flags + {Alt};
      } else if c == '0' {
        flags := flags + {Zero};
      } else if localized && c == 'I' {
        flags := flags + {Localized};
      } else {
        break;
      }
      next := next + 1;
    }
  }

  method SizeLoop(f: string, cp: nat) returns (next: nat, flags: nat)
    requires cp <= |f|
    ensures next == SizesEnd(f, cp) && flags == SizeFlags(f, cp, next)
  {
    next, flags := cp, 0;
    while true
      invariant cp <= next <= |f| && SizesEnd(f, next) == SizesEnd(f, cp)
      invariant 0 <= flags == SizeFlags(f, cp, next)
      decreases |f| - next
    {
      var c := At(f, next);
      if c == 'h' {
        flags := WithBit(flags, if HasBit(flags, 1) then 2 else 1);
      } else if c == 'L' {
        flags := WithBit(flags, 4);
      } else if c == 'l' {
        flags := flags + 8;
      } else if c == 'j' {
        flags := flags + 8;
      } else if c == 'z' || c == 'Z' {
        flags := flags + 8;
      } else if c == 't' {
        flags := flags + 8;
      } else {
        break;
      }
      next := next + 1;
    }
  }

  // ---------------------------------------------------------------- what a parsed directive may rely on

  /** The indices of dp are those of arguments of the right types. */
  ghost predicate Reserved(f: string, localized: bool, dp: Directive, types: seq<ArgType>) {
    && dp.dirStart < |f| && Parts(f, dp.dirStart, localized).conversion < |f|
    && (dp.widthArg != ARG_NONE ==> dp.widthArg < |types| && types[dp.widthArg] == INT)
    && (dp.precisionArg != ARG_NONE ==> dp.precisionArg < |types| && types[dp.precisionArg] == INT)
    && (dp.argIndex != ARG_NONE ==>
          && dp.argIndex < |types| && types[dp.argIndex] != NONE
          && types[dp.argIndex] == ValueType(f, Parts(f, dp.dirStart, localized)))
  }

  /** Whatever is registered later, the reservation holds. */
  lemma ReservedStays(f: string, localized: bool, dp: Directive, types: seq<ArgType>, later: seq<ArgType>)
    requires Reserved(f, localized, dp, types) && Extends(later, types)
    ensures Reserved(f, localized, dp, later)
  {
    hide Parts;
    hide ValueType;
  }

  /** The reservation of one index: it is there, with its type. */
  predicate HasType(types: seq<ArgType>, index: Size, t: ArgType) {
    index < |types| && types[index] == t
  }

  lemma HasTypeStays(types: seq<ArgType>, later: seq<ArgType>, index: Size, t: ArgType)
    requires Extends(later, types) && t != NONE
    ensures HasType(types, index, t) ==> HasType(later, index, t)
  {
  }

  lemma ExtendsTransitive(a: seq<ArgType>, b: seq<ArgType>, c: seq<ArgType>)
    requires Extends(b, a) && Extends(c, b)
    ensures Extends(c, a)
  {
  }

  /** The index taken where a position may stand at p: the one it names, or the next in sequence. */
  function TakenIndex(f: string, p: nat, posn: nat): nat
    requires p <= |f|
  {
    if !HasPosition(f, p) then posn else if PositionValue(f, p) == 0 then 0 else PositionValue(f, p) - 1
  }

  /** An argument of type t cannot be taken: position zero or too large, no index left, or another type before. */
  predicate TakeFails(f: string, p: nat, posn: nat, types: seq<ArgType>, t: ArgType)
    requires p <= |f|
  {
    !GoodPosition(f, p) || TakenIndex(f, p, posn) == ARG_NONE || Conflict(types, TakenIndex(f, p, posn), t)
  }

  function Took(f: string, p: nat, posn: nat, types: seq<ArgType>, t: ArgType): seq<ArgType>
    requires p <= |f|
  {
    Registered(types, TakenIndex(f, p, posn), t)
  }

  /** What becomes of taking an argument: an error, too large an array, or neither. room is the array's size. */
  function TakeStatus(f: string, p: nat, posn: nat, types: seq<ArgType>, t: ArgType, room: nat, elementSize: nat): Status
    requires p <= |f|
  {
    if TakeFails(f, p, posn, types, t) then Error
    else if Exceeds(room, TakenIndex(f, p, posn), elementSize) then OutOfMemory
    else Done
  }

  function TakeRoom(f: string, p: nat, posn: nat, room: nat): nat
    requires p <= |f|
  {
    RoomFor(room, TakenIndex(f, p, posn))
  }

  /** Use the position given, or the next argument in sequence, and register its type. */
  method TakeArgument(given: Size, argPosn: Size, t: ArgType, a: Arguments, argumentSize: Size)
    returns (r: Status, index: Size, posn: Size)
    requires a.Valid() && t != NONE && argumentSize > 0
    modifies a, a.arg
    ensures a.Valid() && (a.arg == old(a.arg) || fresh(a.arg))
    ensures r == Done ==>
      && index == (if given == ARG_NONE then argPosn else given) && index != ARG_NONE
      && posn == argPosn + (if given == ARG_NONE then 1 else 0)
      && !Conflict(old(a.Types()), index, t) && a.Types() == Registered(old(a.Types()), index, t)
      && Extends(a.Types(), old(a.Types())) && HasType(a.Types(), index, t)
    ensures var i := if given == ARG_NONE then argPosn else given;
            && r == (if i == ARG_NONE || Conflict(old(a.Types()), i, t) then Error
                     else if Exceeds(old(a.arg.Length), i, argumentSize) then OutOfMemory else Done)
            && (r == Done ==> a.arg.Length == RoomFor(old(a.arg.Length), i))
  {
    index, posn := given, argPosn;
    if index == ARG_NONE {
      index := argPosn;
      posn := (argPosn as int + 1) % 0x1_0000_0000_0000_0000;
      if index == ARG_NONE {
        return Error, index, posn;
      }
    }
    ghost var types := a.Types();
    r := a.RegisterArg(index, t, argumentSize);
    hide Registered;
    if r == Done {
      RegisteredExtends(types, index, t);
    }
  }

  /** A `*`: read the position at p, if any, and take the argument. */
  method TakeStar(f: string, p: nat, argPosn: Size, a: Arguments, argumentSize: Size)
    returns (r: Status, arg: Size, next: nat, posn: Size)
    requires p <= |f| && a.Valid() && argumentSize > 0
    modifies a, a.arg
    ensures a.Valid() && (a.arg == old(a.arg) || fresh(a.arg))
    ensures r == Done ==>
      && next == AfterPosition(f, p) && arg == IndexAt(f, p, argPosn) && arg != ARG_NONE
      && posn == argPosn + (if HasPosition(f, p) then 0 else 1)
      && !TakeFails(f, p, argPosn, old(a.Types()), INT) && a.Types() == Took(f, p, argPosn, old(a.Types()), INT)
      && Extends(a.Types(), old(a.Types())) && HasType(a.Types(), arg, INT)
    ensures r == TakeStatus(f, p, argPosn, old(a.Types()), INT, old(a.arg.Length), argumentSize)
    ensures r == Done ==> a.arg.Length == TakeRoom(f, p, argPosn, old(a.arg.Length))
  {
    posn := argPosn;
    r, arg, next := ReadPosition(f, p);
    hide HasPosition, PositionValue, AfterPosition, Registered, Conflict, Extends, HasType;
    if r == Done {
      r, arg, posn := TakeArgument(arg, argPosn, INT, a, argumentSize);
    }
  }

  /** The types registered with a width, and with a precision, at p. */
  function WidthTypes(f: string, p: nat, posn: nat, types: seq<ArgType>): seq<ArgType>
    requires p <= |f|
  {
    if StarWidth(f, p) then Took(f, p + 1, posn, types, INT) else types
  }

  function PrecisionTypes(f: string, p: nat, posn: nat, types: seq<ArgType>): seq<ArgType>
    requires p <= |f|
  {
    if StarPrecision(f, p) then Took(f, p + 2, posn, types, INT) else types
  }

  predicate WidthFails(f: string, p: nat, posn: nat, types: seq<ArgType>)
    requires p <= |f|
  {
    StarWidth(f, p) && TakeFails(f, p + 1, posn, types, INT)
  }

  predicate PrecisionFails(f: string, p: nat, posn: nat, types: seq<ArgType>)
    requires p <= |f|
  {
    StarPrecision(f, p) && TakeFails(f, p + 2, posn, types, INT)
  }

  function WidthStatus(f: string, p: nat, posn: nat, types: seq<ArgType>, room: nat, elementSize: nat): Status
    requires p <= |f|
  {
    if StarWidth(f, p) then TakeStatus(f, p + 1, posn, types, INT, room, elementSize) else Done
  }

  function PrecisionStatus(f: string, p: nat, posn: nat, types: seq<ArgType>, room: nat, elementSize: nat): Status
    requires p <= |f|
  {
    if StarPrecision(f, p) then TakeStatus(f, p + 2, posn, types, INT, room, elementSize) else Done
  }

  function WidthRoom(f: string, p: nat, posn: nat, room: nat): nat
    requires p <= |f|
  {
    if StarWidth(f, p) then TakeRoom(f, p + 1, posn, room) else room
  }

  function PrecisionRoom(f: string, p: nat, posn: nat, room: nat): nat
    requires p <= |f|
  {
    if StarPrecision(f, p) then TakeRoom(f, p + 2, posn, room) else room
  }

  /** Lines 221-273. */
  method ReadWidth(f: string, cp: nat, argPosn: Size, a: Arguments, argumentSize: Size, maxLength: nat)
    returns (r: Status, width: Span, arg: Size, next: nat, posn: Size, longest: nat)
    requires cp <= |f| && a.Valid() && argumentSize > 0
    modifies a, a.arg
    ensures a.Valid() && (a.arg == old(a.arg) || fresh(a.arg))
    ensures r == Done ==>
      && next == AfterWidth(f, cp) && width == WidthSpan(f, cp)
      && arg == (if StarWidth(f, cp) then IndexAt(f, cp + 1, argPosn) else ARG_NONE)
      && posn == argPosn + WidthTakes(f, cp)
      && longest == Powers.Max(maxLength, width.Length())
      && Extends(a.Types(), old(a.Types())) && (arg != ARG_NONE ==> HasType(a.Types(), arg, INT))
      && (StarWidth(f, cp) ==> arg != ARG_NONE)
    ensures r == Done ==>
      !WidthFails(f, cp, argPosn, old(a.Types())) && a.Types() == WidthTypes(f, cp, argPosn, old(a.Types()))
    ensures r == WidthStatus(f, cp, argPosn, old(a.Types()), old(a.arg.Length), argumentSize)
    ensures r == Done ==> a.arg.Length == WidthRoom(f, cp, argPosn, old(a.arg.Length))
  {
    hide HasPosition, AfterPosition, TakeFails, Took, Extends, HasType;
    ExtendsItself(a.Types());
    r, width, arg, next, posn, longest := Done, NoSpan, ARG_NONE, cp, argPosn, maxLength;
    if At(f, cp) == '*' {
      width := Span(cp, cp + 1);
      if longest < 1 {
        longest := 1;
      }
      r, arg, next, posn := TakeStar(f, cp + 1, argPosn, a, argumentSize);
    } else if IsDigit(At(f, cp)) {
      next := DigitLoop(f, cp);
      width := Span(cp, next);
      if longest < next - cp {
        longest := next - cp;
      }
    }
  }

  /** Lines 276-332. */
  method ReadPrecision(f: string, cp: nat, argPosn: Size, a: Arguments, argumentSize: Size, maxLength: nat)
    returns (r: Status, precision: Span, arg: Size, next: nat, posn: Size, longest: nat)
    requires cp <= |f| && a.Valid() && argumentSize > 0
    modifies a, a.arg
    ensures a.Valid() && (a.arg == old(a.arg) || fresh(a.arg))
    ensures r == Done ==>
      && next == AfterPrecision(f, cp) && precision == PrecisionSpan(f, cp)
      && arg == (if StarPrecision(f, cp) then IndexAt(f, cp + 2, argPosn) else ARG_NONE)
      && posn == argPosn + PrecisionTakes(f, cp)
      && longest == Powers.Max(maxLength, precision.Length())
      && Extends(a.Types(), old(a.Types())) && (arg != ARG_NONE ==> HasType(a.Types(), arg, INT))
      && (StarPrecision(f, cp) ==> arg != ARG_NONE)
    ensures r == Done ==>
      !PrecisionFails(f, cp, argPosn, old(a.Types())) && a.Types() == PrecisionTypes(f, cp, argPosn, old(a.Types()))
    ensures r == PrecisionStatus(f, cp, argPosn, old(a.Types()), old(a.arg.Length), argumentSize)
    ensures r == Done ==> a.arg.Length == PrecisionRoom(f, cp, argPosn, old(a.arg.Length))
  {
    hide HasPosition, AfterPosition, TakeFails, Took, Extends, HasType;
    ExtendsItself(a.Types());
    r, precision, arg, next, posn, longest := Done, NoSpan, ARG_NONE, cp, argPosn, maxLength;
    if At(f, cp) == '.' {
      if At(f, cp + 1) == '*' {
        precision := Span(cp, cp + 2);
        if longest < 2 {
          longest := 2;
        }
        r, arg, next, posn := TakeStar(f, cp + 2, argPosn, a, argumentSize);
      } else {
        next := DigitLoop(f, cp + 1);
        precision := Span(cp, next);
        if longest < next - cp {
          longest := next - cp;
        }
      }
    }
  }

  lemma TypeOfConversion(flags: nat, c: char)
    requires IsConversion(c)
    ensures TypeOf(flags, c) == NONE <==> c == '%'
  {
  }

  lemma ConversionInside(f: string, e: nat)
    requires e <= |f|
    ensures IsConversion(At(f, e)) ==> e < |f|
  {
  }

  lemma ExtendsItself(a: seq<ArgType>)
    ensures Extends(a, a)
  {
  }

  /** Lines 334-579: sizes, conversion character and value. */
  method ReadValue(f: string, cp: nat, given: Size, argPosn: Size, a: Arguments, argumentSize: Size)
    returns (r: Status, arg: Size, conversion: char, next: nat, posn: Size)
    requires cp <= |f| && a.Valid() && argumentSize > 0
    modifies a, a.arg
    ensures a.Valid() && (a.arg == old(a.arg) || fresh(a.arg))
    ensures r == Done ==>
      var e := SizesEnd(f, cp);
      && e < |f| && IsConversion(f[e]) && next == e + 1 && conversion == Stored(f[e])
      && arg == (if f[e] == '%' then ARG_NONE else if given == ARG_NONE then argPosn else given)
      && (f[e] != '%' ==> arg != ARG_NONE && HasType(a.Types(), arg, TypeOf(SizeFlags(f, cp, e), f[e])))
      && posn == argPosn + (if f[e] != '%' && given == ARG_NONE then 1 else 0)
      && Extends(a.Types(), old(a.Types()))
      && (f[e] == '%' ==> a.Types() == old(a.Types()))
      && (f[e] != '%' ==> var t := TypeOf(SizeFlags(f, cp, e), f[e]);
                          !Conflict(old(a.Types()), arg, t) && a.Types() == Registered(old(a.Types()), arg, t))
    ensures var e, i := SizesEnd(f, cp), if given == ARG_NONE then argPosn else given;
            && r == (if e == |f| || !IsConversion(f[e]) then Error
                     else if f[e] == '%' then Done
                     else if i == ARG_NONE || Conflict(old(a.Types()), i, TypeOf(SizeFlags(f, cp, e), f[e])) then Error
                     else if Exceeds(old(a.arg.Length), i, argumentSize) then OutOfMemory
                     else Done)
            && (r == Done ==> a.arg.Length == if f[e] == '%' then old(a.arg.Length) else RoomFor(old(a.arg.Length), i))
  {
    arg, conversion, posn := ARG_NONE, '%', argPosn;
    var e, flags := SizeLoop(f, cp);
    var c := At(f, e);
    next := if e < |f| then e + 1 else e;
    ConversionInside(f, e);
    if !IsConversion(c) {
      return Error, arg, conversion, next, posn;
    }
    TypeOfConversion(flags, c);
    hide TypeOf;
    hide IsConversion;
    hide SizeFlags;
    hide SizesEnd;
    hide Extends;
    hide Conflict;
    hide Registered;
    r, conversion := Done, Stored(c);
    assert Extends(a.Types(), a.Types()) by { ExtendsItself(a.Types()); }
    var t := TypeOf(flags, c);
    if t != NONE {
      r, arg, posn := TakeArgument(given, argPosn, t, a, argumentSize);
    }
  }

  // ---------------------------------------------------------------- a directive

  /** The arguments in sequence that the directive at s takes. */
  function Takes(f: string, s: nat, localized: bool): nat
    requires s < |f| && Parts(f, s, localized).conversion < |f|
  {
    var m := Parts(f, s, localized);
    WidthTakes(f, m.width) + PrecisionTakes(f, m.precision) + ValueTakes(f, m)
  }

  /** The types registered for a directive, put together. */
  lemma Reserves(f: string, localized: bool, dp: Directive, types: seq<ArgType>, posn: Size)
    requires dp.dirStart < |f| && Describes(f, dp.dirStart, localized, posn, dp)
    requires dp.widthArg != ARG_NONE ==> HasType(types, dp.widthArg, INT)
    requires dp.precisionArg != ARG_NONE ==> HasType(types, dp.precisionArg, INT)
    requires var m := Parts(f, dp.dirStart, localized);
             f[m.conversion] != '%' ==> dp.argIndex != ARG_NONE && HasType(types, dp.argIndex, ValueType(f, m))
    ensures Reserved(f, localized, dp, types)
    ensures dp.conversion == '%' <==> dp.argIndex == ARG_NONE
  {
    hide Parts;
    var m := Parts(f, dp.dirStart, localized);
    TypeOfConversion(SizeFlags(f, m.sizes, m.conversion), f[m.conversion]);
    hide TypeOf;
    hide SizeFlags;
  }

  /** What the parts of the parser found, put together. */
  lemma Assembled(f: string, s: nat, localized: bool, posn0: Size, posn1: Size, posn2: Size, posn3: Size,
                  p1: nat, p2: nat, p3: nat, p4: nat, dp: Directive)
    requires s < |f| && f[s] == '%' && dp.dirStart == s
    requires p1 == AfterPosition(f, s + 1) && p2 == FlagsEnd(f, p1, localized)
    requires p3 == AfterWidth(f, p2) && p4 == AfterPrecision(f, p3)
    requires dp.flags == FlagsIn(f, p1, p2, localized)
    requires dp.width == WidthSpan(f, p2) && dp.precision == PrecisionSpan(f, p3)
    requires dp.widthArg == if StarWidth(f, p2) then IndexAt(f, p2 + 1, posn0) else ARG_NONE
    requires posn1 == posn0 + WidthTakes(f, p2)
    requires dp.precisionArg == if StarPrecision(f, p3) then IndexAt(f, p3 + 2, posn1) else ARG_NONE
    requires posn2 == posn1 + PrecisionTakes(f, p3)
    requires var e := SizesEnd(f, p4);
             && e < |f| && IsConversion(f[e]) && dp.dirEnd == e + 1 && dp.conversion == Stored(f[e])
             && dp.argIndex == (if f[e] == '%' then ARG_NONE else IndexAt(f, s + 1, posn2))
             && posn3 == posn2 + (if f[e] != '%' && !HasPosition(f, s + 1) then 1 else 0)
    requires StarWidth(f, p2) ==> dp.widthArg != ARG_NONE
    requires StarPrecision(f, p3) ==> dp.precisionArg != ARG_NONE
    requires f[SizesEnd(f, p4)] != '%' ==> dp.argIndex != ARG_NONE
    ensures Describes(f, s, localized, posn0, dp)
    ensures posn3 == posn0 + Takes(f, s, localized)
    ensures var m, e := Parts(f, s, localized), SizesEnd(f, p4);
            m.conversion == e && ValueType(f, m) == TypeOf(SizeFlags(f, p4, e), f[e])
  {
    hide HasPosition;
    hide IndexAt;
    hide AfterPosition;
    hide AfterWidth;
    hide AfterPrecision;
    hide FlagsEnd;
    hide FlagsIn;
    hide SizesEnd;
    hide WidthSpan;
    hide PrecisionSpan;
    hide StarWidth;
    hide StarPrecision;
    hide IsConversion;
    hide Stored;
    hide SizeFlags;
    hide TypeOf;
  }

  lemma GivenIndex(f: string, p: nat, given: Size, posn: Size)
    requires p <= |f| && GoodPosition(f, p)
    requires given == if HasPosition(f, p) then PositionValue(f, p) - 1 else ARG_NONE
    ensures (if given == ARG_NONE then posn else given) == IndexAt(f, p, posn) == TakenIndex(f, p, posn)
    ensures given == ARG_NONE <==> !HasPosition(f, p)
  {
    hide HasPosition;
    hide PositionValue;
  }

  function ValueTypes(f: string, m: Landmarks, posn: nat, types: seq<ArgType>): seq<ArgType>
    requires m.position <= |f| && m.sizes <= m.conversion < |f|
  {
    if f[m.conversion] != '%' then Took(f, m.position, posn, types, ValueType(f, m)) else types
  }

  predicate ValueFails(f: string, m: Landmarks, posn: nat, types: seq<ArgType>)
    requires m.position <= |f| && m.sizes <= m.conversion <= |f|
  {
    || m.conversion == |f| || !IsConversion(f[m.conversion])
    || (f[m.conversion] != '%' && TakeFails(f, m.position, posn, types, ValueType(f, m)))
  }

  /** The directive at s is an error: its position, its width, its precision or its value is. */
  predicate Rejected(f: string, s: nat, localized: bool, posn: nat, types: seq<ArgType>)
    requires s < |f|
  {
    var m := Parts(f, s, localized);
    var posn1 := posn + WidthTakes(f, m.width);
    var types1 := WidthTypes(f, m.width, posn, types);
    || !GoodPosition(f, m.position)
    || WidthFails(f, m.width, posn, types)
    || PrecisionFails(f, m.precision, posn1, types1)
    || ValueFails(f, m, posn1 + PrecisionTakes(f, m.precision), PrecisionTypes(f, m.precision, posn1, types1))
  }

  /** The types registered after the directive at s. */
  function TypesAfter(f: string, s: nat, localized: bool, posn: nat, types: seq<ArgType>): seq<ArgType>
    requires s < |f| && Parts(f, s, localized).conversion < |f|
  {
    var m := Parts(f, s, localized);
    var posn1 := posn + WidthTakes(f, m.width);
    ValueTypes(f, m, posn1 + PrecisionTakes(f, m.precision),
               PrecisionTypes(f, m.precision, posn1, WidthTypes(f, m.width, posn, types)))
  }

  function ValueStatus(f: string, m: Landmarks, posn: nat, types: seq<ArgType>, room: nat, elementSize: nat): Status
    requires m.position <= |f| && m.sizes <= m.conversion <= |f|
  {
    if ValueFails(f, m, posn, types) then Error
    else if f[m.conversion] != '%' && Exceeds(room, TakenIndex(f, m.position, posn), elementSize) then OutOfMemory
    else Done
  }

  function ValueRoom(f: string, m: Landmarks, posn: nat, room: nat): nat
    requires m.position <= |f| && m.conversion < |f|
  {
    if f[m.conversion] != '%' then TakeRoom(f, m.position, posn, room) else room
  }

  /** What becomes of the directive at s: the first of its position, its width, its precision and its value that is an
      error or too large decides. */
  function DirectiveStatus(f: string, s: nat, localized: bool, posn: nat, types: seq<ArgType>, room: nat,
                           elementSize: nat): Status
    requires s < |f|
  {
    var m := Parts(f, s, localized);
    var posn1 := posn + WidthTakes(f, m.width);
    var types1, room1 := WidthTypes(f, m.width, posn, types), WidthRoom(f, m.width, posn, room);
    var posn2 := posn1 + PrecisionTakes(f, m.precision);
    var types2, room2 := PrecisionTypes(f, m.precision, posn1, types1), PrecisionRoom(f, m.precision, posn1, room1);
    var w := WidthStatus(f, m.width, posn, types, room, elementSize);
    var p := PrecisionStatus(f, m.precision, posn1, types1, room1, elementSize);
    if !GoodPosition(f, m.position) then Error
    else if w != Done then w
    else if p != Done then p
    else ValueStatus(f, m, posn2, types2, room2, elementSize)
  }

  function RoomAfter(f: string, s: nat, localized: bool, posn: nat, room: nat): nat
    requires s < |f| && Parts(f, s, localized).conversion < |f|
  {
    var m := Parts(f, s, localized);
    var posn1 := posn + WidthTakes(f, m.width);
    ValueRoom(f, m, posn1 + PrecisionTakes(f, m.precision),
              PrecisionRoom(f, m.precision, posn1, WidthRoom(f, m.width, posn, room)))
  }

  lemma StatusEarly(f: string, s: nat, localized: bool, posn: nat, types: seq<ArgType>, room: nat, elementSize: nat,
                    m: Landmarks)
    requires s < |f| && m == Parts(f, s, localized)
    ensures !GoodPosition(f, m.position) ==> DirectiveStatus(f, s, localized, posn, types, room, elementSize) == Error
    ensures var w := WidthStatus(f, m.width, posn, types, room, elementSize);
            GoodPosition(f, m.position) && w != Done ==>
              DirectiveStatus(f, s, localized, posn, types, room, elementSize) == w
  {
    hide Parts, GoodPosition, WidthStatus, PrecisionStatus, ValueStatus, WidthTypes, PrecisionTypes;
    hide WidthTakes, PrecisionTakes, WidthRoom, PrecisionRoom;
  }

  /** The same after the width, and after the precision, with the intermediate counts named. */
  lemma StatusLate(f: string, s: nat, localized: bool, posn: nat, types: seq<ArgType>, room: nat, elementSize: nat,
                   m: Landmarks, posn1: nat, types1: seq<ArgType>, room1: nat)
    requires s < |f| && m == Parts(f, s, localized) && GoodPosition(f, m.position)
    requires WidthStatus(f, m.width, posn, types, room, elementSize) == Done
    requires posn1 == posn + WidthTakes(f, m.width) && types1 == WidthTypes(f, m.width, posn, types)
    requires room1 == WidthRoom(f, m.width, posn, room)
    ensures var p := PrecisionStatus(f, m.precision, posn1, types1, room1, elementSize);
            var posn2 := posn1 + PrecisionTakes(f, m.precision);
            var types2, room2 := PrecisionTypes(f, m.precision, posn1, types1), PrecisionRoom(f, m.precision, posn1, room1);
            && DirectiveStatus(f, s, localized, posn, types, room, elementSize)
               == (if p != Done then p else ValueStatus(f, m, posn2, types2, room2, elementSize))
            && (m.conversion < |f| ==> RoomAfter(f, s, localized, posn, room) == ValueRoom(f, m, posn2, room2))
  {
    hide Parts, GoodPosition, WidthStatus, PrecisionStatus, ValueStatus, WidthTypes, PrecisionTypes, ValueRoom;
    hide WidthTakes, PrecisionTakes, WidthRoom, PrecisionRoom;
  }

  /** The same, with the intermediate counts and types named. */
  lemma RejectedIff(f: string, s: nat, localized: bool, posn: nat, types: seq<ArgType>, m: Landmarks,
                    posn1: nat, types1: seq<ArgType>, posn2: nat, types2: seq<ArgType>)
    requires s < |f| && m == Parts(f, s, localized)
    requires posn1 == posn + WidthTakes(f, m.width) && types1 == WidthTypes(f, m.width, posn, types)
    requires posn2 == posn1 + PrecisionTakes(f, m.precision) && types2 == PrecisionTypes(f, m.precision, posn1, types1)
    ensures Rejected(f, s, localized, posn, types) <==>
            || !GoodPosition(f, m.position) || WidthFails(f, m.width, posn, types)
            || PrecisionFails(f, m.precision, posn1, types1) || ValueFails(f, m, posn2, types2)
    ensures m.conversion < |f| ==> TypesAfter(f, s, localized, posn, types) == ValueTypes(f, m, posn2, types2)
  {
    hide Parts, GoodPosition, WidthFails, PrecisionFails, ValueFails, WidthTypes, PrecisionTypes, ValueTypes;
    hide WidthTakes, PrecisionTakes;
  }

  /** An error is a rejection, and what is read through is not rejected. */
  lemma StatusRejects(f: string, s: nat, localized: bool, posn: nat, types: seq<ArgType>, room: nat, elementSize: nat)
    requires s < |f|
    ensures var r := DirectiveStatus(f, s, localized, posn, types, room, elementSize);
            && (r == Error ==> Rejected(f, s, localized, posn, types))
            && (r == Done ==> !Rejected(f, s, localized, posn, types))
  {
    hide Parts, GoodPosition, TakeFails, ValueFails, WidthTypes, PrecisionTypes, WidthTakes, PrecisionTakes;
    hide WidthRoom, PrecisionRoom, StarWidth, StarPrecision, Exceeds;
  }

  /** What reading the value says about acceptance. */
  lemma ValueVerdict(f: string, m: Landmarks, given: Size, posn: Size, types: seq<ArgType>, i: Size, room: nat,
                     elementSize: nat)
    requires m.position <= |f| && m.sizes <= m.conversion <= |f| && GoodPosition(f, m.position)
    requires given == if HasPosition(f, m.position) then PositionValue(f, m.position) - 1 else ARG_NONE
    requires i == if given == ARG_NONE then posn else given
    ensures ValueFails(f, m, posn, types) <==>
            || m.conversion == |f| || !IsConversion(f[m.conversion])
            || (f[m.conversion] != '%' && (i == ARG_NONE || Conflict(types, i, ValueType(f, m))))
    ensures m.conversion < |f| ==>
      ValueTypes(f, m, posn, types) == if f[m.conversion] != '%' then Registered(types, i, ValueType(f, m)) else types
    ensures ValueStatus(f, m, posn, types, room, elementSize)
         == if m.conversion == |f| || !IsConversion(f[m.conversion]) then Error
            else if f[m.conversion] == '%' then Done
            else if i == ARG_NONE || Conflict(types, i, ValueType(f, m)) then Error
            else if Exceeds(room, i, elementSize) then OutOfMemory
            else Done
    ensures m.conversion < |f| ==>
      ValueRoom(f, m, posn, room) == if f[m.conversion] == '%' then room else RoomFor(room, i)
  {
    GivenIndex(f, m.position, given, posn);
    hide HasPosition, PositionValue, Conflict, Registered, ValueType, IsConversion, GoodPosition, TakenIndex, Exceeds;
    hide RoomFor;
  }

  lemma PartsAre(f: string, s: nat, localized: bool)
    requires s < |f|
    ensures var m := Parts(f, s, localized);
            && m.position == s + 1 && m.flags == AfterPosition(f, s + 1)
            && m.width == FlagsEnd(f, m.flags, localized) && m.precision == AfterWidth(f, m.width)
            && m.sizes == AfterPrecision(f, m.precision) && m.conversion == SizesEnd(f, m.sizes)
  {
  }

  /** Lines 139-579: one directive, its `%` at s. */
  method ReadDirective(f: string, s: nat, localized: bool, argPosn: Size, a: Arguments, argumentSize: Size,
                       maxWidth: nat, maxPrecision: nat)
    returns (r: Status, dp: Directive, posn: Size, longestWidth: nat, longestPrecision: nat)
    requires s < |f| && f[s] == '%' && a.Valid() && argumentSize > 0
    modifies a, a.arg
    ensures a.Valid() && (a.arg == old(a.arg) || fresh(a.arg))
    ensures r == Done ==>
      && dp.dirStart == s && Describes(f, s, localized, argPosn, dp) && Reserved(f, localized, dp, a.Types())
      && Extends(a.Types(), old(a.Types()))
      && posn == argPosn + Takes(f, s, localized)
      && longestWidth == Powers.Max(maxWidth, dp.width.Length())
      && longestPrecision == Powers.Max(maxPrecision, dp.precision.Length())
      && (dp.conversion == '%' <==> dp.argIndex == ARG_NONE)
    ensures r == Done ==>
      !Rejected(f, s, localized, argPosn, old(a.Types())) &&
      a.Types() == TypesAfter(f, s, localized, argPosn, old(a.Types()))
    ensures r == Error ==> Rejected(f, s, localized, argPosn, old(a.Types()))
    ensures r == DirectiveStatus(f, s, localized, argPosn, old(a.Types()), old(a.arg.Length), argumentSize)
    ensures r == Done ==> a.arg.Length == RoomAfter(f, s, localized, argPosn, old(a.arg.Length))
  {
    hide *;
    dp := Directive(s, s, {}, NoSpan, ARG_NONE, NoSpan, ARG_NONE, '%', ARG_NONE);
    posn, longestWidth, longestPrecision := argPosn, maxWidth, maxPrecision;
    ghost var m, types0, room0 := Parts(f, s, localized), a.Types(), a.arg.Length;
    PartsAre(f, s, localized);
    StatusRejects(f, s, localized, argPosn, types0, room0, argumentSize);
    StatusEarly(f, s, localized, argPosn, types0, room0, argumentSize, m);
    var index, cp;
    r, index, cp := ReadPosition(f, s + 1);
    if r != Done { return; }
    var flags;
    cp, flags := FlagLoop(f, cp, localized);
    var width, widthArg;
    r, width, widthArg, cp, posn, longestWidth := ReadWidth(f, cp, posn, a, argumentSize, maxWidth);
    if r != Done { return; }
    ghost var types1, posn1, room1 := a.Types(), posn, a.arg.Length;
    StatusLate(f, s, localized, argPosn, types0, room0, argumentSize, m, posn1, types1, room1);
    var precision, precisionArg;
    r, precision, precisionArg, cp, posn, longestPrecision :=
      ReadPrecision(f, cp, posn, a, argumentSize, maxPrecision);
    if r != Done { return; }
    ghost var types2, posn2 := a.Types(), posn;
    RejectedIff(f, s, localized, argPosn, types0, m, posn1, types1, posn2, types2);
    ValueVerdict(f, m, index, posn2, types2, if index == ARG_NONE then posn2 else index, a.arg.Length, argumentSize);
    ValueTypeIs(f, m);
    var arg, conversion;
    r, arg, conversion, cp, posn := ReadValue(f, cp, index, posn, a, argumentSize);
    if r != Done { return; }
    dp := Directive(s, cp, flags, width, widthArg, precision, precisionArg, conversion, arg);
    GivenIndex(f, s + 1, index, posn2);
    Assembled(f, s, localized, argPosn, posn1, posn2, posn, m.flags, m.width, m.precision, m.sizes, dp);
    HasTypeStays(types1, types2, widthArg, INT);
    HasTypeStays(types2, a.Types(), widthArg, INT);
    HasTypeStays(types2, a.Types(), precisionArg, INT);
    ExtendsTransitive(types0, types1, types2);
    ExtendsTransitive(types0, types2, a.Types());
    Reserves(f, localized, dp, a.Types(), argPosn);
  }

  lemma ValueTypeIs(f: string, m: Landmarks)
    requires m.sizes <= m.conversion <= |f|
    ensures m.conversion < |f| ==> ValueType(f, m) == TypeOf(SizeFlags(f, m.sizes, m.conversion), f[m.conversion])
  {
  }

  // ---------------------------------------------------------------- the whole format string

  predicate NoPercent(f: string, from: nat, to: nat) {
    from <= to <= |f| && forall i :: from <= i < to ==> f[i] != '%'
  }

  /** dirs are the directives of f up to cp, in order, with nothing but plain text between them, and posn arguments
      have been taken in sequence. */
  ghost predicate Parsed(f: string, localized: bool, dirs: seq<Directive>, cp: nat, posn: int)
    decreases |dirs|
  {
    if |dirs| == 0 then posn == 0 && NoPercent(f, 0, cp)
    else
      var dp := dirs[|dirs| - 1];
      && dp.dirStart < |f| && Parts(f, dp.dirStart, localized).conversion < |f|
      && var before := posn - Takes(f, dp.dirStart, localized);
      && before >= 0
      && Parsed(f, localized, dirs[..|dirs| - 1], dp.dirStart, before)
      && Describes(f, dp.dirStart, localized, before, dp)
      && NoPercent(f, dp.dirEnd, cp)
  }

  lemma {:induction false} ParsedPlain(f: string, localized: bool, dirs: seq<Directive>, cp: nat, posn: int)
    requires Parsed(f, localized, dirs, cp, posn) && cp < |f| && f[cp] != '%'
    ensures Parsed(f, localized, dirs, cp + 1, posn)
  {
    hide Parts;
    hide Takes;
    hide Describes;
  }

  lemma {:induction false} ParsedDirective(f: string, localized: bool, dirs: seq<Directive>, dp: Directive, posn: nat)
    requires dp.dirStart < |f| && Parsed(f, localized, dirs, dp.dirStart, posn)
    requires Describes(f, dp.dirStart, localized, posn, dp)
    ensures Parsed(f, localized, dirs + [dp], dp.dirEnd, posn + Takes(f, dp.dirStart, localized))
  {
    hide Takes;
    hide Parts;
    hide Describes;
    DescribesText(f, dp.dirStart, localized, posn, dp);
    assert (dirs + [dp])[..|dirs|] == dirs;
  }

  lemma DescribesText(f: string, s: nat, localized: bool, posn: nat, dp: Directive)
    requires s < |f| && Describes(f, s, localized, posn, dp)
    ensures Parts(f, s, localized).conversion < |f| && s == dp.dirStart < dp.dirEnd <= |f|
  {
  }

  lemma DirectiveEnds(f: string, s: nat, localized: bool, posn: nat, dp: Directive)
    requires s < |f| && Describes(f, s, localized, posn, dp)
    ensures dp.dirEnd == Parts(f, s, localized).conversion + 1
  {
  }

  function LongestWidth(dirs: seq<Directive>): int {
    if |dirs| == 0 then 0 else Powers.Max(LongestWidth(dirs[..|dirs| - 1]), dirs[|dirs| - 1].width.Length())
  }

  function LongestPrecision(dirs: seq<Directive>): int {
    if |dirs| == 0 then 0 else Powers.Max(LongestPrecision(dirs[..|dirs| - 1]), dirs[|dirs| - 1].precision.Length())
  }

  lemma {:induction false} LongestBounds(dirs: seq<Directive>, k: nat)
    requires k < |dirs|
    ensures dirs[k].width.Length() <= LongestWidth(dirs)
    ensures dirs[k].precision.Length() <= LongestPrecision(dirs)
  {
    if k < |dirs| - 1 {
      LongestBounds(dirs[..|dirs| - 1], k);
    }
  }

  /** Every directive keeps what it reserved. */
  ghost predicate AllReserved(f: string, localized: bool, dirs: seq<Directive>, types: seq<ArgType>) {
    forall k :: 0 <= k < |dirs| ==>
      && Reserved(f, localized, dirs[k], types)
      && (dirs[k].conversion == '%' <==> dirs[k].argIndex == ARG_NONE)
  }

  lemma AllReservedStep(f: string, localized: bool, dirs: seq<Directive>, dp: Directive,
                        types: seq<ArgType>, later: seq<ArgType>)
    requires AllReserved(f, localized, dirs, types) && Extends(later, types)
    requires Reserved(f, localized, dp, later) && (dp.conversion == '%' <==> dp.argIndex == ARG_NONE)
    ensures AllReserved(f, localized, dirs + [dp], later)
  {
    hide Reserved;
    hide Extends;
    forall k | 0 <= k < |dirs|
      ensures Reserved(f, localized, dirs[k], later)
    {
      ReservedStays(f, localized, dirs[k], types, later);
    }
  }

  method DoubledRoom(length: Size, elementSize: Size) returns (ok: bool, room: Size)
    requires length > 0 && elementSize > 0
    ensures ok ==> room == 2 * length < SIZE_MAX
    ensures ok <==> 2 * length * elementSize < SIZE_MAX
  {
    XtimesExact(length, 2);
    room := Xtimes(length, 2);
    hide Xtimes;
    var memorySize := Xtimes(room, elementSize);
    XtimesExact(room, elementSize);
    TimesAtLeast(room, elementSize);
    TimesAtLeast(2 * length, elementSize);
    ok := memorySize != SIZE_MAX;
  }

  /** Whether there is room for another slot behind the next directive, and how many there are then. */
  function SlotStatus(count: nat, slots: nat, elementSize: nat): Status {
    if count + 1 >= slots && 2 * slots * elementSize >= SIZE_MAX then OutOfMemory else Done
  }

  function SlotsAfter(count: nat, slots: nat): nat {
    if count + 1 >= slots then 2 * slots else slots
  }

  class Directives {
    var count: nat
    var dir: array<Directive>
    var maxWidthLength: nat
    var maxPrecisionLength: nat

    /** There is always a slot for the next directive. */
    ghost predicate Valid()
      reads this
    {
      count < dir.Length < SIZE_MAX && 7 <= dir.Length
    }

    ghost function Dirs(): seq<Directive>
      requires Valid()
      reads this, dir
    {
      dir[..count]
    }

    constructor ()
      ensures Valid() && fresh(dir) && Dirs() == [] && maxWidthLength == 0 && maxPrecisionLength == 0
      ensures count == 0 && dir.Length == 7
    {
      count := 0;
      dir := new Directive[7];
      maxWidthLength := 0;
      maxPrecisionLength := 0;
    }

    /** Lines 581-601: count the directive in the slot, and make room for another. */
    method Add(dp: Directive, directiveSize: Size) returns (r: Status)
      requires Valid() && directiveSize > 0
      modifies this`count, this`dir, dir
      ensures dir == old(dir) || fresh(dir)
      ensures r != Error && r == SlotStatus(old(count), old(dir.Length), directiveSize)
      ensures r == Done ==> Valid() && Dirs() == old(Dirs()) + [dp]
      ensures r == Done ==> count == old(count) + 1 && dir.Length == SlotsAfter(old(count), old(dir.Length))
      ensures r == Done ==>
        if count < old(dir.Length) then dir == old(dir) else dir.Length == old(dir.Length) + old(dir.Length)
    {
      dir[count] := dp;
      count := count + 1;
      if count >= dir.Length {
        var ok, room := DoubledRoom(dir.Length, directiveSize);
        if !ok {
          return OutOfMemory;
        }
        var memory := new Directive[room];
        var i := 0;
        while i < count
          invariant 0 <= i <= count
          invariant memory[..i] == dir[..i]
          modifies memory
        {
          memory[i] := dir[i];
          i := i + 1;
        }
        dir := memory;
      }
      return Done;
    }

    /** Lines 611-615: the slot behind the last directive says where the text ends. */
    method Finish(cp: nat, maxWidth: nat, maxPrecision: nat) returns (r: Status)
      requires Valid()
      modifies this`maxWidthLength, this`maxPrecisionLength, dir
      ensures r == Done && Valid() && Dirs() == old(Dirs()) && dir[count].dirStart == cp
      ensures maxWidthLength == maxWidth && maxPrecisionLength == maxPrecision
    {
      dir[count] := dir[count].(dirStart := cp);
      maxWidthLength, maxPrecisionLength := maxWidth, maxPrecision;
      r := Done;
    }
  }

  /** The state of the parser with the text before cp read. */
  ghost predicate Progress(f: string, localized: bool, cp: nat, posn: int, dirs: seq<Directive>, types: seq<ArgType>,
                           maxWidth: int, maxPrecision: int) {
    && Parsed(f, localized, dirs, cp, posn) && AllReserved(f, localized, dirs, types)
    && maxWidth == LongestWidth(dirs) && maxPrecision == LongestPrecision(dirs)
  }

  lemma ProgressDirective(f: string, localized: bool, posn: nat, dirs: seq<Directive>, types: seq<ArgType>,
                          maxWidth: int, maxPrecision: int, dp: Directive, later: seq<ArgType>)
    requires dp.dirStart < |f|
    requires Progress(f, localized, dp.dirStart, posn, dirs, types, maxWidth, maxPrecision)
    requires Describes(f, dp.dirStart, localized, posn, dp) && Reserved(f, localized, dp, later)
    requires Extends(later, types) && (dp.conversion == '%' <==> dp.argIndex == ARG_NONE)
    ensures dp.dirStart < dp.dirEnd <= |f|
    ensures Progress(f, localized, dp.dirEnd, posn + Takes(f, dp.dirStart, localized), dirs + [dp], later,
                     Powers.Max(maxWidth, dp.width.Length()), Powers.Max(maxPrecision, dp.precision.Length()))
  {
    hide Parts;
    hide Takes;
    hide Describes;
    hide Parsed;
    hide Reserved;
    hide Extends;
    hide AllReserved;
    DescribesText(f, dp.dirStart, localized, posn, dp);
    ParsedDirective(f, localized, dirs, dp, posn);
    AllReservedStep(f, localized, dirs, dp, types, later);
    assert (dirs + [dp])[..|dirs|] == dirs;
  }

  lemma ProgressPlain(f: string, localized: bool, cp: nat, posn: int, dirs: seq<Directive>, types: seq<ArgType>,
                      maxWidth: int, maxPrecision: int)
    requires Progress(f, localized, cp, posn, dirs, types, maxWidth, maxPrecision) && cp < |f| && f[cp] != '%'
    ensures Progress(f, localized, cp + 1, posn, dirs, types, maxWidth, maxPrecision)
  {
    hide Parsed;
    hide AllReserved;
    hide LongestWidth;
    hide LongestPrecision;
    ParsedPlain(f, localized, dirs, cp, posn);
  }

  /** What becomes of a format string: an error, or the types of its arguments. */
  datatype Verdict = Bad | Good(types: seq<ArgType>)

  /** The verdict on the text from cp on, posn arguments having been taken in sequence and types registered. */
  function Judge(f: string, localized: bool, cp: nat, posn: nat, types: seq<ArgType>): Verdict
    requires cp <= |f|
    decreases |f| - cp
  {
    if cp == |f| then Good(types)
    else if f[cp] != '%' then Judge(f, localized, cp + 1, posn, types)
    else if Rejected(f, cp, localized, posn, types) then Bad
    else
      Judge(f, localized, Parts(f, cp, localized).conversion + 1, posn + Takes(f, cp, localized),
            TypesAfter(f, cp, localized, posn, types))
  }

  lemma JudgeStep(f: string, localized: bool, cp: nat, posn: nat, types: seq<ArgType>)
    requires cp < |f|
    ensures f[cp] != '%' ==> Judge(f, localized, cp, posn, types) == Judge(f, localized, cp + 1, posn, types)
    ensures f[cp] == '%' && Rejected(f, cp, localized, posn, types) ==> Judge(f, localized, cp, posn, types) == Bad
    ensures f[cp] == '%' && !Rejected(f, cp, localized, posn, types) ==>
      && Parts(f, cp, localized).conversion < |f|
      && Judge(f, localized, cp, posn, types)
      == Judge(f, localized, Parts(f, cp, localized).conversion + 1, posn + Takes(f, cp, localized),
               TypesAfter(f, cp, localized, posn, types))
  {
    hide Parts, Takes, TypesAfter, WidthFails, PrecisionFails, GoodPosition;
  }

  lemma JudgeEnd(f: string, localized: bool, posn: nat, types: seq<ArgType>)
    ensures Judge(f, localized, |f|, posn, types) == Good(types)
  {
  }

  /** The result of parsing the text from cp on: room and slots are the sizes of the two arrays, count directives are
      there. */
  function Ruling(f: string, localized: bool, cp: nat, posn: nat, types: seq<ArgType>, room: nat, count: nat, slots: nat,
                  argumentSize: nat, directiveSize: nat): Status
    requires cp <= |f|
    decreases |f| - cp
  {
    if cp == |f| then Done
    else if f[cp] != '%' then
      Ruling(f, localized, cp + 1, posn, types, room, count, slots, argumentSize, directiveSize)
    else
      var r := DirectiveStatus(f, cp, localized, posn, types, room, argumentSize);
      if r != Done then r
      else if SlotStatus(count, slots, directiveSize) != Done then OutOfMemory
      else
        StatusRejects(f, cp, localized, posn, types, room, argumentSize);
        Ruling(f, localized, Parts(f, cp, localized).conversion + 1, posn + Takes(f, cp, localized),
               TypesAfter(f, cp, localized, posn, types), RoomAfter(f, cp, localized, posn, room), count + 1,
               SlotsAfter(count, slots), argumentSize, directiveSize)
  }

  lemma RulingStep(f: string, localized: bool, cp: nat, posn: nat, types: seq<ArgType>, room: nat, count: nat, slots: nat,
                   argumentSize: nat, directiveSize: nat)
    requires cp < |f|
    ensures var now := Ruling(f, localized, cp, posn, types, room, count, slots, argumentSize, directiveSize);
            var r := DirectiveStatus(f, cp, localized, posn, types, room, argumentSize);
            if f[cp] != '%' then
              now == Ruling(f, localized, cp + 1, posn, types, room, count, slots, argumentSize, directiveSize)
            else if r != Done then now == r
            else if SlotStatus(count, slots, directiveSize) != Done then now == OutOfMemory
            else
              Parts(f, cp, localized).conversion < |f| &&
              now == Ruling(f, localized, Parts(f, cp, localized).conversion + 1, posn + Takes(f, cp, localized),
                            TypesAfter(f, cp, localized, posn, types), RoomAfter(f, cp, localized, posn, room), count + 1,
                            SlotsAfter(count, slots), argumentSize, directiveSize)
  {
    hide Parts, Takes, TypesAfter, RoomAfter, DirectiveStatus, SlotStatus, SlotsAfter, WidthFails, PrecisionFails;
    hide GoodPosition;
    StatusRejects(f, cp, localized, posn, types, room, argumentSize);
  }

  lemma RulingEnd(f: string, localized: bool, posn: nat, types: seq<ArgType>, room: nat, count: nat, slots: nat,
                  argumentSize: nat, directiveSize: nat)
    ensures Ruling(f, localized, |f|, posn, types, room, count, slots, argumentSize, directiveSize) == Done
  {
  }

  // ---------------------------------------------------------------- when memory suffices

  /** Every position in f is at most bound. */
  ghost predicate PositionsUpTo(f: string, bound: nat) {
    forall p: nat :: p <= |f| && HasPosition(f, p) ==> PositionValue(f, p) <= bound
  }

  /** Twice as many elements as bound have a size. */
  predicate Affordable(bound: nat, elementSize: nat) {
    2 * bound * elementSize < SIZE_MAX
  }

  /** The index taken at p is below the bound, if posn is. */
  lemma TakenBelow(f: string, p: nat, posn: nat, bound: nat)
    requires p <= |f| && PositionsUpTo(f, bound) && posn < bound
    ensures TakenIndex(f, p, posn) < bound
  {
    hide HasPosition, PositionValue;
  }

  lemma RoomBelow(room: nat, n: nat, bound: nat, elementSize: nat)
    requires room <= 2 * bound && n < bound && Affordable(bound, elementSize)
    ensures RoomFor(room, n) <= 2 * bound && !Exceeds(room, n, elementSize)
  {
    TimesMonotone(RoomFor(room, n), 2 * bound, elementSize);
  }

  lemma TakeBelow(f: string, p: nat, posn: nat, types: seq<ArgType>, t: ArgType, room: nat, bound: nat, elementSize: nat)
    requires p <= |f| && PositionsUpTo(f, bound) && posn < bound
    requires room <= 2 * bound && Affordable(bound, elementSize)
    ensures TakeStatus(f, p, posn, types, t, room, elementSize) != OutOfMemory && TakeRoom(f, p, posn, room) <= 2 * bound
  {
    TakenBelow(f, p, posn, bound);
    RoomBelow(room, TakenIndex(f, p, posn), bound, elementSize);
    hide TakeFails, TakenIndex, Exceeds, RoomFor;
  }

  /** A directive takes at most as many arguments in sequence as it has characters besides the `%`. */
  lemma TakesFewer(f: string, s: nat, localized: bool)
    requires s < |f|
    ensures var m := Parts(f, s, localized);
            && s + WidthTakes(f, m.width) < m.precision
            && s + WidthTakes(f, m.width) + PrecisionTakes(f, m.precision) < m.sizes
            && (m.conversion < |f| ==> s + Takes(f, s, localized) <= m.conversion)
  {
    hide DigitsEnd, FlagsEnd, SizesEnd, HasPosition;
  }

  lemma WidthBelow(f: string, p: nat, posn: nat, types: seq<ArgType>, room: nat, bound: nat, elementSize: nat)
    requires p <= |f| && PositionsUpTo(f, bound) && posn < bound
    requires room <= 2 * bound && Affordable(bound, elementSize)
    ensures WidthStatus(f, p, posn, types, room, elementSize) != OutOfMemory && WidthRoom(f, p, posn, room) <= 2 * bound
  {
    hide TakeStatus, TakeRoom, PositionsUpTo;
    if StarWidth(f, p) {
      TakeBelow(f, p + 1, posn, types, INT, room, bound, elementSize);
    }
  }

  lemma PrecisionBelow(f: string, p: nat, posn: nat, types: seq<ArgType>, room: nat, bound: nat, elementSize: nat)
    requires p <= |f| && PositionsUpTo(f, bound) && posn < bound
    requires room <= 2 * bound && Affordable(bound, elementSize)
    ensures PrecisionStatus(f, p, posn, types, room, elementSize) != OutOfMemory
    ensures PrecisionRoom(f, p, posn, room) <= 2 * bound
  {
    hide TakeStatus, TakeRoom, PositionsUpTo;
    if StarPrecision(f, p) {
      TakeBelow(f, p + 2, posn, types, INT, room, bound, elementSize);
    }
  }

  lemma ValueBelow(f: string, m: Landmarks, posn: nat, types: seq<ArgType>, room: nat, bound: nat, elementSize: nat)
    requires m.position <= |f| && m.sizes <= m.conversion <= |f| && PositionsUpTo(f, bound) && posn < bound
    requires room <= 2 * bound && Affordable(bound, elementSize)
    ensures ValueStatus(f, m, posn, types, room, elementSize) != OutOfMemory
    ensures m.conversion < |f| ==> ValueRoom(f, m, posn, room) <= 2 * bound
  {
    if m.conversion < |f| {
      TakeBelow(f, m.position, posn, types, ValueType(f, m), room, bound, elementSize);
    }
    hide TakeRoom, PositionsUpTo, TakeFails, Exceeds, TakenIndex, ValueType, IsConversion;
  }

  lemma DirectiveBelow(f: string, s: nat, localized: bool, posn: nat, types: seq<ArgType>, room: nat, bound: nat,
                       elementSize: nat)
    requires s < |f| <= bound && posn <= s && PositionsUpTo(f, bound)
    requires room <= 2 * bound && Affordable(bound, elementSize)
    ensures DirectiveStatus(f, s, localized, posn, types, room, elementSize) != OutOfMemory
    ensures Parts(f, s, localized).conversion < |f| ==> RoomAfter(f, s, localized, posn, room) <= 2 * bound
  {
    hide Parts, Takes, WidthTakes, PrecisionTakes, WidthTypes, PrecisionTypes, WidthRoom, PrecisionRoom, ValueRoom;
    hide WidthStatus, PrecisionStatus, ValueStatus, PositionsUpTo, GoodPosition;
    var m := Parts(f, s, localized);
    var posn1 := posn + WidthTakes(f, m.width);
    var types1, room1 := WidthTypes(f, m.width, posn, types), WidthRoom(f, m.width, posn, room);
    var posn2 := posn1 + PrecisionTakes(f, m.precision);
    var types2, room2 := PrecisionTypes(f, m.precision, posn1, types1), PrecisionRoom(f, m.precision, posn1, room1);
    TakesFewer(f, s, localized);
    WidthBelow(f, m.width, posn, types, room, bound, elementSize);
    PrecisionBelow(f, m.precision, posn1, types1, room1, bound, elementSize);
    ValueBelow(f, m, posn2, types2, room2, bound, elementSize);
  }

  lemma SlotBelow(count: nat, slots: nat, bound: nat, elementSize: nat)
    requires count < bound && Affordable(bound, elementSize)
    ensures SlotStatus(count, slots, elementSize) == Done
  {
    if count + 1 >= slots {
      TimesMonotone(2 * slots, 2 * bound, elementSize);
    }
  }

  /** Parsing never reports that memory is exhausted if it has a size to store twice as many elements of either array as
      the format string has characters, and as its largest position. */
  lemma {:induction false} EnoughMemory(f: string, localized: bool, cp: nat, posn: nat, types: seq<ArgType>, room: nat,
                                        count: nat, slots: nat, argumentSize: nat, directiveSize: nat, bound: nat)
    requires posn <= cp <= |f| <= bound && count <= cp && PositionsUpTo(f, bound)
    requires room <= 2 * bound && Affordable(bound, argumentSize) && Affordable(bound, directiveSize)
    ensures Ruling(f, localized, cp, posn, types, room, count, slots, argumentSize, directiveSize) != OutOfMemory
    decreases |f| - cp
  {
    hide *;
    if cp == |f| {
      RulingEnd(f, localized, posn, types, room, count, slots, argumentSize, directiveSize);
    } else {
      RulingStep(f, localized, cp, posn, types, room, count, slots, argumentSize, directiveSize);
      if f[cp] != '%' {
        EnoughMemory(f, localized, cp + 1, posn, types, room, count, slots, argumentSize, directiveSize, bound);
      } else {
        DirectiveBelow(f, cp, localized, posn, types, room, bound, argumentSize);
        SlotBelow(count, slots, bound, directiveSize);
        if DirectiveStatus(f, cp, localized, posn, types, room, argumentSize) == Done {
          TakesFewer(f, cp, localized);
          EnoughMemory(f, localized, Parts(f, cp, localized).conversion + 1, posn + Takes(f, cp, localized),
                       TypesAfter(f, cp, localized, posn, types), RoomAfter(f, cp, localized, posn, room), count + 1,
                       SlotsAfter(count, slots), argumentSize, directiveSize, bound);
        }
      }
    }
  }

  lemma ProgressStart(f: string, localized: bool)
    ensures Progress(f, localized, 0, 0, [], [], 0, 0)
  {
  }

  /** PRINTF_PARSE. The format string ends at its null character. */
  method Parse(f: string, localized: bool, argumentSize: Size, directiveSize: Size)
    returns (r: Status, d: Directives, a: Arguments, ghost posn: nat)
    requires '\0' !in f && argumentSize > 0 && directiveSize > 0
    ensures fresh(d) && fresh(a) && a.Valid()
    ensures r == Done ==>
      && d.Valid() && d.dir[d.count].dirStart == |f|
      && Progress(f, localized, |f|, posn, d.Dirs(), a.Types(), d.maxWidthLength, d.maxPrecisionLength)
      && Judge(f, localized, 0, 0, []) == Good(a.Types())
    ensures r == Error ==> Judge(f, localized, 0, 0, []) == Bad
    ensures r == Ruling(f, localized, 0, 0, [], 7, 0, 7, argumentSize, directiveSize)
  {
    hide *;
    d := new Directives();
    a := new Arguments();
    var cp, argPosn: Size := 0, 0;
    var maxWidth, maxPrecision := 0, 0;
    posn := 0;
    ProgressStart(f, localized);
    while cp < |f|
      invariant cp <= |f| && 0 <= maxWidth && 0 <= maxPrecision
      invariant fresh(d) && fresh(a) && fresh(d.dir) && fresh(a.arg)
      invariant d.Valid() && a.Valid()
      invariant Progress(f, localized, cp, argPosn, d.Dirs(), a.Types(), maxWidth, maxPrecision)
      invariant Judge(f, localized, 0, 0, []) == Judge(f, localized, cp, argPosn, a.Types())
      invariant Ruling(f, localized, 0, 0, [], 7, 0, 7, argumentSize, directiveSize)
             == Ruling(f, localized, cp, argPosn, a.Types(), a.arg.Length, d.count, d.dir.Length, argumentSize,
                       directiveSize)
      decreases |f| - cp
    {
      JudgeStep(f, localized, cp, argPosn, a.Types());
      RulingStep(f, localized, cp, argPosn, a.Types(), a.arg.Length, d.count, d.dir.Length, argumentSize, directiveSize);
      if f[cp] == '%' {
        ghost var posn0, dirs, types, w, p := argPosn, d.Dirs(), a.Types(), maxWidth, maxPrecision;
        var dp;
        r, dp, argPosn, maxWidth, maxPrecision :=
          ReadDirective(f, cp, localized, argPosn, a, argumentSize, maxWidth, maxPrecision);
        if r != Done { return; }
        DescribesText(f, cp, localized, posn0, dp);
        DirectiveEnds(f, cp, localized, posn0, dp);
        ProgressDirective(f, localized, posn0, dirs, types, w, p, dp, a.Types());
        r := d.Add(dp, directiveSize);
        if r != Done { return; }
        cp := dp.dirEnd;
      } else {
        ProgressPlain(f, localized, cp, argPosn, d.Dirs(), a.Types(), maxWidth, maxPrecision);
        cp := cp + 1;
      }
    }
    JudgeEnd(f, localized, argPosn, a.Types());
    RulingEnd(f, localized, argPosn, a.Types(), a.arg.Length, d.count, d.dir.Length, argumentSize, directiveSize);
    r := d.Finish(cp, maxWidth, maxPrecision);
    posn := argPosn;
  }
}
