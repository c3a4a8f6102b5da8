/** What the text of a directive says, read off the text itself: its words one after the other, what each means, and the
    type its size and its conversion letter give. The parser's landmarks and directives are exactly that. */
module PrintfGrammar {
  import Decimal
  import opened DecimalDigits
  import opened PrintfSyntax
  import opened PrintfArgs
  import opened PrintfParse
  import opened PrintfRebuild

  // ---------------------------------------------------------------- numbers

  function Backwards(t: string): string {
    if t == "" then "" else [t[|t| - 1]] + Backwards(t[..|t| - 1])
  }

  /** The number digits denote, the last one counting least. */
  function NumberOf(t: string): nat {
    Decimal.DVal(Backwards(t))
  }

  lemma {:induction false} ValueIsNumber(f: string, p: nat, e: nat)
    requires p <= e <= |f| && forall i :: p <= i < e ==> IsDigit(f[i])
    ensures Value(f, p, e) == NumberOf(f[p..e])
    decreases e
  {
    var t := f[p..e];
    if p == e {
      assert t == "";
    } else {
      ValueIsNumber(f, p, e - 1);
      assert t[..|t| - 1] == f[p..e - 1] && t[|t| - 1] == f[e - 1];
      assert ([t[|t| - 1]] + Backwards(t[..|t| - 1]))[1..] == Backwards(t[..|t| - 1]);
    }
  }

  // ---------------------------------------------------------------- the words of a directive

  /** A width or precision: none, digits, or a star with a position or without. */
  datatype Amount = Absent | Number(digits: string) | Star(position: string)

  datatype Words = Words(position: string, flags: string, width: Amount, precision: Amount, sizes: string,
                         conversion: char)

  predicate AreDigits(t: string) {
    forall i :: 0 <= i < |t| ==> IsDigit(t[i])
  }

  function PositionText(position: string): string {
    if position == "" then "" else position + "$"
  }

  function WidthText(width: Amount): string {
    match width
    case Absent => ""
    case Number(t) => t
    case Star(position) => "*" + PositionText(position)
  }

  function PrecisionText(precision: Amount): string {
    match precision
    case Absent => ""
    case Number(t) => "." + t
    case Star(position) => ".*" + PositionText(position)
  }

  function DirectiveText(w: Words): string {
    "%" + PositionText(w.position) + w.flags + WidthText(w.width) + PrecisionText(w.precision) + w.sizes + [w.conversion]
  }

  predicate IsFlagChar(c: char, localized: bool) {
    c in "'-+ #0" || (localized && c == 'I')
  }

  /** A width of digits does not begin with 0, which is a flag. */
  predicate WidthSpelled(width: Amount) {
    && (width.Number? ==> width.digits != "" && width.digits[0] != '0' && AreDigits(width.digits))
    && (width.Star? ==> AreDigits(width.position))
  }

  /** A precision of digits may be empty. */
  predicate PrecisionSpelled(precision: Amount) {
    && (precision.Number? ==> AreDigits(precision.digits))
    && (precision.Star? ==> AreDigits(precision.position))
  }

  predicate Spelled(w: Words, localized: bool) {
    && AreDigits(w.position) && (forall c :: c in w.flags ==> IsFlagChar(c, localized))
    && WidthSpelled(w.width) && PrecisionSpelled(w.precision)
    && (forall c :: c in w.sizes ==> c in "hLljzZt")
    && w.conversion in "diouxXfFeEgGaAcCsSpn%"
  }

  /** The words stand in f from s on, one after the other, with their beginnings at m. */
  predicate StandsAt(f: string, s: nat, w: Words, m: Landmarks) {
    && s + 1 == m.position <= m.flags <= m.width <= m.precision <= m.sizes <= m.conversion < |f|
    && f[s] == '%' && f[m.position..m.flags] == PositionText(w.position)
    && f[m.flags..m.width] == w.flags && f[m.width..m.precision] == WidthText(w.width)
    && f[m.precision..m.sizes] == PrecisionText(w.precision) && f[m.sizes..m.conversion] == w.sizes
    && f[m.conversion] == w.conversion
  }

  /** That is, their text does. */
  lemma StandsAsText(f: string, s: nat, w: Words, m: Landmarks)
    requires StandsAt(f, s, w, m)
    ensures f[s..m.conversion + 1] == DirectiveText(w)
  {
    hide PositionText, WidthText, PrecisionText;
    assert f[s..m.flags] == "%" + PositionText(w.position);
    assert f[s..m.width] == f[s..m.flags] + w.flags;
    assert f[s..m.precision] == f[s..m.width] + WidthText(w.width);
    assert f[s..m.sizes] == f[s..m.precision] + PrecisionText(w.precision);
    assert f[s..m.conversion] == f[s..m.sizes] + w.sizes;
    assert f[s..m.conversion + 1] == f[s..m.conversion] + [w.conversion];
  }

  // ---------------------------------------------------------------- the parser finds the words

  lemma FlagChars(c: char, localized: bool)
    ensures FlagOf(c, localized) != {} <==> IsFlagChar(c, localized)
    ensures IsFlagChar(c, localized) ==> c != '$' && c != '*' && c != '.'
  {
  }

  /** A position is read as it stands. */
  lemma PositionFound(f: string, p: nat, e: nat, position: string)
    requires p <= e <= |f| && f[p..e] == PositionText(position) && position != "" && AreDigits(position)
    ensures HasPosition(f, p) && AfterPosition(f, p) == e && PositionValue(f, p) == NumberOf(position)
  {
    var t := f[p..e];
    assert forall i :: p <= i < e ==> f[i] == t[i - p];
    assert f[e - 1] == '$' && forall i :: p <= i < e - 1 ==> f[i] == position[i - p];
    DigitRun(f, p, e - 1);
    assert f[p..e - 1] == position;
    hide DigitsEnd;
    ValueIsNumber(f, p, e - 1);
  }

  /** No position where no digits stand that end in '$'. */
  lemma NoPosition(f: string, p: nat, q: nat)
    requires p <= q < |f| && !IsDigit(f[q]) && f[q] != '$' && forall i :: p <= i < q ==> f[i] != '$'
    ensures !HasPosition(f, p) && AfterPosition(f, p) == p
  {
    assert DigitsEnd(f, p) <= q;
  }

  /** A place for a position: it is read as it stands, and none if none stands there. */
  lemma PositionRead(f: string, p: nat, e: nat, position: string)
    requires p <= e <= |f| && f[p..e] == PositionText(position) && AreDigits(position)
    requires position == "" ==> !IsDigit(At(f, p))
    ensures AfterPosition(f, p) == e && (HasPosition(f, p) <==> position != "")
    ensures position != "" ==> PositionValue(f, p) == NumberOf(position)
  {
    if position != "" {
      PositionFound(f, p, e, position);
    }
  }

  /** A size specifier or a conversion. */
  predicate Late(c: char) {
    c in "hLljzZt" || c in "diouxXfFeEgGaAcCsSpn%"
  }

  lemma LateChar(c: char, localized: bool)
    requires Late(c)
    ensures !IsDigit(c) && c != '$' && c != '*' && c != '.' && !IsFlagChar(c, localized)
  {
    assert 'A' <= c || c == '%';
    assert c != 'I';
  }

  lemma WidthFound(f: string, p: nat, e: nat, width: Amount)
    requires p <= e < |f| && f[p..e] == WidthText(width) && !IsDigit(f[e]) && f[e] != '*'
    requires WidthSpelled(width)
    ensures AfterWidth(f, p) == e && (StarWidth(f, p) <==> width.Star?)
    ensures WidthSpan(f, p) == WidthSpanOf(width, p, e)
    ensures width.Star? ==> (HasPosition(f, p + 1) <==> width.position != "")
    ensures width.Star? && width.position != "" ==> PositionValue(f, p + 1) == NumberOf(width.position)
  {
    var t := f[p..e];
    assert forall i :: p <= i < e ==> f[i] == t[i - p];
    match width
    case Absent => DigitRun(f, p, e);
    case Number(_) => DigitRun(f, p, e);
    case Star(position) =>
      assert f[p + 1..e] == t[1..] == PositionText(position);
      PositionRead(f, p + 1, e, position);
  }

  lemma PrecisionFound(f: string, p: nat, e: nat, precision: Amount)
    requires p <= e < |f| && f[p..e] == PrecisionText(precision) && !IsDigit(f[e]) && f[e] != '*' && f[e] != '.'
    requires PrecisionSpelled(precision)
    ensures AfterPrecision(f, p) == e && (StarPrecision(f, p) <==> precision.Star?)
    ensures PrecisionSpan(f, p) == PrecisionSpanOf(precision, p, e)
    ensures precision.Star? ==> (HasPosition(f, p + 2) <==> precision.position != "")
    ensures precision.Star? && precision.position != "" ==> PositionValue(f, p + 2) == NumberOf(precision.position)
  {
    var t := f[p..e];
    assert forall i :: p <= i < e ==> f[i] == t[i - p];
    match precision
    case Absent =>
    case Number(d) =>
      assert forall i :: p + 1 <= i < e ==> f[i] == d[i - p - 1];
      DigitRun(f, p + 1, e);
      assert At(f, p + 1) != '*';
    case Star(position) =>
      assert f[p + 2..e] == t[2..] == PositionText(position);
      PositionRead(f, p + 2, e, position);
  }

  lemma {:induction false} SizesFound(f: string, p: nat, e: nat)
    requires p <= e < |f| && (forall i :: p <= i < e ==> IsSizeChar(f[i])) && !IsSizeChar(f[e])
    ensures SizesEnd(f, p) == e
    decreases e - p
  {
    if p < e {
      SizesFound(f, p + 1, e);
    }
  }

  /** What comes after each word. */
  lemma NextChars(f: string, s: nat, w: Words, m: Landmarks, localized: bool)
    requires StandsAt(f, s, w, m) && Spelled(w, localized)
    ensures Late(f[m.sizes])
    ensures f[m.precision] == '.' || Late(f[m.precision])
    ensures f[m.width] == '*' || (IsDigit(f[m.width]) && f[m.width] != '0') || f[m.width] == '.' || Late(f[m.width])
  {
    assert m.sizes < m.conversion ==> f[m.sizes] == f[m.sizes..m.conversion][0];
    assert m.precision < m.sizes ==> f[m.precision] == f[m.precision..m.sizes][0];
    assert m.width < m.precision ==> f[m.width] == f[m.width..m.precision][0];
  }

  lemma WidthBegins(f: string, s: nat, w: Words, m: Landmarks, localized: bool)
    requires StandsAt(f, s, w, m) && Spelled(w, localized)
    ensures IsDigit(f[m.width]) ==> w.width.Number?
  {
    hide IsFlagChar;
    NextChars(f, s, w, m, localized);
    assert m.width < m.precision ==> f[m.width] == f[m.width..m.precision][0];
    hide Late;
    if Late(f[m.width]) {
      LateChar(f[m.width], localized);
    }
  }

  lemma EarlyChars(c: char, localized: bool)
    requires c == '*' || c == '.' || (IsDigit(c) && c != '0')
    ensures !IsFlagChar(c, localized) && c != '$'
  {
  }

  /** None of them can be mistaken for a part of the word before. */
  lemma Boundaries(f: string, s: nat, w: Words, m: Landmarks, localized: bool)
    requires StandsAt(f, s, w, m) && Spelled(w, localized)
    ensures !IsDigit(f[m.sizes]) && f[m.sizes] != '*' && f[m.sizes] != '.'
    ensures !IsDigit(f[m.precision]) && f[m.precision] != '*' && f[m.precision] != '$'
    ensures !IsFlagChar(f[m.width], localized) && f[m.width] != '$'
    ensures IsDigit(f[m.width]) ==> w.width.Number?
  {
    hide Late, IsFlagChar, PositionText, WidthText, PrecisionText, Spelled;
    NextChars(f, s, w, m, localized);
    WidthBegins(f, s, w, m, localized);
    if !Late(f[m.width]) {
      EarlyChars(f[m.width], localized);
    }
    LateChar(f[m.sizes], localized);
    if Late(f[m.precision]) {
      LateChar(f[m.precision], localized);
    }
    if Late(f[m.width]) {
      LateChar(f[m.width], localized);
    }
  }

  lemma FlagLetters(f: string, p: nat, e: nat, localized: bool)
    requires p <= e <= |f| && forall c :: c in f[p..e] ==> IsFlagChar(c, localized)
    ensures forall i :: p <= i < e ==> FlagOf(f[i], localized) != {} && f[i] != '$'
  {
    forall i | p <= i < e
      ensures FlagOf(f[i], localized) != {} && f[i] != '$'
    {
      assert f[i] == f[p..e][i - p];
      FlagChars(f[i], localized);
    }
  }

  lemma SizeLetters(f: string, p: nat, e: nat)
    requires p <= e <= |f| && forall c :: c in f[p..e] ==> c in "hLljzZt"
    ensures forall i :: p <= i < e ==> IsSizeChar(f[i])
  {
    forall i | p <= i < e
      ensures IsSizeChar(f[i])
    {
      assert f[i] == f[p..e][i - p];
    }
  }

  /** The words, one by one. */
  lemma WordByWord(f: string, s: nat, w: Words, m: Landmarks, localized: bool)
    requires StandsAt(f, s, w, m) && Spelled(w, localized)
    ensures s + 1 == m.position <= m.flags <= m.width <= m.precision <= m.sizes <= m.conversion < |f|
    ensures f[m.position..m.flags] == PositionText(w.position) && f[m.width..m.precision] == WidthText(w.width)
    ensures f[m.precision..m.sizes] == PrecisionText(w.precision)
    ensures AreDigits(w.position) && WidthSpelled(w.width) && PrecisionSpelled(w.precision)
    ensures forall c :: c in f[m.flags..m.width] ==> IsFlagChar(c, localized)
    ensures forall c :: c in f[m.sizes..m.conversion] ==> c in "hLljzZt"
    ensures f[m.conversion] in "diouxXfFeEgGaAcCsSpn%"
  {
    hide IsFlagChar, WidthText, PrecisionText, PositionText, WidthSpelled, PrecisionSpelled;
  }

  lemma EndsSizes(c: char)
    requires c in "diouxXfFeEgGaAcCsSpn%"
    ensures !IsSizeChar(c) && IsConversion(c)
  {
  }

  lemma NumberLetters(f: string, p: nat, e: nat, width: Amount)
    requires p <= e <= |f| && f[p..e] == WidthText(width) && WidthSpelled(width) && width.Number?
    ensures forall i :: p <= i < e ==> IsDigit(f[i]) && f[i] != '$'
  {
    assert forall i :: p <= i < e ==> f[i] == f[p..e][i - p];
  }

  /** The position after the `%`: neither flags nor a width are mistaken for one. */
  lemma StartRead(f: string, s: nat, w: Words, m: Landmarks, localized: bool)
    requires StandsAt(f, s, w, m) && Spelled(w, localized)
    ensures AfterPosition(f, m.position) == m.flags && (HasPosition(f, m.position) <==> w.position != "")
    ensures w.position != "" ==> PositionValue(f, m.position) == NumberOf(w.position)
  {
    WordByWord(f, s, w, m, localized);
    Boundaries(f, s, w, m, localized);
    hide StandsAt, Spelled, IsFlagChar, FlagOf, IsSizeChar, HasPosition, DigitsEnd, AfterPosition, PrecisionText, WidthText;
    hide WidthSpelled, PrecisionSpelled, IsDigit;
    FlagLetters(f, m.flags, m.width, localized);
    if w.position != "" {
      PositionFound(f, m.position, m.flags, w.position);
    } else if IsDigit(f[m.width]) {
      NumberLetters(f, m.width, m.precision, w.width);
      NoPosition(f, m.position, m.precision);
    } else {
      NoPosition(f, m.position, m.width);
    }
  }

  /** The landmarks of the parser are those of the words. */
  lemma LandmarksFound(f: string, s: nat, w: Words, m: Landmarks, localized: bool)
    requires StandsAt(f, s, w, m) && Spelled(w, localized)
    ensures Parts(f, s, localized) == m
  {
    hide *;
    WordByWord(f, s, w, m, localized);
    Boundaries(f, s, w, m, localized);
    StartRead(f, s, w, m, localized);
    FlagLetters(f, m.flags, m.width, localized);
    SizeLetters(f, m.sizes, m.conversion);
    FlagChars(f[m.width], localized);
    AtIs(f, m.width);
    EndsSizes(f[m.conversion]);
    FlagRun(f, m.flags, m.width, localized);
    WidthFound(f, m.width, m.precision, w.width);
    PrecisionFound(f, m.precision, m.sizes, w.precision);
    SizesFound(f, m.sizes, m.conversion);
    PartsAre(f, s, localized);
  }

  lemma AtIs(f: string, p: nat)
    requires p < |f|
    ensures At(f, p) == f[p]
  {
  }

  // ---------------------------------------------------------------- every directive has words

  function PositionAt(f: string, p: nat): string
    requires p <= |f|
  {
    if HasPosition(f, p) then f[p..DigitsEnd(f, p)] else ""
  }

  lemma PositionWord(f: string, p: nat)
    requires p <= |f|
    ensures f[p..AfterPosition(f, p)] == PositionText(PositionAt(f, p)) && AreDigits(PositionAt(f, p))
  {
    if HasPosition(f, p) {
      var e := DigitsEnd(f, p);
      assert e > p && f[p..e + 1] == f[p..e] + [f[e]];
    }
  }

  function WidthAt(f: string, p: nat): Amount
    requires p <= |f|
  {
    if At(f, p) == '*' then Star(PositionAt(f, p + 1))
    else if p < AfterWidth(f, p) then Number(f[p..AfterWidth(f, p)])
    else Absent
  }

  function PrecisionAt(f: string, p: nat): Amount
    requires p <= |f|
  {
    if At(f, p) != '.' then Absent
    else if At(f, p + 1) == '*' then Star(PositionAt(f, p + 2))
    else Number(f[p + 1..AfterPrecision(f, p)])
  }

  /** The words of the directive at s. */
  function WordsAt(f: string, s: nat, localized: bool): Words
    requires s < |f| && Parts(f, s, localized).conversion < |f|
  {
    var m := Parts(f, s, localized);
    Words(PositionAt(f, m.position), f[m.flags..m.width], WidthAt(f, m.width), PrecisionAt(f, m.precision),
          f[m.sizes..m.conversion], f[m.conversion])
  }

  lemma {:induction false} FlagsAre(f: string, p: nat, localized: bool)
    requires p <= |f|
    ensures forall i :: p <= i < FlagsEnd(f, p, localized) ==> i < |f| && IsFlagChar(f[i], localized)
    decreases |f| - p
  {
    hide IsFlagChar, FlagOf;
    FlagChars(At(f, p), localized);
    if p < |f| && FlagOf(f[p], localized) != {} {
      FlagsAre(f, p + 1, localized);
      assert FlagsEnd(f, p, localized) == FlagsEnd(f, p + 1, localized);
    } else {
      assert FlagsEnd(f, p, localized) == p;
    }
  }

  lemma {:induction false} SizesAre(f: string, p: nat)
    requires p <= |f|
    ensures forall i :: p <= i < SizesEnd(f, p) ==> f[i] in "hLljzZt"
    decreases |f| - p
  {
    if p < |f| && IsSizeChar(f[p]) {
      SizesAre(f, p + 1);
    }
  }

  lemma WidthWord(f: string, p: nat, localized: bool)
    requires p <= |f| && FlagOf(At(f, p), localized) == {}
    ensures f[p..AfterWidth(f, p)] == WidthText(WidthAt(f, p)) && WidthSpelled(WidthAt(f, p))
  {
    var e := AfterWidth(f, p);
    if At(f, p) == '*' {
      PositionWord(f, p + 1);
      assert f[p..e] == [f[p]] + f[p + 1..e];
    }
  }

  lemma PrecisionWord(f: string, p: nat)
    requires p <= |f|
    ensures f[p..AfterPrecision(f, p)] == PrecisionText(PrecisionAt(f, p)) && PrecisionSpelled(PrecisionAt(f, p))
  {
    var e := AfterPrecision(f, p);
    if At(f, p) == '.' && At(f, p + 1) == '*' {
      PositionWord(f, p + 2);
      assert f[p..e] == [f[p], f[p + 1]] + f[p + 2..e];
    } else if At(f, p) == '.' {
      assert f[p..e] == [f[p]] + f[p + 1..e];
    }
  }

  lemma FlagsWord(f: string, p: nat, localized: bool)
    requires p <= |f|
    ensures forall c :: c in f[p..FlagsEnd(f, p, localized)] ==> IsFlagChar(c, localized)
  {
    FlagsAre(f, p, localized);
    hide FlagsEnd, IsFlagChar;
    var e := FlagsEnd(f, p, localized);
    forall c | c in f[p..e]
      ensures IsFlagChar(c, localized)
    {
      var i :| 0 <= i < e - p && f[p..e][i] == c;
      assert f[p + i] == c;
    }
  }

  lemma SizesWord(f: string, p: nat)
    requires p <= |f|
    ensures forall c :: c in f[p..SizesEnd(f, p)] ==> c in "hLljzZt"
  {
    SizesAre(f, p);
    hide SizesEnd;
    var e := SizesEnd(f, p);
    forall c | c in f[p..e]
      ensures c in "hLljzZt"
    {
      var i :| 0 <= i < e - p && f[p..e][i] == c;
      assert f[p + i] == c;
    }
  }

  /** Words that stand one after the other, each spelled as it should be. */
  lemma Standing(f: string, s: nat, w: Words, m: Landmarks, localized: bool)
    requires s + 1 == m.position <= m.flags <= m.width <= m.precision <= m.sizes <= m.conversion < |f| && f[s] == '%'
    requires f[m.position..m.flags] == PositionText(w.position) && AreDigits(w.position)
    requires f[m.flags..m.width] == w.flags && forall c :: c in w.flags ==> IsFlagChar(c, localized)
    requires f[m.width..m.precision] == WidthText(w.width) && WidthSpelled(w.width)
    requires f[m.precision..m.sizes] == PrecisionText(w.precision) && PrecisionSpelled(w.precision)
    requires f[m.sizes..m.conversion] == w.sizes && forall c :: c in w.sizes ==> c in "hLljzZt"
    requires f[m.conversion] == w.conversion && IsConversion(w.conversion)
    ensures StandsAt(f, s, w, m) && Spelled(w, localized)
  {
    hide IsFlagChar, WidthText, PrecisionText, PositionText, WidthSpelled, PrecisionSpelled, AreDigits;
  }

  lemma WordsAtIs(f: string, s: nat, localized: bool)
    requires s < |f| && Parts(f, s, localized).conversion < |f|
    ensures var m := Parts(f, s, localized);
            WordsAt(f, s, localized)
            == Words(PositionAt(f, m.position), f[m.flags..m.width], WidthAt(f, m.width), PrecisionAt(f, m.precision),
                     f[m.sizes..m.conversion], f[m.conversion])
    ensures FlagOf(At(f, Parts(f, s, localized).width), localized) == {}
  {
    FlagsStop(f, s, localized);
    hide Parts, PositionAt, WidthAt, PrecisionAt, FlagOf;
  }

  /** Whatever the parser takes for a directive is made of such words. */
  lemma WordsFound(f: string, s: nat, localized: bool)
    requires s < |f| && f[s] == '%'
    requires Parts(f, s, localized).conversion < |f| && IsConversion(f[Parts(f, s, localized).conversion])
    ensures StandsAt(f, s, WordsAt(f, s, localized), Parts(f, s, localized)) && Spelled(WordsAt(f, s, localized), localized)
  {
    hide *;
    var m, w := Parts(f, s, localized), WordsAt(f, s, localized);
    WordsAtIs(f, s, localized);
    PartsAre(f, s, localized);
    PositionWord(f, m.position);
    FlagsWord(f, m.flags, localized);
    WidthWord(f, m.width, localized);
    PrecisionWord(f, m.precision);
    SizesWord(f, m.sizes);
    Standing(f, s, w, m, localized);
  }

  // ---------------------------------------------------------------- what the words say

  /** The argument of a star: the one of its position, counted from 1, or the next in sequence. */
  function StarArgument(amount: Amount, posn: nat): int {
    match amount
    case Star(position) => if position == "" then posn else NumberOf(position) - 1
    case _ => ARG_NONE
  }

  function TakenInSequence(amount: Amount): nat {
    if amount == Star("") then 1 else 0
  }

  /** Which characters are kept as the width: all of the digits, or the star alone. */
  function WidthSpanOf(width: Amount, p: nat, e: nat): Span {
    match width
    case Absent => NoSpan
    case Number(_) => Span(p, e)
    case Star(_) => Span(p, p + 1)
  }

  function PrecisionSpanOf(precision: Amount, p: nat, e: nat): Span {
    match precision
    case Absent => NoSpan
    case Number(_) => Span(p, e)
    case Star(_) => Span(p, p + 2)
  }

  /** dp is what the words w at s say, posn arguments having been taken in sequence before. */
  ghost predicate Says(s: nat, w: Words, m: Landmarks, localized: bool, posn: nat, dp: Directive) {
    var before := posn + TakenInSequence(w.width);
    && dp.dirStart == s && dp.dirEnd == m.conversion + 1
    && (forall flag: Flag :: flag in dp.flags <==> CharOf(flag) in w.flags && (flag == Localized ==> localized))
    && dp.width == WidthSpanOf(w.width, m.width, m.precision)
    && dp.precision == PrecisionSpanOf(w.precision, m.precision, m.sizes)
    && dp.widthArg == StarArgument(w.width, posn) && dp.precisionArg == StarArgument(w.precision, before)
    && dp.conversion == (if w.conversion == 'C' then 'c' else if w.conversion == 'S' then 's' else w.conversion)
    && dp.argIndex == (if w.conversion == '%' then ARG_NONE
                       else if w.position != "" then NumberOf(w.position) - 1
                       else before + TakenInSequence(w.precision))
    && (w.width.Star? ==> dp.widthArg != ARG_NONE) && (w.precision.Star? ==> dp.precisionArg != ARG_NONE)
    && (w.conversion != '%' ==> dp.argIndex != ARG_NONE)
  }

  lemma FlagsSaid(f: string, p: nat, e: nat, localized: bool, flags: set<Flag>)
    requires p <= e <= |f|
    ensures flags == FlagsIn(f, p, e, localized) <==>
            forall flag: Flag :: flag in flags <==> CharOf(flag) in f[p..e] && (flag == Localized ==> localized)
  {
    forall flag: Flag
      ensures flag in FlagsIn(f, p, e, localized) <==> CharOf(flag) in f[p..e] && (flag == Localized ==> localized)
    {
      FlagMembers(f, p, e, localized, flag);
    }
    hide FlagsIn, CharOf;
  }

  lemma WidthSaid(f: string, p: nat, e: nat, width: Amount, posn: nat)
    requires p <= e < |f| && f[p..e] == WidthText(width) && !IsDigit(f[e]) && f[e] != '*' && WidthSpelled(width)
    ensures WidthSpan(f, p) == WidthSpanOf(width, p, e) && WidthTakes(f, p) == TakenInSequence(width)
    ensures StarWidth(f, p) <==> width.Star?
    ensures (if StarWidth(f, p) then IndexAt(f, p + 1, posn) else ARG_NONE) == StarArgument(width, posn)
  {
    WidthFound(f, p, e, width);
    hide WidthText, IsDigit, WidthSpelled, HasPosition, PositionValue, NumberOf, WidthSpan, StarWidth;
  }

  lemma PrecisionSaid(f: string, p: nat, e: nat, precision: Amount, posn: nat)
    requires p <= e < |f| && f[p..e] == PrecisionText(precision) && !IsDigit(f[e]) && f[e] != '*' && f[e] != '.'
    requires PrecisionSpelled(precision)
    ensures PrecisionSpan(f, p) == PrecisionSpanOf(precision, p, e) && PrecisionTakes(f, p) == TakenInSequence(precision)
    ensures StarPrecision(f, p) <==> precision.Star?
    ensures (if StarPrecision(f, p) then IndexAt(f, p + 2, posn) else ARG_NONE) == StarArgument(precision, posn)
  {
    PrecisionFound(f, p, e, precision);
    hide PrecisionText, IsDigit, PrecisionSpelled, HasPosition, PositionValue, NumberOf, PrecisionSpan, StarPrecision;
  }

  lemma ValueSaid(f: string, s: nat, w: Words, m: Landmarks, localized: bool, posn: nat)
    requires StandsAt(f, s, w, m) && Spelled(w, localized)
    ensures IndexAt(f, m.position, posn) == if w.position != "" then NumberOf(w.position) - 1 else posn
  {
    StartRead(f, s, w, m, localized);
    hide Spelled, HasPosition, PositionValue, NumberOf;
  }

  lemma WordsAre(f: string, s: nat, w: Words, m: Landmarks)
    requires StandsAt(f, s, w, m)
    ensures s < m.conversion < |f| && f[s] == '%' && f[m.flags..m.width] == w.flags && f[m.conversion] == w.conversion
    ensures s == m.position - 1
  {
    hide PositionText, WidthText, PrecisionText;
  }

  /** A directive of the parser is exactly what its words say. */
  lemma DirectiveSays(f: string, s: nat, w: Words, m: Landmarks, localized: bool, posn: nat, dp: Directive)
    requires StandsAt(f, s, w, m) && Spelled(w, localized)
    ensures Describes(f, s, localized, posn, dp) <==> Says(s, w, m, localized, posn, dp)
  {
    hide StandsAt, Parts, Spelled, FlagsIn, CharOf, WidthSpan, PrecisionSpan, StarWidth, StarPrecision, IndexAt, WidthTakes;
    hide PrecisionTakes, TakenInSequence, StarArgument, IsConversion, NumberOf, PositionText, WidthText, PrecisionText;
    hide WidthSpelled, PrecisionSpelled, IsFlagChar, IsSizeChar, WidthSpanOf, PrecisionSpanOf, IsDigit;
    var before := posn + TakenInSequence(w.width);
    LandmarksFound(f, s, w, m, localized);
    WordByWord(f, s, w, m, localized);
    WordsAre(f, s, w, m);
    Boundaries(f, s, w, m, localized);
    EndsSizes(f[m.conversion]);
    WidthSaid(f, m.width, m.precision, w.width, posn);
    PrecisionSaid(f, m.precision, m.sizes, w.precision, before);
    ValueSaid(f, s, w, m, localized, before + TakenInSequence(w.precision));
    FlagsSaid(f, m.flags, m.width, localized, dp.flags);
  }

  /** The parser reads a directive at s exactly if words stand there, and then it is what they say. */
  lemma ReadsWhatIsWritten(f: string, s: nat, localized: bool, posn: nat, dp: Directive)
    requires s < |f|
    ensures Describes(f, s, localized, posn, dp) <==>
            exists w: Words, m: Landmarks ::
              StandsAt(f, s, w, m) && Spelled(w, localized) && Says(s, w, m, localized, posn, dp)
  {
    if Describes(f, s, localized, posn, dp) {
      WordsFound(f, s, localized);
      DirectiveSays(f, s, WordsAt(f, s, localized), Parts(f, s, localized), localized, posn, dp);
    }
    if w: Words, m: Landmarks :| StandsAt(f, s, w, m) && Spelled(w, localized) && Says(s, w, m, localized, posn, dp) {
      DirectiveSays(f, s, w, m, localized, posn, dp);
    }
  }

  // ---------------------------------------------------------------- the type of the argument

  /** How wide the size says the argument is: by its letters, whatever their order. */
  datatype Length = Plain | Char | Short | Long | LongLong

  /** The specifiers that are as wide as `long` where this is built: l, j, z, Z, t. */
  function Longs(sizes: string): nat {
    var b := multiset(sizes);
    b['l'] + b['j'] + b['z'] + b['Z'] + b['t']
  }

  function LengthOf(sizes: string): Length {
    if Longs(sizes) >= 2 || 'L' in sizes then LongLong
    else if Longs(sizes) == 1 then Long
    else if multiset(sizes)['h'] >= 2 then Char
    else if multiset(sizes)['h'] == 1 then Short
    else Plain
  }

  /** The conversion decides the kind of the argument, the size its width. */
  function TypeOfWords(sizes: string, conversion: char): ArgType {
    KindOfType(LengthOf(sizes), Longs(sizes) > 0, conversion)
  }

  function KindOfType(long: Length, wide: bool, conversion: char): ArgType {
    match conversion
    case 'd' | 'i' =>
      (match long case LongLong => LONGLONGINT case Long => LONGINT case Char => SCHAR case Short => SHORT
                  case Plain => INT)
    case 'o' | 'u' | 'x' | 'X' =>
      (match long case LongLong => ULONGLONGINT case Long => ULONGINT case Char => UCHAR case Short => USHORT
                  case Plain => UINT)
    case 'f' | 'F' | 'e' | 'E' | 'g' | 'G' | 'a' | 'A' => if long == LongLong then LONGDOUBLE else DOUBLE
    case 'c' => if wide then WIDE_CHAR else CHAR
    case 'C' => WIDE_CHAR
    case 's' => if wide then WIDE_STRING else STRING
    case 'S' => WIDE_STRING
    case 'p' => VOID_POINTER
    case 'n' =>
      (match long case LongLong => COUNT_LONGLONGINT_POINTER case Long => COUNT_LONGINT_POINTER
                  case Char => COUNT_SCHAR_POINTER case Short => COUNT_SHORT_POINTER case Plain => COUNT_INT_POINTER)
    case _ => NONE
  }

  /** The documented sizes. */
  lemma LengthTable()
    ensures LengthOf("") == Plain && LengthOf("h") == Short && LengthOf("hh") == Char
    ensures LengthOf("l") == Long && LengthOf("ll") == LongLong && LengthOf("L") == LongLong
    ensures LengthOf("j") == Long && LengthOf("z") == Long && LengthOf("t") == Long
    ensures Longs("") == 0 && Longs("h") == 0 && Longs("hh") == 0 && Longs("L") == 0
    ensures Longs("l") == 1 && Longs("ll") == 2
  {
  }

  /** Integers, signed and unsigned, and counts of characters written. */
  lemma IntegerTable()
    ensures TypeOfWords("", 'd') == INT && TypeOfWords("hh", 'i') == SCHAR && TypeOfWords("h", 'd') == SHORT
    ensures TypeOfWords("l", 'd') == LONGINT && TypeOfWords("ll", 'i') == LONGLONGINT
    ensures TypeOfWords("", 'u') == UINT && TypeOfWords("hh", 'x') == UCHAR && TypeOfWords("h", 'o') == USHORT
    ensures TypeOfWords("z", 'u') == ULONGINT && TypeOfWords("ll", 'X') == ULONGLONGINT
    ensures TypeOfWords("", 'n') == COUNT_INT_POINTER && TypeOfWords("hh", 'n') == COUNT_SCHAR_POINTER
    ensures TypeOfWords("h", 'n') == COUNT_SHORT_POINTER && TypeOfWords("l", 'n') == COUNT_LONGINT_POINTER
    ensures TypeOfWords("ll", 'n') == COUNT_LONGLONGINT_POINTER
  {
    LengthTable();
    hide LengthOf, Longs;
  }

  /** Everything else. */
  lemma OtherTable()
    ensures TypeOfWords("", 'f') == DOUBLE && TypeOfWords("L", 'g') == LONGDOUBLE && TypeOfWords("l", 'e') == DOUBLE
    ensures TypeOfWords("", 'c') == CHAR && TypeOfWords("l", 'c') == WIDE_CHAR && TypeOfWords("", 'C') == WIDE_CHAR
    ensures TypeOfWords("", 's') == STRING && TypeOfWords("l", 's') == WIDE_STRING && TypeOfWords("", 'S') == WIDE_STRING
    ensures TypeOfWords("", 'p') == VOID_POINTER && TypeOfWords("", '%') == NONE
  {
    LengthTable();
    hide LengthOf, Longs;
  }

  function BigBit(sizes: string): (b: nat)
    ensures b <= 1
  {
    if 'L' in sizes then 1 else 0
  }

  function SmallBits(sizes: string): (b: nat)
    ensures b == 0 || b == 1 || b == 3
  {
    if multiset(sizes)['h'] >= 2 then 3 else if multiset(sizes)['h'] == 1 then 1 else 0
  }

  /** The parser's sum of bits for these letters. */
  predicate SumIs(flags: nat, sizes: string) {
    flags == 8 * Longs(sizes) + 4 * BigBit(sizes) + SmallBits(sizes)
  }

  lemma SumOfNone()
    ensures SumIs(0, "")
  {
  }

  /** The sum of bits that the parser keeps is that of the letters. */
  lemma {:induction false} SizesSum(f: string, p: nat, e: nat)
    requires p <= e <= |f| && forall i :: p <= i < e ==> IsSizeChar(f[i])
    ensures SumIs(SizeFlags(f, p, e), f[p..e])
    decreases e
  {
    hide SumIs, IsSizeChar, SizeStep;
    if p < e {
      SizesSum(f, p, e - 1);
      assert f[p..e] == f[p..e - 1] + [f[e - 1]];
      SizesStep(f[p..e - 1], f[e - 1], SizeFlags(f, p, e - 1));
    } else {
      assert f[p..e] == "";
      SumOfNone();
    }
  }

  lemma SizesStep(t: string, c: char, flags: nat)
    requires IsSizeChar(c) && SumIs(flags, t)
    ensures SumIs(SizeStep(flags, c), t + [c])
  {
    assert multiset(t + [c]) == multiset(t) + multiset{c};
    BitsOf(Longs(t), BigBit(t), SmallBits(t));
    hide Longs;
    LongsStep(t, c);
  }

  lemma LongsStep(t: string, c: char)
    ensures Longs(t + [c]) == Longs(t) + if c in "ljzZt" then 1 else 0
  {
    assert multiset(t + [c]) == multiset(t) + multiset{c};
  }

  lemma BitsOf(n: nat, big: nat, small: nat)
    requires big <= 1 && small <= 3 && small != 2
    ensures var flags := 8 * n + 4 * big + small;
            && (HasBit(flags, 1) <==> small != 0) && (HasBit(flags, 2) <==> small == 3) && (HasBit(flags, 4) <==> big == 1)
  {
    var flags := 8 * n + 4 * big + small;
    assert flags / 4 == 2 * n + big && flags / 2 == 4 * n + 2 * big + small / 2;
  }

  lemma LetterGroups(c: char)
    ensures c in "di" <==> c == 'd' || c == 'i'
    ensures c in "ouxX" <==> c == 'o' || c == 'u' || c == 'x' || c == 'X'
    ensures c in "fFeEgGaA" <==>
            c == 'f' || c == 'F' || c == 'e' || c == 'E' || c == 'g' || c == 'G' || c == 'a' || c == 'A'
  {
  }

  /** What the parser's case analysis on the bits comes to. */
  lemma BitsDecide(n: nat, big: nat, small: nat, c: char)
    requires big <= 1 && small <= 3 && small != 2
    ensures var long := if n >= 2 || big == 1 then LongLong else if n == 1 then Long else if small == 3 then Char
                        else if small == 1 then Short else Plain;
            TypeOf(8 * n + 4 * big + small, c) == KindOfType(long, n > 0, c)
  {
    BitsOf(n, big, small);
    LetterGroups(c);
    hide HasBit;
  }

  lemma LengthByBits(t: string)
    ensures LengthOf(t) == if Longs(t) >= 2 || BigBit(t) == 1 then LongLong else if Longs(t) == 1 then Long
                           else if SmallBits(t) == 3 then Char else if SmallBits(t) == 1 then Short else Plain
  {
    hide Longs;
  }

  /** So the type is the one the words name. */
  lemma TypeIsOfWords(f: string, p: nat, e: nat, c: char)
    requires p <= e <= |f| && forall i :: p <= i < e ==> IsSizeChar(f[i])
    ensures TypeOf(SizeFlags(f, p, e), c) == TypeOfWords(f[p..e], c)
  {
    hide *;
    var t := f[p..e];
    SizesSum(f, p, e);
    SumDecides(SizeFlags(f, p, e), t, c);
  }

  lemma SumDecides(flags: nat, t: string, c: char)
    requires SumIs(flags, t)
    ensures TypeOf(flags, c) == TypeOfWords(t, c)
  {
    hide Longs, BigBit, SmallBits, LengthOf, TypeOf, KindOfType;
    LengthByBits(t);
    BitsDecide(Longs(t), BigBit(t), SmallBits(t), c);
  }

  /** The type registered for the value of a directive is the one its words name. */
  lemma ValueTypeSaid(f: string, s: nat, w: Words, m: Landmarks, localized: bool)
    requires StandsAt(f, s, w, m) && Spelled(w, localized)
    ensures Parts(f, s, localized) == m && ValueType(f, m) == TypeOfWords(w.sizes, w.conversion)
  {
    LandmarksFound(f, s, w, m, localized);
    WordByWord(f, s, w, m, localized);
    hide Parts, Spelled, TypeOfWords, PositionText, WidthText, PrecisionText, TypeOf, SizeFlags, IsFlagChar, IsSizeChar;
    SizeLetters(f, m.sizes, m.conversion);
    TypeIsOfWords(f, m.sizes, m.conversion, f[m.conversion]);
  }

  /** After parsing, every directive's argument has the type its words name, and every star's is an int. */
  lemma TypesRegistered(f: string, localized: bool, dirs: seq<Directive>, types: seq<ArgType>, k: nat, w: Words,
                        m: Landmarks)
    requires AllReserved(f, localized, dirs, types) && k < |dirs|
    requires StandsAt(f, dirs[k].dirStart, w, m) && Spelled(w, localized)
    ensures var dp := dirs[k];
            && (dp.argIndex != ARG_NONE ==>
                  dp.argIndex < |types| && types[dp.argIndex] == TypeOfWords(w.sizes, w.conversion))
            && (dp.widthArg != ARG_NONE ==> dp.widthArg < |types| && types[dp.widthArg] == INT)
            && (dp.precisionArg != ARG_NONE ==> dp.precisionArg < |types| && types[dp.precisionArg] == INT)
  {
    ValueTypeSaid(f, dirs[k].dirStart, w, m, localized);
    hide Parts, ValueType, TypeOfWords, StandsAt, Spelled;
    assert Reserved(f, localized, dirs[k], types);
  }

  // ---------------------------------------------------------------- the whole format string

  /** Plain texts with directives between them. */
  function FormatText(plain: seq<string>, words: seq<Words>): string
    requires |plain| == |words| + 1
    decreases |words|
  {
    if |words| == 0 then plain[0]
    else
      var n := |words| - 1;
      FormatText(plain[..n + 1], words[..n]) + DirectiveText(words[n]) + plain[n + 1]
  }

  function TakenByWords(w: Words): nat {
    TakenInSequence(w.width) + TakenInSequence(w.precision) + if w.conversion != '%' && w.position == "" then 1 else 0
  }

  /** The directives are what the words say, one after the other, each where its words stand; posn arguments are taken
      in sequence. */
  ghost predicate SaidBy(f: string, localized: bool, plain: seq<string>, words: seq<Words>, dirs: seq<Directive>,
                         posn: int)
    requires |plain| == |words| + 1
    decreases |words|
  {
    && |dirs| == |words|
    && if |words| == 0 then posn == 0
       else
         var n := |words| - 1;
         var before := posn - TakenByWords(words[n]);
         && before >= 0 && dirs[n].dirStart == |FormatText(plain[..n + 1], words[..n])| < |f|
         && Says(dirs[n].dirStart, words[n], Parts(f, dirs[n].dirStart, localized), localized, before, dirs[n])
         && SaidBy(f, localized, plain[..n + 1], words[..n], dirs[..n], before)
  }

  lemma TakesByWords(f: string, s: nat, w: Words, m: Landmarks, localized: bool)
    requires StandsAt(f, s, w, m) && Spelled(w, localized) && s < |f|
    ensures Parts(f, s, localized) == m && m.conversion < |f|
    ensures Takes(f, s, localized) == TakenByWords(w)
  {
    hide *;
    LandmarksFound(f, s, w, m, localized);
    WordByWord(f, s, w, m, localized);
    WordsAre(f, s, w, m);
    Boundaries(f, s, w, m, localized);
    StartRead(f, s, w, m, localized);
    WidthSaid(f, m.width, m.precision, w.width, 0);
    PrecisionSaid(f, m.precision, m.sizes, w.precision, 0);
    TakesIs(f, s, w, m, localized);
  }

  lemma TakesIs(f: string, s: nat, w: Words, m: Landmarks, localized: bool)
    requires s < |f| && Parts(f, s, localized) == m && m.conversion < |f| && f[m.conversion] == w.conversion
    requires HasPosition(f, m.position) <==> w.position != ""
    requires WidthTakes(f, m.width) == TakenInSequence(w.width)
    requires PrecisionTakes(f, m.precision) == TakenInSequence(w.precision)
    ensures Takes(f, s, localized) == TakenByWords(w)
  {
    hide Parts, HasPosition, WidthTakes, PrecisionTakes, TakenInSequence;
  }

  lemma ParsedUnfold(f: string, localized: bool, dirs: seq<Directive>, cp: nat, posn: int)
    requires Parsed(f, localized, dirs, cp, posn) && cp <= |f|
    ensures |dirs| == 0 ==> posn == 0 && '%' !in f[..cp]
    ensures |dirs| > 0 ==>
      var dp := dirs[|dirs| - 1];
      && dp.dirStart < |f| && Parts(f, dp.dirStart, localized).conversion < |f| && dp.dirEnd <= cp
      && posn - Takes(f, dp.dirStart, localized) >= 0
      && Parsed(f, localized, dirs[..|dirs| - 1], dp.dirStart, posn - Takes(f, dp.dirStart, localized))
      && Describes(f, dp.dirStart, localized, posn - Takes(f, dp.dirStart, localized), dp)
      && '%' !in f[dp.dirEnd..cp]
  {
    hide Parts, Takes, Describes;
  }

  lemma NothingSaid(f: string, localized: bool, plain: seq<string>, dirs: seq<Directive>, posn: int)
    requires |plain| == 1 && dirs == [] && posn == 0
    ensures SaidBy(f, localized, plain, [], dirs, posn) && FormatText(plain, []) == plain[0]
  {
  }

  /** One directive more, and the plain text behind it. */
  lemma OneMoreSaid(f: string, localized: bool, plain: seq<string>, words: seq<Words>, dirs: seq<Directive>, before: nat,
                    w: Words, m: Landmarks, last: string)
    requires |plain| == |words| + 1 == |dirs|
    requires var dp := dirs[|dirs| - 1];
             && SaidBy(f, localized, plain, words, dirs[..|dirs| - 1], before)
             && dp.dirStart == |FormatText(plain, words)| < |f| && Parts(f, dp.dirStart, localized) == m
             && Says(dp.dirStart, w, m, localized, before, dp)
    ensures SaidBy(f, localized, plain + [last], words + [w], dirs, before + TakenByWords(w))
    ensures FormatText(plain + [last], words + [w]) == FormatText(plain, words) + DirectiveText(w) + last
  {
    hide Says, Parts, TakenByWords, DirectiveText;
    var n := |words|;
    assert (plain + [last])[..n + 1] == plain && (words + [w])[..n] == words;
  }

  lemma EndSaid(s: nat, w: Words, m: Landmarks, localized: bool, posn: nat, dp: Directive)
    requires Says(s, w, m, localized, posn, dp)
    ensures dp.dirStart == s && dp.dirEnd == m.conversion + 1
  {
    hide CharOf, WidthSpanOf, PrecisionSpanOf, StarArgument, TakenInSequence, NumberOf;
  }

  /** What the parser has taken for the directives of a text, and the plain texts between them, make up the text. */
  lemma {:induction false} TextOfDirectives(f: string, localized: bool, dirs: seq<Directive>, cp: nat, posn: int)
    returns (plain: seq<string>, words: seq<Words>)
    requires Parsed(f, localized, dirs, cp, posn) && cp <= |f|
    ensures |plain| == |words| + 1 == |dirs| + 1 && f[..cp] == FormatText(plain, words)
    ensures forall k :: 0 <= k < |plain| ==> '%' !in plain[k]
    ensures forall k :: 0 <= k < |words| ==> Spelled(words[k], localized)
    ensures SaidBy(f, localized, plain, words, dirs, posn)
    decreases |dirs|
  {
    hide *;
    ParsedUnfold(f, localized, dirs, cp, posn);
    if |dirs| == 0 {
      plain, words := [f[..cp]], [];
      NothingSaid(f, localized, plain, dirs, posn);
    } else {
      var n := |dirs| - 1;
      var dp := dirs[n];
      var s, before := dp.dirStart, posn - Takes(f, dp.dirStart, localized);
      var plain', words' := TextOfDirectives(f, localized, dirs[..n], s, before);
      ReadsWhatIsWritten(f, s, localized, before, dp);
      var w: Words, m: Landmarks :|
        StandsAt(f, s, w, m) && Spelled(w, localized) && Says(s, w, m, localized, before, dp);
      TakesByWords(f, s, w, m, localized);
      StandsAsText(f, s, w, m);
      EndSaid(s, w, m, localized, before, dp);
      plain, words := plain' + [f[m.conversion + 1..cp]], words' + [w];
      assert f[..cp] == f[..s] + f[s..m.conversion + 1] + f[m.conversion + 1..cp];
      OneMoreSaid(f, localized, plain', words', dirs, before, w, m, f[m.conversion + 1..cp]);
    }
  }
}
