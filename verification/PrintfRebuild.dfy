/** The directive that vasnprintf.c rebuilds for the system's snprintf, and the checks around it. */
module PrintfRebuild {
  import opened DecimalDigits
  import opened PrintfSyntax
  import opened PrintfParse

  /** How the file is configured. localized: glibc, which has the `I` flag. countSuffix: `%n` is appended, neither
      glibc 2.3 nor Windows. windows: `I64` for `long long`. keepGroup: the system knows the `'` flag. lowerF: the
      system does not know `F`. */
  datatype Config = Config(localized: bool, countSuffix: bool, windows: bool, keepGroup: bool, lowerF: bool)

  // ---------------------------------------------------------------- the text

  function Only(b: bool, c: char): string {
    if b then [c] else []
  }

  function FlagText(flags: set<Flag>, cfg: Config, pad: bool): string {
    Only(Group in flags && cfg.keepGroup, '\'') + Only(Left in flags, '-') + Only(ShowSign in flags, '+')
    + Only(Space in flags, ' ') + Only(Alt in flags, '#') + Only(Localized in flags && cfg.localized, 'I')
    + Only(Zero in flags && !pad, '0')
  }

  function SpanText(f: string, span: Span, omit: bool): string
    requires span.Span? ==> span.start <= span.end <= |f|
  {
    if omit || span.NoSpan? then "" else f[span.start..span.end]
  }

  function SizeText(t: ArgType, windows: bool): string {
    match t
    case LONGLONGINT | ULONGLONGINT => if windows then "I64" else "ll"
    case LONGINT | ULONGINT | WIDE_CHAR | WIDE_STRING => "l"
    case LONGDOUBLE => "L"
    case _ => ""
  }

  function ConversionText(c: char, cfg: Config): char {
    if c == 'F' && cfg.lowerF then 'f' else c
  }

  function Suffix(cfg: Config): string {
    if cfg.countSuffix then "%n" else ""
  }

  /** The spans of dp lie in f. */
  predicate InText(f: string, dp: Directive) {
    && (dp.width.Span? ==> dp.width.start <= dp.width.end <= |f|)
    && (dp.precision.Span? ==> dp.precision.start <= dp.precision.end <= |f|)
  }

  function Rebuilt(f: string, dp: Directive, flags: set<Flag>, t: ArgType, cfg: Config, pad: bool, prec: bool): string
    requires InText(f, dp)
  {
    "%" + FlagText(flags, cfg, pad) + SpanText(f, dp.width, pad) + SpanText(f, dp.precision, prec)
    + SizeText(t, cfg.windows) + [ConversionText(dp.conversion, cfg)]
  }

  // ---------------------------------------------------------------- room in the buffer

  /** `xsum4 (7, max_width_length, max_precision_length, 6)`. */
  function NeededLength(maxWidth: Size, maxPrecision: Size): Size {
    Xsum(Xsum(Xsum(7, maxWidth), maxPrecision), 6)
  }

  lemma NeededIsSum(maxWidth: Size, maxPrecision: Size)
    ensures NeededLength(maxWidth, maxPrecision) == Saturated(13 + maxWidth + maxPrecision)
  {
    hide Xsum;
    XsumSaturates(7, maxWidth);
    XsumSaturates(7 + maxWidth, maxPrecision);
    XsumSaturates(7 + maxWidth + maxPrecision, 6);
  }

  /** The characters written, with the terminating null character. */
  function Written(f: string, dp: Directive, flags: set<Flag>, t: ArgType, cfg: Config, pad: bool, prec: bool): nat
    requires InText(f, dp)
  {
    |Rebuilt(f, dp, flags, t, cfg, pad, prec)| + |Suffix(cfg)| + 1
  }

  function One(b: bool): nat {
    if b then 1 else 0
  }

  /** The configurations for which 7 + 6 is enough beside width and precision: of the `'` flag, the `I` flag and `I64`
      three may be enabled without `%n`, and only one with it. */
  predicate EnoughRoom(cfg: Config) {
    One(cfg.keepGroup) + One(cfg.localized) + One(cfg.windows) + 2 * One(cfg.countSuffix) <= 3
  }

  lemma TextLengths(flags: set<Flag>, t: ArgType, cfg: Config, pad: bool)
    ensures |FlagText(flags, cfg, pad)| <= 5 + One(cfg.keepGroup) + One(cfg.localized)
    ensures |SizeText(t, cfg.windows)| <= 2 + One(cfg.windows)
  {
  }

  /** In those configurations every directive fits. */
  lemma Fits(f: string, dp: Directive, flags: set<Flag>, t: ArgType, cfg: Config, pad: bool, prec: bool,
             maxWidth: nat, maxPrecision: nat)
    requires InText(f, dp) && dp.width.Length() <= maxWidth && dp.precision.Length() <= maxPrecision
    requires EnoughRoom(cfg)
    ensures Written(f, dp, flags, t, cfg, pad, prec) <= 13 + maxWidth + maxPrecision
  {
    TextLengths(flags, t, cfg, pad);
    hide FlagText;
    hide SizeText;
  }

  /** Either the `I` flag or the `%n` suffix, but not both, is such a configuration. */
  lemma NotBothFits(cfg: Config)
    requires !cfg.windows && !(cfg.localized && cfg.countSuffix)
    ensures EnoughRoom(cfg)
  {
  }

  /** A format string with all the flags and the longest size specifier. */
  function Crowded(localized: bool): string {
    if localized then "%0'-+ #Illd" else "%0'-+ #lld"
  }

  function CrowdedDirective(localized: bool): Directive {
    var flags := {Zero, Group, Left, ShowSign, Space, Alt} + if localized then {Localized} else {};
    Directive(0, |Crowded(localized)|, flags, NoSpan, ARG_NONE, NoSpan, ARG_NONE, 'd', 0)
  }

  lemma CrowdedFlags(f: string, localized: bool, e: nat)
    requires f == Crowded(localized) && e == if localized then 8 else 7
    ensures FlagsEnd(f, 1, localized) == e
    ensures FlagsIn(f, 1, e, localized) == CrowdedDirective(localized).flags
  {
    assert FlagsEnd(f, e, localized) == e;
    assert FlagsEnd(f, 7, localized) == e;
    assert FlagsEnd(f, 6, localized) == FlagsEnd(f, 5, localized) == FlagsEnd(f, 4, localized) == e;
    assert FlagsEnd(f, 3, localized) == FlagsEnd(f, 2, localized) == e;
    assert FlagsIn(f, 1, 3, localized) == {Zero, Group};
    assert FlagsIn(f, 1, 5, localized) == {Zero, Group, Left, ShowSign};
    assert FlagsIn(f, 1, 7, localized) == {Zero, Group, Left, ShowSign, Space, Alt};
  }

  lemma CrowdedSizes(f: string, localized: bool, p: nat)
    requires f == Crowded(localized) && p == if localized then 8 else 7
    ensures SizesEnd(f, p) == p + 2 && SizeFlags(f, p, p + 2) == 16 && f[p + 2] == 'd' && |f| == p + 3
  {
    assert SizesEnd(f, p + 2) == p + 2;
    assert SizesEnd(f, p + 1) == p + 2;
    assert SizeFlags(f, p, p + 1) == 8;
  }

  lemma CrowdedIsDirective(localized: bool)
    ensures var f := Crowded(localized);
            && Describes(f, 0, localized, 0, CrowdedDirective(localized))
            && ValueType(f, Parts(f, 0, localized)) == LONGLONGINT
  {
    var f := Crowded(localized);
    var p := if localized then 8 else 7;
    CrowdedFlags(f, localized, p);
    CrowdedSizes(f, localized, p);
    hide FlagsEnd, FlagsIn, SizesEnd, SizeFlags;
    assert !HasPosition(f, 1) by {
      assert DigitsEnd(f, 2) == 2;
      assert DigitsEnd(f, 1) == 2;
    }
    assert AfterPosition(f, 1) == 1;
    assert DigitsEnd(f, p) == p;
    assert Parts(f, 0, localized) == Landmarks(1, 1, p, p, p, p + 2);
  }

  lemma CrowdedLength(cfg: Config)
    ensures Written(Crowded(cfg.localized), CrowdedDirective(cfg.localized), CrowdedDirective(cfg.localized).flags,
                    LONGLONGINT, cfg, false, false)
         == 10 + One(cfg.keepGroup) + One(cfg.localized) + One(cfg.windows) + 2 * One(cfg.countSuffix)
  {
  }

  /** The buffer is large enough for every directive exactly in those configurations. */
  lemma BufferIsEnoughIff(cfg: Config)
    ensures EnoughRoom(cfg) <==>
            forall f: string, s: nat, posn: nat, dp: Directive, flags: set<Flag>, pad: bool, prec: bool ::
              s < |f| && Describes(f, s, cfg.localized, posn, dp) && InText(f, dp) ==>
                Written(f, dp, flags, ValueType(f, Parts(f, s, cfg.localized)), cfg, pad, prec)
                <= 13 + dp.width.Length() + dp.precision.Length()
  {
    hide Describes;
    hide Written;
    hide ValueType;
    hide Parts;
    if EnoughRoom(cfg) {
      forall f: string, s: nat, posn: nat, dp: Directive, flags: set<Flag>, pad: bool, prec: bool
        | s < |f| && Describes(f, s, cfg.localized, posn, dp) && InText(f, dp)
        ensures Parts(f, s, cfg.localized).conversion < |f|
        ensures Written(f, dp, flags, ValueType(f, Parts(f, s, cfg.localized)), cfg, pad, prec)
                <= 13 + dp.width.Length() + dp.precision.Length()
      {
        DescribesText(f, s, cfg.localized, posn, dp);
        Fits(f, dp, flags, ValueType(f, Parts(f, s, cfg.localized)), cfg, pad, prec,
             dp.width.Length(), dp.precision.Length());
      }
    } else {
      CrowdedIsDirective(cfg.localized);
      CrowdedLength(cfg);
    }
  }

  // ---------------------------------------------------------------- reading the rebuilt directive

  /** How the default argument promotions pass an argument of this type. */
  function Promoted(t: ArgType): ArgType {
    match t
    case SCHAR | SHORT => INT
    case UCHAR | USHORT => UINT
    case _ => t
  }

  /** Where the parts of the rebuilt directive begin. */
  datatype Layout = Layout(width: nat, precision: nat, sizes: nat, conversion: nat)

  function LayoutOf(f: string, dp: Directive, flags: set<Flag>, t: ArgType, cfg: Config, pad: bool, prec: bool): Layout
    requires InText(f, dp)
  {
    var p2 := 1 + |FlagText(flags, cfg, pad)|;
    var p3 := p2 + |SpanText(f, dp.width, pad)|;
    var p4 := p3 + |SpanText(f, dp.precision, prec)|;
    Layout(p2, p3, p4, p4 + |SizeText(t, cfg.windows)|)
  }

  /** g is the text of the parts, one after the other. */
  ghost predicate LaidOut(g: string, y: Layout, flags: string, width: string, precision: string, sizes: string, c: char) {
    && 1 <= y.width <= y.precision <= y.sizes <= y.conversion < |g|
    && g[0] == '%' && g[1..y.width] == flags && g[y.width..y.precision] == width
    && g[y.precision..y.sizes] == precision && g[y.sizes..y.conversion] == sizes && g[y.conversion] == c
  }

  lemma PartsLaidOut(flags: string, width: string, precision: string, sizes: string, c: char, suffix: string)
    ensures var p2 := 1 + |flags|;
            var p3 := p2 + |width|;
            var p4 := p3 + |precision|;
            LaidOut("%" + flags + width + precision + sizes + [c] + suffix, Layout(p2, p3, p4, p4 + |sizes|),
                    flags, width, precision, sizes, c)
  {
    var a := "%" + flags;
    var b := a + width;
    var d := b + precision;
    var e := d + sizes;
    var g := e + [c] + suffix;
    assert g[..|a|] == a && g[..|b|] == b && g[..|d|] == d && g[..|e|] == e;
    assert g[1..|a|] == a[1..] == flags;
    assert g[|a|..|b|] == b[|a|..] == width;
    assert g[|b|..|d|] == d[|b|..] == precision;
    assert g[|d|..|e|] == e[|d|..] == sizes;
    assert g[0] == a[0] && g[|e|] == c;
  }

  lemma RebuiltLaidOut(f: string, dp: Directive, flags: set<Flag>, t: ArgType, cfg: Config, pad: bool, prec: bool)
    requires InText(f, dp)
    ensures var g := Rebuilt(f, dp, flags, t, cfg, pad, prec) + Suffix(cfg);
            && LaidOut(g, LayoutOf(f, dp, flags, t, cfg, pad, prec), FlagText(flags, cfg, pad),
                       SpanText(f, dp.width, pad), SpanText(f, dp.precision, prec), SizeText(t, cfg.windows),
                       ConversionText(dp.conversion, cfg))
            && LayoutOf(f, dp, flags, t, cfg, pad, prec).conversion + 1 == |Rebuilt(f, dp, flags, t, cfg, pad, prec)|
  {
    hide FlagText, SpanText, SizeText, ConversionText, Suffix, LaidOut;
    PartsLaidOut(FlagText(flags, cfg, pad), SpanText(f, dp.width, pad), SpanText(f, dp.precision, prec),
                 SizeText(t, cfg.windows), ConversionText(dp.conversion, cfg), Suffix(cfg));
  }

  // The flags.

  lemma {:induction false} FlagRun(g: string, p: nat, e: nat, localized: bool)
    requires p <= e <= |g| && FlagOf(At(g, e), localized) == {}
    requires forall i :: p <= i < e ==> FlagOf(g[i], localized) != {}
    ensures FlagsEnd(g, p, localized) == e
    decreases e - p
  {
    hide FlagOf;
    if p < e {
      FlagRun(g, p + 1, e, localized);
    }
  }

  function CharOf(flag: Flag): char {
    match flag
    case Group => '\''
    case Left => '-'
    case ShowSign => '+'
    case Space => ' '
    case Alt => '#'
    case Zero => '0'
    case Localized => 'I'
  }

  lemma FlagOfChar(c: char, localized: bool, flag: Flag)
    ensures flag in FlagOf(c, localized) <==> c == CharOf(flag) && (flag == Localized ==> localized)
  {
  }

  lemma {:induction false} FlagMembers(g: string, p: nat, e: nat, localized: bool, flag: Flag)
    requires p <= e <= |g|
    ensures flag in FlagsIn(g, p, e, localized) <==> CharOf(flag) in g[p..e] && (flag == Localized ==> localized)
    decreases e
  {
    hide FlagOf;
    hide CharOf;
    if p < e {
      FlagMembers(g, p, e - 1, localized, flag);
      FlagOfChar(g[e - 1], localized, flag);
      assert g[p..e] == g[p..e - 1] + [g[e - 1]];
    }
  }

  /** The flags that reach the system. */
  function Kept(flags: set<Flag>, cfg: Config, pad: bool): set<Flag> {
    flags - (if cfg.keepGroup then {} else {Group}) - (if cfg.localized then {} else {Localized})
    - (if pad then {Zero} else {})
  }

  lemma OnlyMember(b: bool, c: char, d: char)
    ensures d in Only(b, c) <==> b && d == c
  {
  }

  lemma FlagTextMembers(flags: set<Flag>, cfg: Config, pad: bool, d: char)
    ensures d in FlagText(flags, cfg, pad) <==>
            || (d == '\'' && Group in flags && cfg.keepGroup) || (d == '-' && Left in flags)
            || (d == '+' && ShowSign in flags) || (d == ' ' && Space in flags) || (d == '#' && Alt in flags)
            || (d == 'I' && Localized in flags && cfg.localized) || (d == '0' && Zero in flags && !pad)
  {
    OnlyMember(Group in flags && cfg.keepGroup, '\'', d);
    OnlyMember(Left in flags, '-', d);
    OnlyMember(ShowSign in flags, '+', d);
    OnlyMember(Space in flags, ' ', d);
    OnlyMember(Alt in flags, '#', d);
    OnlyMember(Localized in flags && cfg.localized, 'I', d);
    OnlyMember(Zero in flags && !pad, '0', d);
    hide Only;
  }

  lemma FlagsRead(g: string, y: Layout, flags: set<Flag>, cfg: Config, pad: bool)
    requires 1 <= y.width <= |g| && g[1..y.width] == FlagText(flags, cfg, pad)
    ensures FlagsIn(g, 1, y.width, cfg.localized) == Kept(flags, cfg, pad)
    ensures forall i :: 1 <= i < y.width ==> FlagOf(g[i], cfg.localized) != {}
  {
    hide FlagsIn;
    hide FlagText;
    forall flag: Flag
      ensures flag in FlagsIn(g, 1, y.width, cfg.localized) <==> flag in Kept(flags, cfg, pad)
    {
      FlagMembers(g, 1, y.width, cfg.localized, flag);
      FlagTextMembers(flags, cfg, pad, CharOf(flag));
    }
    forall i | 1 <= i < y.width
      ensures FlagOf(g[i], cfg.localized) != {}
    {
      assert g[i] == g[1..y.width][i - 1];
      FlagTextMembers(flags, cfg, pad, g[i]);
    }
  }

  // The other parts.

  lemma {:induction false} DigitRun(g: string, p: nat, e: nat)
    requires p <= e <= |g| && !IsDigit(At(g, e))
    requires forall i :: p <= i < e ==> IsDigit(g[i])
    ensures DigitsEnd(g, p) == e
    decreases e - p
  {
    if p < e {
      DigitRun(g, p + 1, e);
    }
  }

  lemma NoDollarNoPosition(g: string, p: nat)
    requires p <= |g| && '$' !in g
    ensures !HasPosition(g, p) && AfterPosition(g, p) == p
  {
    assert At(g, DigitsEnd(g, p)) in g || At(g, DigitsEnd(g, p)) == '\0';
  }

  /** What follows the width: no digit, no star, no flag. */
  predicate AfterFields(c: char, localized: bool) {
    c == '.' || AfterPrecisionChar(c, localized)
  }

  /** What follows the precision. */
  predicate AfterPrecisionChar(c: char, localized: bool) {
    !IsDigit(c) && c != '*' && c != '.' && FlagOf(c, localized) == {}
  }

  /** A width as the parser leaves it: nothing, a star, or digits the first of which is no flag. */
  predicate WidthLike(w: string) {
    || w == "" || w == "*"
    || (|w| > 0 && w[0] != '0' && forall i :: 0 <= i < |w| ==> IsDigit(w[i]))
  }

  predicate PrecisionLike(p: string) {
    || p == "" || p == ".*"
    || (|p| > 0 && p[0] == '.' && forall i :: 1 <= i < |p| ==> IsDigit(p[i]))
  }

  lemma WidthReads(g: string, p: nat, e: nat, localized: bool)
    requires p <= e < |g| && '$' !in g
    requires WidthLike(g[p..e]) && AfterFields(g[e], localized)
    ensures AfterWidth(g, p) == e && WidthSpan(g, p) == if p == e then NoSpan else Span(p, e)
    ensures StarWidth(g, p) <==> g[p..e] == "*"
    ensures FlagOf(g[p], localized) == {}
  {
    var w := g[p..e];
    assert forall i :: p <= i < e ==> g[i] == w[i - p];
    if p < e && w[0] != '*' {
      DigitRun(g, p, e);
    } else if p == e {
      DigitRun(g, p, p);
    } else {
      NoDollarNoPosition(g, p + 1);
    }
    hide DigitsEnd;
  }

  lemma PrecisionReads(g: string, p: nat, e: nat, localized: bool)
    requires p <= e < |g| && '$' !in g
    requires PrecisionLike(g[p..e]) && AfterPrecisionChar(g[e], localized)
    ensures AfterPrecision(g, p) == e && PrecisionSpan(g, p) == if p == e then NoSpan else Span(p, e)
    ensures StarPrecision(g, p) <==> g[p..e] == ".*"
    ensures AfterFields(g[p], localized)
  {
    var w := g[p..e];
    assert forall i :: p <= i < e ==> g[i] == w[i - p];
    if w == ".*" {
      NoDollarNoPosition(g, p + 2);
    } else if p < e {
      DigitRun(g, p + 1, e);
    }
    hide DigitsEnd;
  }

  /** What the size text of t adds up to. */
  function SizeNumber(t: ArgType): nat {
    match t
    case LONGLONGINT | ULONGLONGINT => 16
    case LONGINT | ULONGINT | WIDE_CHAR | WIDE_STRING => 8
    case LONGDOUBLE => 4
    case _ => 0
  }

  lemma SizesRead(g: string, p: nat, e: nat, t: ArgType)
    requires p <= e < |g| && !IsSizeChar(g[e])
    requires g[p..e] == SizeText(t, false)
    ensures SizesEnd(g, p) == e
    ensures e > p ==> IsSizeChar(g[p])
    ensures SizeFlags(g, p, e) == SizeNumber(t)
  {
    assert e - p <= 2;
    assert forall i :: p <= i < e ==> g[i] == SizeText(t, false)[i - p];
    assert SizesEnd(g, e) == e;
    if e >= p + 1 {
      assert SizesEnd(g, e - 1) == e;
      assert SizeFlags(g, p, p) == 0;
      assert SizeFlags(g, p, p + 1) == SizeStep(0, g[p]);
    }
  }

  /** The parser leaves spans of that shape. */
  lemma SpansRead(f: string, s: nat, localized: bool, posn: nat, dp: Directive, pad: bool, prec: bool)
    requires s < |f| && Describes(f, s, localized, posn, dp)
    ensures InText(f, dp)
    ensures WidthLike(SpanText(f, dp.width, pad)) && PrecisionLike(SpanText(f, dp.precision, prec))
    ensures SpanText(f, dp.width, false) == "*" <==> dp.widthArg != ARG_NONE
    ensures SpanText(f, dp.precision, false) == ".*" <==> dp.precisionArg != ARG_NONE
  {
    var m := Parts(f, s, localized);
    assert FlagOf(At(f, m.width), localized) == {} by { hide *; FlagsStop(f, s, localized); }
    hide Parts;
    WidthSpanText(f, m.width, localized);
    PrecisionSpanText(f, m.precision);
    hide DigitsEnd;
    hide WidthSpan;
    hide PrecisionSpan;
    hide SizesEnd;
    hide FlagOf;
    hide IsConversion;
    assert f[m.width..m.width] == "";
  }

  lemma FlagsStop(f: string, s: nat, localized: bool)
    requires s < |f|
    ensures FlagOf(At(f, Parts(f, s, localized).width), localized) == {}
  {
  }

  lemma WidthSpanText(f: string, p: nat, localized: bool)
    requires p <= |f| && FlagOf(At(f, p), localized) == {}
    ensures var w := WidthSpan(f, p);
            && (w.Span? ==> w.start <= w.end <= |f| && WidthLike(f[w.start..w.end]))
            && (StarWidth(f, p) <==> w.Span? && f[w.start..w.end] == "*")
  {
    var e := DigitsEnd(f, p);
    if IsDigit(At(f, p)) {
      assert e > p;
      assert f[p..e][0] == f[p];
    }
    hide DigitsEnd;
  }

  lemma PrecisionSpanText(f: string, p: nat)
    requires p <= |f|
    ensures var w := PrecisionSpan(f, p);
            && (w.Span? ==> w.start <= w.end <= |f| && PrecisionLike(f[w.start..w.end]))
            && (StarPrecision(f, p) <==> w.Span? && f[w.start..w.end] == ".*")
  {
    hide DigitsEnd;
    if At(f, p) == '.' && At(f, p + 1) != '*' {
      var e := DigitsEnd(f, p + 1);
      assert f[p..e][0] == '.';
      assert forall i :: 1 <= i < e - p ==> f[p..e][i] == f[p + i];
    }
  }

  lemma ConversionCases(c: char)
    requires IsConversion(c) && c != '%'
    ensures c in "di" || c in "ouxX" || c in "fFeEgGaA"
            || c == 'c' || c == 'C' || c == 's' || c == 'S' || c == 'p' || c == 'n'
  {
  }

  lemma IntegerSurvives(flags: nat, c: char, cfg: Config)
    requires c in "di" || c in "ouxX" || c in "fFeEgGaA"
    ensures TypeOf(SizeNumber(TypeOf(flags, c)), ConversionText(Stored(c), cfg)) == Promoted(TypeOf(flags, c))
  {
    assert ConversionText(Stored(c), cfg) == c || (c == 'F' && ConversionText(Stored(c), cfg) == 'f');
  }

  lemma TextSurvives(flags: nat, c: char, cfg: Config)
    requires c == 'c' || c == 'C' || c == 's' || c == 'S' || c == 'p'
    ensures TypeOf(SizeNumber(TypeOf(flags, c)), ConversionText(Stored(c), cfg)) == Promoted(TypeOf(flags, c))
  {
  }

  /** The rebuilt size text and conversion ask for the promoted type. */
  lemma TypeSurvives(flags: nat, c: char, cfg: Config)
    requires IsConversion(c) && c != '%' && c != 'n'
    ensures TypeOf(SizeNumber(TypeOf(flags, c)), ConversionText(Stored(c), cfg)) == Promoted(TypeOf(flags, c))
  {
    hide *;
    ConversionCases(c);
    if c in "di" || c in "ouxX" || c in "fFeEgGaA" {
      IntegerSurvives(flags, c, cfg);
    } else {
      TextSurvives(flags, c, cfg);
    }
  }

  predicate IsPlain(d: char) {
    d in "diouxXfFeEgGaAcspn"
  }

  lemma PlainLetter(d: char)
    requires IsPlain(d)
    ensures 'A' <= d <= 'x' && d != 'C' && d != 'S' && d != 'I'
    ensures d != 'h' && d != 'L' && d != 'l' && d != 'j' && d != 'Z' && d != 't'
  {
  }

  lemma NotSizeChar(d: char)
    requires 'A' <= d <= 'x' && d != 'h' && d != 'L' && d != 'l' && d != 'j' && d != 'Z' && d != 't'
    ensures !IsSizeChar(d)
  {
  }

  lemma StillConversion(d: char)
    requires IsPlain(d)
    ensures IsConversion(d)
  {
  }

  lemma PlainConversion(d: char, localized: bool)
    requires IsPlain(d)
    ensures IsConversion(d) && d != '%' && Stored(d) == d && d != '$'
    ensures !IsSizeChar(d) && AfterPrecisionChar(d, localized)
  {
    hide IsConversion;
    hide IsSizeChar;
    hide IsPlain;
    PlainLetter(d);
    NotSizeChar(d);
    StillConversion(d);
  }

  lemma ConversionSurvives(c: char, cfg: Config, localized: bool)
    requires IsConversion(c) && c != '%'
    ensures var d := ConversionText(Stored(c), cfg);
            && IsConversion(d) && d != '%' && Stored(d) == d && d != '$'
            && !IsSizeChar(d) && AfterPrecisionChar(d, localized)
  {
    hide IsSizeChar;
    hide AfterPrecisionChar;
    var d := ConversionText(Stored(c), cfg);
    assert IsPlain(d);
    hide IsConversion;
    hide IsPlain;
    PlainConversion(d, localized);
  }

  lemma SizeTextSurvives(t: ArgType, localized: bool)
    ensures '$' !in SizeText(t, false)
    ensures SizeText(t, false) != "" ==>
      AfterPrecisionChar(SizeText(t, false)[0], localized) && IsSizeChar(SizeText(t, false)[0])
  {
  }

  /** No dollar sign in the parts, none in the whole. */
  lemma NoDollar(g: string, y: Layout, flags: string, width: string, precision: string, sizes: string, c: char,
                 suffix: string)
    requires LaidOut(g, y, flags, width, precision, sizes, c)
    requires g[y.conversion + 1..] == suffix
    requires '$' !in flags && '$' !in width && '$' !in precision && '$' !in sizes && c != '$' && '$' !in suffix
    ensures '$' !in g
  {
    assert g == "%" + g[1..y.width] + g[y.width..y.precision] + g[y.precision..y.sizes] + g[y.sizes..y.conversion]
              + [c] + g[y.conversion + 1..];
  }

  /** The landmarks of a text laid out like a directive are where its parts were put. */
  lemma PartsRead(g: string, y: Layout, flags: set<Flag>, cfg: Config, pad: bool, t: ArgType, c: char)
    requires 1 <= y.width <= y.precision <= y.sizes <= y.conversion < |g| && '$' !in g
    requires g[1..y.width] == FlagText(flags, cfg, pad)
    requires WidthLike(g[y.width..y.precision]) && PrecisionLike(g[y.precision..y.sizes])
    requires g[y.sizes..y.conversion] == SizeText(t, false) && g[y.conversion] == c
    requires AfterPrecisionChar(c, cfg.localized) && !IsSizeChar(c)
    ensures Parts(g, 0, cfg.localized) == Landmarks(1, 1, y.width, y.precision, y.sizes, y.conversion)
    ensures FlagsIn(g, 1, y.width, cfg.localized) == Kept(flags, cfg, pad)
    ensures WidthSpan(g, y.width) == if y.width == y.precision then NoSpan else Span(y.width, y.precision)
    ensures PrecisionSpan(g, y.precision) == if y.precision == y.sizes then NoSpan else Span(y.precision, y.sizes)
    ensures StarWidth(g, y.width) <==> g[y.width..y.precision] == "*"
    ensures StarPrecision(g, y.precision) <==> g[y.precision..y.sizes] == ".*"
    ensures SizeFlags(g, y.sizes, y.conversion) == SizeNumber(t)
  {
    hide SizeNumber, FlagText, Kept, WidthLike, PrecisionLike, SizeText, AfterPrecisionChar, AfterFields, IsSizeChar;
    hide FlagsEnd, FlagsIn, WidthSpan, PrecisionSpan, StarWidth, StarPrecision, SizesEnd, SizeFlags, FlagOf;
    hide AfterWidth, AfterPrecision, AfterPosition;
    NoDollarNoPosition(g, 1);
    SizesRead(g, y.sizes, y.conversion, t);
    SizeTextSurvives(t, cfg.localized);
    assert AfterPrecisionChar(g[y.sizes], cfg.localized) by {
      if y.sizes < y.conversion {
        assert g[y.sizes] == g[y.sizes..y.conversion][0];
      }
    }
    PrecisionReads(g, y.precision, y.sizes, cfg.localized);
    WidthReads(g, y.width, y.precision, cfg.localized);
    FlagsRead(g, y, flags, cfg, pad);
    FlagRun(g, 1, y.width, cfg.localized);
  }

  /** The directive the system reads in the rebuilt text: its arguments are those handed over in order. */
  function Handed(y: Layout, flags: set<Flag>, star: bool, dotStar: bool, c: char): Directive {
    Directive(
      0, y.conversion + 1, flags,
      if y.width == y.precision then NoSpan else Span(y.width, y.precision), if star then 0 else ARG_NONE,
      if y.precision == y.sizes then NoSpan else Span(y.precision, y.sizes),
      if dotStar then (if star then 1 else 0) else ARG_NONE,
      c, (if star then 1 else 0) + (if dotStar then 1 else 0))
  }

  lemma HandedDescribes(g: string, y: Layout, flags: set<Flag>, cfg: Config, pad: bool, t: ArgType, c: char)
    requires 1 <= y.width <= y.precision <= y.sizes <= y.conversion < |g| && '$' !in g && g[0] == '%'
    requires g[1..y.width] == FlagText(flags, cfg, pad)
    requires WidthLike(g[y.width..y.precision]) && PrecisionLike(g[y.precision..y.sizes])
    requires g[y.sizes..y.conversion] == SizeText(t, false) && g[y.conversion] == c
    requires IsConversion(c) && c != '%' && Stored(c) == c && AfterPrecisionChar(c, cfg.localized) && !IsSizeChar(c)
    ensures var star, dotStar := g[y.width..y.precision] == "*", g[y.precision..y.sizes] == ".*";
            && Describes(g, 0, cfg.localized, 0, Handed(y, Kept(flags, cfg, pad), star, dotStar, c))
            && Takes(g, 0, cfg.localized) == One(star) + One(dotStar) + 1
            && ValueType(g, Parts(g, 0, cfg.localized)) == TypeOf(SizeNumber(t), c)
  {
    hide Kept, FlagText, WidthLike, PrecisionLike, SizeText, AfterPrecisionChar, IsSizeChar, IsConversion, TypeOf;
    hide Parts, WidthSpan, PrecisionSpan, StarWidth, StarPrecision, SizeFlags, FlagsIn, HasPosition, Stored;
    PartsRead(g, y, flags, cfg, pad, t, c);
    NoDollarNoPosition(g, 1);
    if StarWidth(g, y.width) {
      NoDollarNoPosition(g, y.width + 1);
    }
    if StarPrecision(g, y.precision) {
      NoDollarNoPosition(g, y.precision + 2);
    }
  }

  lemma NoDollarInFields(flags: set<Flag>, cfg: Config, pad: bool, w: string, p: string)
    requires WidthLike(w) && PrecisionLike(p)
    ensures '$' !in FlagText(flags, cfg, pad) && '$' !in w && '$' !in p
  {
    FlagTextMembers(flags, cfg, pad, '$');
    hide FlagText;
    assert '$' in p ==> exists i :: 0 <= i < |p| && p[i] == '$';
  }

  /** The format string g starts with the directive `read`, which takes so many arguments in sequence, the last of
      type t, and has these texts for width and precision. */
  ghost predicate ReadsAs(g: string, localized: bool, read: Directive, takes: nat, t: ArgType,
                          width: string, precision: string) {
    && |g| > 0 && Describes(g, 0, localized, 0, read) && InText(g, read)
    && Takes(g, 0, localized) == takes && ValueType(g, Parts(g, 0, localized)) == t
    && SpanText(g, read.width, false) == width && SpanText(g, read.precision, false) == precision
  }

  /** A text laid out from the parts of a directive, read again. */
  lemma LaidOutReads(g: string, y: Layout, flags: set<Flag>, cfg: Config, pad: bool, w: string, p: string,
                     sizes: nat, c: char, suffix: string)
    requires IsConversion(c) && c != '%' && c != 'n'
    requires var d, t := ConversionText(Stored(c), cfg), TypeOf(sizes, c);
             LaidOut(g, y, FlagText(flags, cfg, pad), w, p, SizeText(t, false), d)
    requires g[y.conversion + 1..] == suffix && '$' !in suffix
    requires WidthLike(w) && PrecisionLike(p)
    ensures var d := ConversionText(Stored(c), cfg);
            var read := Handed(y, Kept(flags, cfg, pad), w == "*", p == ".*", d);
            ReadsAs(g, cfg.localized, read, One(w == "*") + One(p == ".*") + 1, Promoted(TypeOf(sizes, c)), w, p)
  {
    var d, t := ConversionText(Stored(c), cfg), TypeOf(sizes, c);
    hide FlagText, SizeText, WidthLike, PrecisionLike, TypeOf, ConversionText, Stored, IsConversion, Kept, Promoted;
    hide AfterPrecisionChar, IsSizeChar, SizeNumber, Describes, Parts, ValueType, Takes, One;
    ConversionSurvives(c, cfg, cfg.localized);
    TypeSurvives(sizes, c, cfg);
    NoDollarInFields(flags, cfg, pad, w, p);
    SizeTextSurvives(t, cfg.localized);
    NoDollar(g, y, FlagText(flags, cfg, pad), w, p, SizeText(t, false), d, suffix);
    HandedDescribes(g, y, flags, cfg, pad, t, d);
  }

  /** The text between the null character and the conversion is `%n` or nothing. */
  lemma SuffixText(f: string, dp: Directive, flags: set<Flag>, t: ArgType, cfg: Config, pad: bool, prec: bool)
    requires InText(f, dp)
    ensures var r := Rebuilt(f, dp, flags, t, cfg, pad, prec);
            (r + Suffix(cfg))[|r|..] == Suffix(cfg) && '$' !in Suffix(cfg)
  {
    hide Rebuilt;
  }

  /** Rebuilding keeps the meaning: the system, reading the rebuilt text, finds the same flags (but those it does not
      know or is not to handle), the same width and precision texts, the same conversion, and a value of the type the
      argument has after promotion; and it takes its arguments in the order in which they are handed over. */
  lemma RebuiltMeansTheSame(f: string, s: nat, posn: nat, dp: Directive, flags: set<Flag>, t: ArgType, cfg: Config,
                            pad: bool, prec: bool)
    requires s < |f| && Describes(f, s, cfg.localized, posn, dp) && dp.conversion != '%' && dp.conversion != 'n'
    requires t == ValueType(f, Parts(f, s, cfg.localized)) && !cfg.windows
    ensures InText(f, dp)
    ensures var star, dotStar := !pad && dp.widthArg != ARG_NONE, !prec && dp.precisionArg != ARG_NONE;
            var read := Handed(LayoutOf(f, dp, flags, t, cfg, pad, prec), Kept(flags, cfg, pad), star, dotStar,
                               ConversionText(dp.conversion, cfg));
            && read.dirEnd == |Rebuilt(f, dp, flags, t, cfg, pad, prec)|
            && ReadsAs(Rebuilt(f, dp, flags, t, cfg, pad, prec) + Suffix(cfg), cfg.localized, read,
                       One(star) + One(dotStar) + 1, Promoted(t),
                       SpanText(f, dp.width, pad), SpanText(f, dp.precision, prec))
  {
    hide Describes, Parts, Rebuilt, Suffix, LayoutOf, Kept, ConversionText, Takes, Promoted, One, TypeOf, SizeFlags;
    hide ReadsAs, LaidOut, FlagText, SizeText, WidthLike, PrecisionLike, IsConversion, Stored;
    DescribesText(f, s, cfg.localized, posn, dp);
    SpansRead(f, s, cfg.localized, posn, dp, pad, prec);
    DescribesConversion(f, s, cfg.localized, posn, dp);
    var m := Parts(f, s, cfg.localized);
    var g, y := Rebuilt(f, dp, flags, t, cfg, pad, prec) + Suffix(cfg), LayoutOf(f, dp, flags, t, cfg, pad, prec);
    RebuiltLaidOut(f, dp, flags, t, cfg, pad, prec);
    SuffixText(f, dp, flags, t, cfg, pad, prec);
    LaidOutReads(g, y, flags, cfg, pad, SpanText(f, dp.width, pad), SpanText(f, dp.precision, prec),
                 SizeFlags(f, m.sizes, m.conversion), f[m.conversion], Suffix(cfg));
  }

  lemma DescribesConversion(f: string, s: nat, localized: bool, posn: nat, dp: Directive)
    requires s < |f| && Describes(f, s, localized, posn, dp)
    ensures var c := f[Parts(f, s, localized).conversion];
            && IsConversion(c) && dp.conversion == Stored(c)
            && (dp.conversion != '%' ==> c != '%') && (dp.conversion != 'n' ==> c != 'n')
  {
    hide Parts;
  }

  // ---------------------------------------------------------------- writing it

  /** The buffer holds the text written so far. */
  ghost predicate Holds(buf: seq<char>, text: string) {
    |text| <= |buf| && buf[..|text|] == text
  }

  /** `if (b) *fbp++ = c;`. */
  method PutIf(buf: array<char>, fbp: nat, b: bool, c: char, ghost done: string) returns (next: nat)
    requires fbp == |done| && Holds(buf[..], done) && |done + Only(b, c)| <= buf.Length
    modifies buf
    ensures next == |done + Only(b, c)| && Holds(buf[..], done + Only(b, c))
  {
    next := fbp;
    if b {
      buf[next] := c;
      next := next + 1;
    }
    assert buf[..fbp] == done;
  }

  /** `memcpy (fbp, start, n); fbp += n;`. */
  method PutText(buf: array<char>, fbp: nat, text: string, ghost done: string) returns (next: nat)
    requires fbp == |done| && Holds(buf[..], done) && |done + text| <= buf.Length
    modifies buf
    ensures next == |done + text| && Holds(buf[..], done + text)
  {
    var i := 0;
    while i < |text|
      invariant 0 <= i <= |text|
      invariant buf[..fbp + i] == done + text[..i]
    {
      buf[fbp + i] := text[i];
      i := i + 1;
    }
    next := fbp + |text|;
    assert text[..i] == text;
  }

  /** Lines 4769-4789: the per cent sign and all flags but zero. */
  method PutFlags(buf: array<char>, flags: set<Flag>, cfg: Config) returns (fbp: nat)
    requires |"%" + FlagText(flags, cfg, true)| <= buf.Length
    modifies buf
    ensures fbp == |"%" + FlagText(flags, cfg, true)| && Holds(buf[..], "%" + FlagText(flags, cfg, true))
  {
    ghost var t0 := "%";
    ghost var t1 := t0 + Only(Group in flags && cfg.keepGroup, '\'');
    ghost var t2 := t1 + Only(Left in flags, '-');
    ghost var t3 := t2 + Only(ShowSign in flags, '+');
    ghost var t4 := t3 + Only(Space in flags, ' ');
    ghost var t5 := t4 + Only(Alt in flags, '#');
    ghost var t6 := t5 + Only(Localized in flags && cfg.localized, 'I');
    FlagPieces(flags, cfg);
    assert [] + Only(true, '%') == t0;
    hide *;
    HoldsNothing(buf[..]);
    fbp := PutIf(buf, 0, true, '%', []);
    fbp := PutIf(buf, fbp, Group in flags && cfg.keepGroup, '\'', t0);
    fbp := PutIf(buf, fbp, Left in flags, '-', t1);
    fbp := PutIf(buf, fbp, ShowSign in flags, '+', t2);
    fbp := PutIf(buf, fbp, Space in flags, ' ', t3);
    fbp := PutIf(buf, fbp, Alt in flags, '#', t4);
    fbp := PutIf(buf, fbp, Localized in flags && cfg.localized, 'I', t5);
  }

  lemma Associate(x: string, y: string, z: string)
    ensures x + (y + z) == x + y + z
  {
  }

  lemma AssociateSix(x: string, a: string, b: string, c: string, d: string, e: string, f: string)
    ensures x + (a + b + c + d + e + f) == x + a + b + c + d + e + f
  {
    Associate(x, a + b + c + d + e, f);
    Associate(x, a + b + c + d, e);
    Associate(x, a + b + c, d);
    Associate(x, a + b, c);
    Associate(x, a, b);
  }

  lemma FlagPieces(flags: set<Flag>, cfg: Config)
    ensures "%" + Only(Group in flags && cfg.keepGroup, '\'') + Only(Left in flags, '-') + Only(ShowSign in flags, '+')
            + Only(Space in flags, ' ') + Only(Alt in flags, '#') + Only(Localized in flags && cfg.localized, 'I')
         == "%" + FlagText(flags, cfg, true)
  {
    var g, l, s, b, h, i := Only(Group in flags && cfg.keepGroup, '\''), Only(Left in flags, '-'),
      Only(ShowSign in flags, '+'), Only(Space in flags, ' '), Only(Alt in flags, '#'),
      Only(Localized in flags && cfg.localized, 'I');
    AssociateSix("%", g, l, s, b, h, i);
    assert FlagText(flags, cfg, true) == g + l + s + b + h + i + [];
    assert g + l + s + b + h + i + [] == g + l + s + b + h + i;
  }

  lemma HoldsNothing(buf: seq<char>)
    ensures Holds(buf, [])
  {
  }

  /** The pieces in the order in which they are written. */
  lemma Pieces(f: string, dp: Directive, flags: set<Flag>, t: ArgType, cfg: Config, pad: bool, prec: bool)
    requires InText(f, dp)
    ensures "%" + FlagText(flags, cfg, true) + Only(Zero in flags && !pad, '0')
            + SpanText(f, dp.width, pad) + SpanText(f, dp.precision, prec)
            + SizeText(t, cfg.windows) + Only(true, ConversionText(dp.conversion, cfg))
         == Rebuilt(f, dp, flags, t, cfg, pad, prec)
  {
    FlagsWithZero(flags, cfg, pad);
    hide FlagText, SizeText, SpanText, ConversionText;
    Associate("%", FlagText(flags, cfg, true), Only(Zero in flags && !pad, '0'));
  }

  lemma FlagsWithZero(flags: set<Flag>, cfg: Config, pad: bool)
    ensures FlagText(flags, cfg, pad) == FlagText(flags, cfg, true) + Only(Zero in flags && !pad, '0')
  {
    assert FlagText(flags, cfg, true) + Only(false, '0') == FlagText(flags, cfg, true);
  }

  /** Lines 4766-4906. The directive fits in a buffer of the length allocated, with its terminating null character. */
  method Rebuild(buf: array<char>, f: string, dp: Directive, flags: set<Flag>, t: ArgType, cfg: Config,
                 pad: bool, prec: bool)
    returns (end: nat)
    requires InText(f, dp) && EnoughRoom(cfg)
    requires buf.Length >= 13 + dp.width.Length() + dp.precision.Length()
    modifies buf
    ensures end == Written(f, dp, flags, t, cfg, pad, prec) <= buf.Length
    ensures buf[..end] == Rebuilt(f, dp, flags, t, cfg, pad, prec) + Suffix(cfg) + "\0"
  {
    Fits(f, dp, flags, t, cfg, pad, prec, dp.width.Length(), dp.precision.Length());
    Pieces(f, dp, flags, t, cfg, pad, prec);
    ghost var t0 := "%" + FlagText(flags, cfg, true);
    ghost var t1 := t0 + Only(Zero in flags && !pad, '0');
    ghost var t2 := t1 + SpanText(f, dp.width, pad);
    ghost var t3 := t2 + SpanText(f, dp.precision, prec);
    ghost var t4 := t3 + SizeText(t, cfg.windows);
    ghost var t5 := t4 + Only(true, ConversionText(dp.conversion, cfg));
    ghost var t6 := t5 + Suffix(cfg);
    assert t6 + Only(true, '\0') == t6 + "\0";
    assert |t6| + 1 == Written(f, dp, flags, t, cfg, pad, prec);
    assert pad ==> t1 == t0;
    hide FlagText, SizeText, Only, SpanText, EnoughRoom, Rebuilt, Suffix, ConversionText, Holds;
    var fbp := PutFlags(buf, flags, cfg);
    if !pad {
      fbp := PutIf(buf, fbp, Zero in flags, '0', t0);
    }
    fbp := PutText(buf, fbp, SpanText(f, dp.width, pad), t1);
    fbp := PutText(buf, fbp, SpanText(f, dp.precision, prec), t2);
    fbp := PutText(buf, fbp, SizeText(t, cfg.windows), t3);
    fbp := PutIf(buf, fbp, true, ConversionText(dp.conversion, cfg), t4);
    fbp := PutText(buf, fbp, Suffix(cfg), t5);
    end := PutIf(buf, fbp, true, '\0', t6);
    HoldsAll(buf[..], t6 + "\0");
  }

  lemma HoldsAll(buf: seq<char>, text: string)
    requires Holds(buf, text)
    ensures |text| <= |buf| && buf[..|text|] == text
  {
  }
}
