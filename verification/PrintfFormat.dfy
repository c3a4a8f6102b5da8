/** The walk of vasnprintf.c over a parsed format string, as far as its abort() checks and its directive buffer go. */
module PrintfFormat {
  import opened PrintfSyntax
  import opened PrintfArgs
  import opened PrintfParse
  import opened PrintfRebuild

  /** The caller's choices for a directive: a negative `*` width sets the `-` flag; padding and precision may be left
      to the system or not. */
  datatype Choice = Choice(left: bool, pad: bool, prec: bool)

  /** What is handed to the system's snprintf: the format text with its null character, the arguments it takes before
      the value, and the value. */
  datatype Call = Percent | Count | System(text: string, prefixes: seq<Size>, value: Size)

  function FlagsFor(dp: Directive, choice: Choice): set<Flag> {
    dp.flags + if choice.left then {Left} else {}
  }

  function Prefixes(dp: Directive, choice: Choice): seq<Size> {
    (if !choice.pad && dp.widthArg != ARG_NONE then [dp.widthArg] else [])
    + if !choice.prec && dp.precisionArg != ARG_NONE then [dp.precisionArg] else []
  }

  /** The call made for dp. */
  predicate CallFor(f: string, dp: Directive, t: ArgType, cfg: Config, choice: Choice, call: Call) {
    if dp.conversion == '%' then call == Percent
    else if dp.conversion == 'n' then call == Count
    else
      && InText(f, dp)
      && call == System(Rebuilt(f, dp, FlagsFor(dp, choice), t, cfg, choice.pad, choice.prec) + Suffix(cfg) + "\0",
                        Prefixes(dp, choice), dp.argIndex)
  }

  /** A pointer for `%n`. */
  predicate IsCount(t: ArgType) {
    || t == COUNT_SCHAR_POINTER || t == COUNT_SHORT_POINTER || t == COUNT_INT_POINTER
    || t == COUNT_LONGINT_POINTER || t == COUNT_LONGLONGINT_POINTER
  }

  lemma CountTakesCount(f: string, s: nat, localized: bool, posn: nat, dp: Directive)
    requires s < |f| && Describes(f, s, localized, posn, dp)
    ensures dp.conversion == 'n' ==> IsCount(ValueType(f, Parts(f, s, localized)))
  {
    hide Parts;
    hide SizeFlags;
  }

  /** What a parsed directive guarantees to the code that executes it. */
  ghost predicate Guaranteed(f: string, dp: Directive, types: seq<ArgType>, t: ArgType) {
    && (dp.conversion == '%' <==> dp.argIndex == ARG_NONE) && InText(f, dp)
    && (dp.conversion != '%' ==>
          dp.argIndex < |types| && types[dp.argIndex] == t && (dp.conversion == 'n' ==> IsCount(t)))
    && (dp.widthArg != ARG_NONE ==> dp.widthArg < |types| && types[dp.widthArg] == INT)
    && (dp.precisionArg != ARG_NONE ==> dp.precisionArg < |types| && types[dp.precisionArg] == INT)
  }

  lemma ParsedGuarantees(f: string, dp: Directive, localized: bool, posn: nat, types: seq<ArgType>)
    requires dp.dirStart < |f| && Describes(f, dp.dirStart, localized, posn, dp) && Reserved(f, localized, dp, types)
    ensures Parts(f, dp.dirStart, localized).conversion < |f|
    ensures Guaranteed(f, dp, types, ValueType(f, Parts(f, dp.dirStart, localized)))
  {
    hide Describes, Parts, ValueType, IsCount, WidthLike, PrecisionLike;
    DescribesText(f, dp.dirStart, localized, posn, dp);
    CountTakesCount(f, dp.dirStart, localized, posn, dp);
    SpansRead(f, dp.dirStart, localized, posn, dp, false, false);
    PercentOrValue(f, dp.dirStart, localized, posn, dp);
  }

  /** Lines 4606-4921 for a value: rebuild the directive and collect the arguments before the value. */
  method ExecuteValue(f: string, dp: Directive, ghost t: ArgType, a: Arguments, buf: array<char>, cfg: Config,
                      choice: Choice)
    returns (call: Call)
    requires a.Valid() && Guaranteed(f, dp, a.Types(), t) && dp.argIndex != ARG_NONE
    requires EnoughRoom(cfg) && buf.Length >= 13 + dp.width.Length() + dp.precision.Length()
    modifies buf
    ensures InText(f, dp)
    ensures call == System(Rebuilt(f, dp, FlagsFor(dp, choice), t, cfg, choice.pad, choice.prec) + Suffix(cfg) + "\0",
                           Prefixes(dp, choice), dp.argIndex)
  {
    hide Rebuilt, Suffix, EnoughRoom, FlagsFor, Written, InText;
    ghost var types := a.Types();
    assert t == types[dp.argIndex];
    var prefixes := [];
    if !choice.pad && dp.widthArg != ARG_NONE {
      // `if (!(a.arg[dp->width_arg_index].type == TYPE_INT)) abort ();`
      assert a.arg[dp.widthArg] == types[dp.widthArg] == INT;
      prefixes := prefixes + [dp.widthArg];
    }
    if !choice.prec && dp.precisionArg != ARG_NONE {
      // `if (!(a.arg[dp->precision_arg_index].type == TYPE_INT)) abort ();`
      assert a.arg[dp.precisionArg] == types[dp.precisionArg] == INT;
      prefixes := prefixes + [dp.precisionArg];
    }
    var fbp := Rebuild(buf, f, dp, FlagsFor(dp, choice), a.arg[dp.argIndex], cfg, choice.pad, choice.prec);
    call := System(buf[..fbp], prefixes, dp.argIndex);
  }

  /** A directive, with the checks of lines 1901-1936: none of them aborts. */
  method Execute(f: string, dp: Directive, ghost posn: nat, a: Arguments, buf: array<char>, cfg: Config, choice: Choice)
    returns (call: Call)
    requires a.Valid() && dp.dirStart < |f| && Describes(f, dp.dirStart, cfg.localized, posn, dp)
    requires Reserved(f, cfg.localized, dp, a.Types()) && EnoughRoom(cfg)
    requires buf.Length >= 13 + dp.width.Length() + dp.precision.Length()
    modifies buf
    ensures var m := Parts(f, dp.dirStart, cfg.localized);
            m.conversion < |f| && CallFor(f, dp, ValueType(f, m), cfg, choice, call)
  {
    hide Describes, Parts, ValueType, Rebuilt, EnoughRoom, Suffix, Reserved, FlagsFor, Prefixes;
    ParsedGuarantees(f, dp, cfg.localized, posn, a.Types());
    if dp.conversion == '%' {
      // `if (!(dp->arg_index == ARG_NONE)) abort ();`
      assert dp.argIndex == ARG_NONE;
      call := Percent;
    } else {
      // `if (!(dp->arg_index != ARG_NONE)) abort ();`
      assert dp.argIndex != ARG_NONE;
      if dp.conversion == 'n' {
        // the default case of the switch aborts
        assert dp.argIndex < a.count && IsCount(a.arg[dp.argIndex]);
        call := Count;
      } else {
        call := ExecuteValue(f, dp, ValueType(f, Parts(f, dp.dirStart, cfg.localized)), a, buf, cfg, choice);
      }
    }
  }

  lemma PercentOrValue(f: string, s: nat, localized: bool, posn: nat, dp: Directive)
    requires s < |f| && Describes(f, s, localized, posn, dp)
    ensures dp.conversion == '%' <==> dp.argIndex == ARG_NONE
  {
    hide Parts;
  }

  /** Each directive of a parsed format string was read at some count of arguments. */
  lemma {:induction false} ParsedAt(f: string, localized: bool, dirs: seq<Directive>, cp: nat, posn: int, k: nat)
    returns (before: nat)
    requires Parsed(f, localized, dirs, cp, posn) && k < |dirs|
    ensures dirs[k].dirStart < |f| && Describes(f, dirs[k].dirStart, localized, before, dirs[k])
    decreases |dirs|
  {
    hide Describes;
    hide Parts;
    hide Takes;
    var dp := dirs[|dirs| - 1];
    before := posn - Takes(f, dp.dirStart, localized);
    if k < |dirs| - 1 {
      assert dirs[..|dirs| - 1][k] == dirs[k];
      before := ParsedAt(f, localized, dirs[..|dirs| - 1], dp.dirStart, before, k);
    }
  }

  /** Everything Execute asks for, for directive k. */
  lemma DirectiveReady(f: string, localized: bool, posn: int, dirs: seq<Directive>, types: seq<ArgType>,
                       maxWidth: int, maxPrecision: int, k: nat)
    returns (before: nat)
    requires Progress(f, localized, |f|, posn, dirs, types, maxWidth, maxPrecision) && k < |dirs|
    ensures dirs[k].dirStart < |f| && Describes(f, dirs[k].dirStart, localized, before, dirs[k])
    ensures Reserved(f, localized, dirs[k], types)
    ensures dirs[k].width.Length() <= maxWidth && dirs[k].precision.Length() <= maxPrecision
  {
    hide Describes;
    hide Parsed;
    hide Reserved;
    hide LongestWidth;
    hide LongestPrecision;
    before := ParsedAt(f, localized, dirs, |f|, posn, k);
    LongestBounds(dirs, k);
  }

  /** No width or precision is longer than the format string. */
  lemma {:induction false} LongestInText(f: string, localized: bool, dirs: seq<Directive>, cp: nat, posn: int)
    requires Parsed(f, localized, dirs, cp, posn)
    ensures LongestWidth(dirs) <= |f| && LongestPrecision(dirs) <= |f|
    decreases |dirs|
  {
    hide Describes;
    hide Parts;
    hide Takes;
    if |dirs| > 0 {
      var dp := dirs[|dirs| - 1];
      var before := posn - Takes(f, dp.dirStart, localized);
      SpansRead(f, dp.dirStart, localized, before, dp, false, false);
      LongestInText(f, localized, dirs[..|dirs| - 1], dp.dirStart, before);
    }
  }

  lemma ProgressInText(f: string, localized: bool, posn: int, dirs: seq<Directive>, types: seq<ArgType>,
                       maxWidth: int, maxPrecision: int)
    requires Progress(f, localized, |f|, posn, dirs, types, maxWidth, maxPrecision)
    ensures maxWidth <= |f| && maxPrecision <= |f|
  {
    hide Parsed;
    hide AllReserved;
    LongestInText(f, localized, dirs, |f|, posn);
  }

  /** `buf_neededlength`, or no buffer if it overflows. */
  method AllocateBuffer(maxWidth: nat, maxPrecision: nat) returns (ok: bool, buf: array<char>)
    requires maxWidth <= SIZE_MAX && maxPrecision <= SIZE_MAX
    ensures fresh(buf) && (ok <==> 13 + maxWidth + maxPrecision < SIZE_MAX)
    ensures ok ==> buf.Length == 13 + maxWidth + maxPrecision
  {
    var needed := NeededLength(maxWidth, maxPrecision);
    NeededIsSum(maxWidth, maxPrecision);
    hide NeededLength;
    ok := needed != SIZE_MAX;
    buf := new char[if ok then needed else 0];
  }

  /** What the walk has done for the first directives. */
  ghost predicate Called(f: string, dirs: seq<Directive>, cfg: Config, choice: Directive -> Choice, calls: seq<Call>) {
    && |calls| <= |dirs|
    && forall k :: 0 <= k < |calls| ==>
         && dirs[k].dirStart < |f| && Parts(f, dirs[k].dirStart, cfg.localized).conversion < |f|
         && CallFor(f, dirs[k], ValueType(f, Parts(f, dirs[k].dirStart, cfg.localized)), cfg, choice(dirs[k]), calls[k])
  }

  lemma CalledOneMore(f: string, dirs: seq<Directive>, cfg: Config, choice: Directive -> Choice, calls: seq<Call>,
                      call: Call)
    requires Called(f, dirs, cfg, choice, calls) && |calls| < |dirs|
    requires var dp := dirs[|calls|];
             && dp.dirStart < |f| && Parts(f, dp.dirStart, cfg.localized).conversion < |f|
             && CallFor(f, dp, ValueType(f, Parts(f, dp.dirStart, cfg.localized)), cfg, choice(dp), call)
    ensures Called(f, dirs, cfg, choice, calls + [call])
  {
    hide CallFor;
    hide ValueType;
    hide Parts;
  }

  /** The loop over the directives. */
  method Walk(f: string, cfg: Config, choice: Directive -> Choice, d: Directives, a: Arguments, buf: array<char>,
              ghost posn: nat)
    returns (calls: seq<Call>)
    requires d.Valid() && a.Valid() && EnoughRoom(cfg)
    requires Progress(f, cfg.localized, |f|, posn, d.Dirs(), a.Types(), d.maxWidthLength, d.maxPrecisionLength)
    requires buf.Length == 13 + d.maxWidthLength + d.maxPrecisionLength
    modifies buf
    ensures |calls| == |d.Dirs()| && Called(f, d.Dirs(), cfg, choice, calls)
  {
    ghost var dirs, types := d.Dirs(), a.Types();
    calls := [];
    assert Called(f, dirs, cfg, choice, calls);
    hide Progress, Called, Describes, Reserved, Parts, CallFor, ValueType, EnoughRoom;
    var i := 0;
    while i < d.count
      invariant 0 <= i <= d.count && |calls| == i
      invariant Called(f, dirs, cfg, choice, calls)
    {
      ghost var before := DirectiveReady(f, cfg.localized, posn, dirs, types, d.maxWidthLength, d.maxPrecisionLength, i);
      var dp := d.dir[i];
      var call := Execute(f, dp, before, a, buf, cfg, choice(dp));
      CalledOneMore(f, dirs, cfg, choice, calls, call);
      calls := calls + [call];
      i := i + 1;
    }
  }

  /** Parse a format string, allocate the directive buffer, and go through the directives: the one buffer is large
      enough for all of them and no check aborts. */
  method FormatAll(f: string, cfg: Config, choice: Directive -> Choice, argumentSize: Size, directiveSize: Size)
    returns (r: Status, d: Directives, a: Arguments, calls: seq<Call>, ghost posn: nat)
    requires '\0' !in f && |f| < SIZE_MAX && argumentSize > 0 && directiveSize > 0 && EnoughRoom(cfg)
    ensures r == Done ==> d.Valid() && |calls| == |d.Dirs()| && Called(f, d.Dirs(), cfg, choice, calls)
    ensures r == Done ==>
      a.Valid() && Progress(f, cfg.localized, |f|, posn, d.Dirs(), a.Types(), d.maxWidthLength, d.maxPrecisionLength)
    ensures r == Error ==> Judge(f, cfg.localized, 0, 0, []) == Bad
    ensures var parsed := Ruling(f, cfg.localized, 0, 0, [], 7, 0, 7, argumentSize, directiveSize);
            r == if parsed == Done && 13 + d.maxWidthLength + d.maxPrecisionLength >= SIZE_MAX then OutOfMemory
                 else parsed
  {
    calls := [];
    r, d, a, posn := Parse(f, cfg.localized, argumentSize, directiveSize);
    if r != Done {
      return;
    }
    hide *;
    ProgressInText(f, cfg.localized, posn, d.Dirs(), a.Types(), d.maxWidthLength, d.maxPrecisionLength);
    var ok, buf := AllocateBuffer(d.maxWidthLength, d.maxPrecisionLength);
    if !ok {
      return OutOfMemory, d, a, calls, posn;
    }
    calls := Walk(f, cfg, choice, d, a, buf, posn);
  }

  // ---------------------------------------------------------------- what the system makes of a call

  /** The flags that reach the system: those it knows and is to handle, and `-` for a negative width. */
  predicate FlagsReach(flags: set<Flag>, cfg: Config, choice: Choice, read: set<Flag>) {
    && (Left in read <==> Left in flags || choice.left)
    && (ShowSign in read <==> ShowSign in flags) && (Space in read <==> Space in flags) && (Alt in read <==> Alt in flags)
    && (Group in read <==> Group in flags && cfg.keepGroup)
    && (Localized in read <==> Localized in flags && cfg.localized)
    && (Zero in read <==> Zero in flags && !choice.pad)
  }

  lemma FlagsReached(dp: Directive, cfg: Config, choice: Choice)
    ensures FlagsReach(dp.flags, cfg, choice, Kept(FlagsFor(dp, choice), cfg, choice.pad))
  {
  }

  /** The system, reading the text g as a format, finds `read`, which is dp but for what the caller handles itself. */
  ghost predicate SameMeaning(f: string, dp: Directive, t: ArgType, cfg: Config, choice: Choice, g: string,
                              read: Directive) {
    && |g| > 0 && Describes(g, 0, cfg.localized, 0, read) && InText(g, read) && InText(f, dp)
    && read.dirEnd <= |g| && g[read.dirEnd..] == (if cfg.countSuffix then "%n" else "")
    && FlagsReach(dp.flags, cfg, choice, read.flags)
    && read.conversion == (if dp.conversion == 'F' && cfg.lowerF then 'f' else dp.conversion)
    && (if choice.pad then read.width == NoSpan else SpanText(g, read.width, false) == SpanText(f, dp.width, false))
    && (if choice.prec then read.precision == NoSpan
        else SpanText(g, read.precision, false) == SpanText(f, dp.precision, false))
    // the value's type, as arguments are promoted
    && ValueType(g, Parts(g, 0, cfg.localized))
       == (if t == SCHAR || t == SHORT then INT else if t == UCHAR || t == USHORT then UINT else t)
  }

  /** The arguments handed over before the value are in the places where the system looks for them. */
  predicate ArgumentsInPlace(dp: Directive, choice: Choice, prefixes: seq<Size>, read: Directive) {
    && |prefixes| == read.argIndex
    && (read.widthArg != ARG_NONE <==> !choice.pad && dp.widthArg != ARG_NONE)
    && (read.widthArg != ARG_NONE ==> read.widthArg < |prefixes| && prefixes[read.widthArg] == dp.widthArg)
    && (read.precisionArg != ARG_NONE <==> !choice.prec && dp.precisionArg != ARG_NONE)
    && (read.precisionArg != ARG_NONE ==>
          read.precisionArg < |prefixes| && prefixes[read.precisionArg] == dp.precisionArg)
  }

  /** A call hands over the directive's meaning, with its arguments in their places. */
  ghost predicate HandsOver(f: string, dp: Directive, t: ArgType, cfg: Config, choice: Choice, call: Call, g: string,
                            read: Directive) {
    && call.System? && call.text == g + "\0" && call.value == dp.argIndex
    && SameMeaning(f, dp, t, cfg, choice, g, read) && ArgumentsInPlace(dp, choice, call.prefixes, read)
  }

  lemma PrefixesInPlace(dp: Directive, choice: Choice, y: Layout, flags: set<Flag>, c: char)
    ensures var star, dotStar := !choice.pad && dp.widthArg != ARG_NONE, !choice.prec && dp.precisionArg != ARG_NONE;
            ArgumentsInPlace(dp, choice, Prefixes(dp, choice), Handed(y, flags, star, dotStar, c))
  {
  }

  lemma MeaningKept(f: string, s: nat, posn: nat, dp: Directive, t: ArgType, cfg: Config, choice: Choice)
    returns (g: string, read: Directive)
    requires s < |f| && Describes(f, s, cfg.localized, posn, dp) && dp.conversion != '%' && dp.conversion != 'n'
    requires t == ValueType(f, Parts(f, s, cfg.localized)) && !cfg.windows
    ensures InText(f, dp)
    ensures g == Rebuilt(f, dp, FlagsFor(dp, choice), t, cfg, choice.pad, choice.prec) + Suffix(cfg)
    ensures var star, dotStar := !choice.pad && dp.widthArg != ARG_NONE, !choice.prec && dp.precisionArg != ARG_NONE;
            read == Handed(LayoutOf(f, dp, FlagsFor(dp, choice), t, cfg, choice.pad, choice.prec),
                           Kept(FlagsFor(dp, choice), cfg, choice.pad), star, dotStar,
                           ConversionText(dp.conversion, cfg))
    ensures SameMeaning(f, dp, t, cfg, choice, g, read)
  {
    hide *;
    var flags := FlagsFor(dp, choice);
    var star, dotStar := !choice.pad && dp.widthArg != ARG_NONE, !choice.prec && dp.precisionArg != ARG_NONE;
    RebuiltMeansTheSame(f, s, posn, dp, flags, t, cfg, choice.pad, choice.prec);
    var r := Rebuilt(f, dp, flags, t, cfg, choice.pad, choice.prec);
    var y := LayoutOf(f, dp, flags, t, cfg, choice.pad, choice.prec);
    SuffixText(f, dp, flags, t, cfg, choice.pad, choice.prec);
    g := r + Suffix(cfg);
    var kept, c := Kept(flags, cfg, choice.pad), ConversionText(dp.conversion, cfg);
    read := Handed(y, kept, star, dotStar, c);
    HandedIs(y, kept, star, dotStar, c);
    FlagsReached(dp, cfg, choice);
    TextIs(f, dp);
    NoWidthLeft(g, y, kept, star, dotStar, c, One(star) + One(dotStar) + 1, Promoted(t), cfg,
                SpanText(f, dp.width, choice.pad), SpanText(f, dp.precision, choice.prec));
    Assemble(f, dp, t, cfg, choice, g, read, One(star) + One(dotStar) + 1);
  }

  lemma TextIs(f: string, dp: Directive)
    requires InText(f, dp)
    ensures dp.width.Span? ==> dp.width.start <= dp.width.end <= |f|
    ensures dp.precision.Span? ==> dp.precision.start <= dp.precision.end <= |f|
  {
  }

  lemma Assemble(f: string, dp: Directive, t: ArgType, cfg: Config, choice: Choice, g: string, read: Directive, takes: nat)
    requires InText(f, dp) && read.dirEnd <= |g| && g[read.dirEnd..] == Suffix(cfg)
    requires FlagsReach(dp.flags, cfg, choice, read.flags) && read.conversion == ConversionText(dp.conversion, cfg)
    requires ReadsAs(g, cfg.localized, read, takes, Promoted(t), SpanText(f, dp.width, choice.pad),
                     SpanText(f, dp.precision, choice.prec))
    requires SpanText(f, dp.width, choice.pad) == "" ==> read.width == NoSpan
    requires SpanText(f, dp.precision, choice.prec) == "" ==> read.precision == NoSpan
    ensures SameMeaning(f, dp, t, cfg, choice, g, read)
  {
    hide Describes, FlagsReach, Takes, Parts, ValueType;
  }

  /** Every call for a value hands over the directive's meaning with its arguments in their places. */
  lemma CallHandsOver(f: string, s: nat, posn: nat, dp: Directive, cfg: Config, choice: Choice, call: Call)
    returns (g: string, read: Directive)
    requires s < |f| && Describes(f, s, cfg.localized, posn, dp) && dp.conversion != '%' && dp.conversion != 'n'
    requires !cfg.windows && Parts(f, s, cfg.localized).conversion < |f|
    requires CallFor(f, dp, ValueType(f, Parts(f, s, cfg.localized)), cfg, choice, call)
    ensures HandsOver(f, dp, ValueType(f, Parts(f, s, cfg.localized)), cfg, choice, call, g, read)
  {
    hide Describes, Parts, ValueType, Rebuilt, LayoutOf, Kept, FlagsFor, SameMeaning, Prefixes, Handed, ArgumentsInPlace;
    hide InText, Suffix, ConversionText;
    var t := ValueType(f, Parts(f, s, cfg.localized));
    g, read := MeaningKept(f, s, posn, dp, t, cfg, choice);
    PrefixesInPlace(dp, choice, LayoutOf(f, dp, FlagsFor(dp, choice), t, cfg, choice.pad, choice.prec),
                    Kept(FlagsFor(dp, choice), cfg, choice.pad), ConversionText(dp.conversion, cfg));
  }

  lemma HandedIs(y: Layout, flags: set<Flag>, star: bool, dotStar: bool, c: char)
    ensures var read := Handed(y, flags, star, dotStar, c);
            read.flags == flags && read.conversion == c && read.dirEnd == y.conversion + 1
  {
  }

  /** An empty text was read from no span. */
  lemma NoWidthLeft(g: string, y: Layout, flags: set<Flag>, star: bool, dotStar: bool, c: char, takes: nat, t: ArgType,
                    cfg: Config, width: string, precision: string)
    requires ReadsAs(g, cfg.localized, Handed(y, flags, star, dotStar, c), takes, t, width, precision)
    ensures var read := Handed(y, flags, star, dotStar, c);
            && (width == "" ==> read.width == NoSpan) && (precision == "" ==> read.precision == NoSpan)
  {
    hide Describes, Takes, Parts, ValueType;
  }

  /** So does the k-th of all calls for a format string. */
  lemma EveryCallHandsOver(f: string, cfg: Config, choice: Directive -> Choice, posn: int, dirs: seq<Directive>,
                           types: seq<ArgType>, maxWidth: int, maxPrecision: int, calls: seq<Call>, k: nat)
    returns (t: ArgType, g: string, read: Directive)
    requires Progress(f, cfg.localized, |f|, posn, dirs, types, maxWidth, maxPrecision)
    requires Called(f, dirs, cfg, choice, calls) && k < |calls| && !cfg.windows
    requires dirs[k].conversion != '%' && dirs[k].conversion != 'n'
    ensures HandsOver(f, dirs[k], t, cfg, choice(dirs[k]), calls[k], g, read)
    ensures dirs[k].argIndex < |types| && types[dirs[k].argIndex] == t
  {
    hide Progress, Describes, Reserved, CallFor, HandsOver, Guaranteed, ValueType, Parts;
    var before := DirectiveReady(f, cfg.localized, posn, dirs, types, maxWidth, maxPrecision, k);
    var dp := dirs[k];
    ParsedGuarantees(f, dp, cfg.localized, before, types);
    t := ValueType(f, Parts(f, dp.dirStart, cfg.localized));
    g, read := CallHandsOver(f, dp.dirStart, before, dp, cfg, choice(dp), calls[k]);
    GuaranteedType(f, dp, types, t);
  }

  lemma GuaranteedType(f: string, dp: Directive, types: seq<ArgType>, t: ArgType)
    requires Guaranteed(f, dp, types, t) && dp.conversion != '%'
    ensures dp.argIndex < |types| && types[dp.argIndex] == t
  {
  }
}
