/** When a format string is accepted, without the order in which its arguments are registered: its directives must be well
    formed, and no two requests may name one argument with different types. */
module PrintfRequests {
  import opened PrintfSyntax
  import opened PrintfArgs
  import opened PrintfParse
  import opened DecimalDigits
  import opened PrintfGrammar

  /** An argument by its index, and the type it is to have. */
  type Request = (nat, ArgType)

  // ---------------------------------------------------------------- registering requests one by one

  function RegisterAll(types: seq<ArgType>, asks: seq<Request>): Verdict
    decreases |asks|
  {
    if asks == [] then Good(types)
    else if Conflict(types, asks[0].0, asks[0].1) then Bad
    else RegisterAll(Registered(types, asks[0].0, asks[0].1), asks[1..])
  }

  function Then(v: Verdict, asks: seq<Request>): Verdict {
    match v
    case Bad => Bad
    case Good(types) => RegisterAll(types, asks)
  }

  lemma {:induction false} RegisterConcat(types: seq<ArgType>, a: seq<Request>, b: seq<Request>)
    ensures RegisterAll(types, a + b) == Then(RegisterAll(types, a), b)
    decreases |a|
  {
    hide Conflict, Registered;
    if a == [] {
      assert a + b == b;
    } else {
      assert (a + b)[1..] == a[1..] + b;
      if !Conflict(types, a[0].0, a[0].1) {
        RegisterConcat(Registered(types, a[0].0, a[0].1), a[1..], b);
      }
    }
  }

  /** No two requests give one argument different types. */
  predicate Agree(asks: seq<Request>) {
    forall i, j :: 0 <= i < j < |asks| && asks[i].0 == asks[j].0 ==> asks[i].1 == asks[j].1
  }

  /** Every request is for a type. */
  predicate Typed(asks: seq<Request>) {
    forall i :: 0 <= i < |asks| ==> asks[i].1 != NONE
  }

  /** types holds what was requested and nothing else, and ends with a requested one. */
  ghost predicate Holding(types: seq<ArgType>, asks: seq<Request>) {
    && (forall k: nat, t: ArgType :: t != NONE ==> (((k, t) in asks) <==> (k < |types| && types[k] == t)))
    && (|types| > 0 ==> types[|types| - 1] != NONE)
  }

  lemma HoldingStep(types: seq<ArgType>, asks: seq<Request>, ask: Request)
    requires Holding(types, asks) && ask.1 != NONE && !Conflict(types, ask.0, ask.1)
    ensures Holding(Registered(types, ask.0, ask.1), asks + [ask])
  {
    var later := Registered(types, ask.0, ask.1);
    forall k: nat, t: ArgType | t != NONE
      ensures (k, t) in asks + [ask] <==> (k < |later| && later[k] == t)
    {
      assert (k, t) in asks + [ask] <==> (k, t) in asks || (k, t) == ask;
    }
  }

  lemma ConflictIs(types: seq<ArgType>, asks: seq<Request>, ask: Request)
    requires Holding(types, asks) && ask.1 != NONE
    ensures Conflict(types, ask.0, ask.1) <==> exists i :: 0 <= i < |asks| && asks[i].0 == ask.0 && asks[i].1 != ask.1
                                                            && asks[i].1 != NONE
  {
    if Conflict(types, ask.0, ask.1) {
      assert (ask.0, types[ask.0]) in asks;
    }
    if i :| 0 <= i < |asks| && asks[i].0 == ask.0 && asks[i].1 != ask.1 && asks[i].1 != NONE {
      assert (asks[i].0, asks[i].1) in asks;
    }
  }

  /** Registering succeeds exactly if all requests agree, and leaves just what was requested. */
  lemma {:induction false} RegisteringMeans(asks: seq<Request>)
    requires Typed(asks)
    ensures RegisterAll([], asks) == Bad <==> !Agree(asks)
    ensures RegisterAll([], asks).Good? ==> Holding(RegisterAll([], asks).types, asks)
  {
    if asks != [] {
      var front, last := asks[..|asks| - 1], asks[|asks| - 1];
      RegisteringMeans(front);
      assert asks == front + [last];
      RegisterConcat([], front, [last]);
      if RegisterAll([], front).Good? {
        var types := RegisterAll([], front).types;
        ConflictIs(types, front, last);
        LastOne(types, last);
        AgreeStep(front, last);
        if !Conflict(types, last.0, last.1) {
          HoldingStep(types, front, last);
        }
      } else {
        AgreeStep(front, last);
      }
    }
  }

  lemma LastOne(types: seq<ArgType>, ask: Request)
    ensures RegisterAll(types, [ask])
         == if Conflict(types, ask.0, ask.1) then Bad else Good(Registered(types, ask.0, ask.1))
  {
    hide Conflict, Registered;
  }

  lemma AgreeStep(front: seq<Request>, last: Request)
    ensures Agree(front + [last]) <==>
            Agree(front) && forall i :: 0 <= i < |front| && front[i].0 == last.0 ==> front[i].1 == last.1
  {
    var asks := front + [last];
    assert asks[..|front|] == front;
    if Agree(asks) {
      forall i | 0 <= i < |front| && front[i].0 == last.0
        ensures front[i].1 == last.1
      {
        assert asks[i].0 == asks[|front|].0;
      }
      forall i, j | 0 <= i < j < |front| && front[i].0 == front[j].0
        ensures front[i].1 == front[j].1
      {
        assert asks[i].0 == asks[j].0;
      }
    }
  }

  // ---------------------------------------------------------------- the requests of a format string

  /** The requests of the directive at s: for its width, its precision and its value. */
  function DirectiveAsks(f: string, s: nat, localized: bool, posn: nat): seq<Request>
    requires s < |f| && Parts(f, s, localized).conversion < |f|
  {
    var m := Parts(f, s, localized);
    var posn1 := posn + WidthTakes(f, m.width);
    WidthAsks(f, m.width, posn) + PrecisionAsks(f, m.precision, posn1)
    + ValueAsks(f, m, posn1 + PrecisionTakes(f, m.precision))
  }

  function WidthAsks(f: string, p: nat, posn: nat): seq<Request>
    requires p <= |f|
  {
    if StarWidth(f, p) then [(TakenIndex(f, p + 1, posn), INT)] else []
  }

  function PrecisionAsks(f: string, p: nat, posn: nat): seq<Request>
    requires p <= |f|
  {
    if StarPrecision(f, p) then [(TakenIndex(f, p + 2, posn), INT)] else []
  }

  function ValueAsks(f: string, m: Landmarks, posn: nat): seq<Request>
    requires m.position <= |f| && m.sizes <= m.conversion < |f|
  {
    if f[m.conversion] != '%' then [(TakenIndex(f, m.position, posn), ValueType(f, m))] else []
  }

  /** The place for a position at p names an argument there can be. */
  predicate NamesArgument(f: string, p: nat, posn: nat)
    requires p <= |f|
  {
    GoodPosition(f, p) && TakenIndex(f, p, posn) != ARG_NONE
  }

  /** The directive at s is well formed, whatever the others ask for. */
  predicate WellFormed(f: string, s: nat, localized: bool, posn: nat)
    requires s < |f|
  {
    var m := Parts(f, s, localized);
    var posn1 := posn + WidthTakes(f, m.width);
    && GoodPosition(f, m.position)
    && (StarWidth(f, m.width) ==> NamesArgument(f, m.width + 1, posn))
    && (StarPrecision(f, m.precision) ==> NamesArgument(f, m.precision + 2, posn1))
    && m.conversion < |f| && IsConversion(f[m.conversion])
    && (f[m.conversion] != '%' ==> NamesArgument(f, m.position, posn1 + PrecisionTakes(f, m.precision)))
  }

  lemma WidthVerdict(f: string, p: nat, posn: nat, types: seq<ArgType>)
    requires p <= |f|
    ensures WidthFails(f, p, posn, types) <==>
            (StarWidth(f, p) && !NamesArgument(f, p + 1, posn)) || RegisterAll(types, WidthAsks(f, p, posn)) == Bad
    ensures !WidthFails(f, p, posn, types) ==>
            RegisterAll(types, WidthAsks(f, p, posn)) == Good(WidthTypes(f, p, posn, types))
  {
    hide GoodPosition, TakenIndex, Conflict, Registered;
    if StarWidth(f, p) {
      LastOne(types, (TakenIndex(f, p + 1, posn), INT));
    }
  }

  lemma PrecisionVerdict(f: string, p: nat, posn: nat, types: seq<ArgType>)
    requires p <= |f|
    ensures PrecisionFails(f, p, posn, types) <==>
            (StarPrecision(f, p) && !NamesArgument(f, p + 2, posn)) || RegisterAll(types, PrecisionAsks(f, p, posn)) == Bad
    ensures !PrecisionFails(f, p, posn, types) ==>
            RegisterAll(types, PrecisionAsks(f, p, posn)) == Good(PrecisionTypes(f, p, posn, types))
  {
    hide GoodPosition, TakenIndex, Conflict, Registered;
    if StarPrecision(f, p) {
      LastOne(types, (TakenIndex(f, p + 2, posn), INT));
    }
  }

  lemma ValueVerdictAlone(f: string, m: Landmarks, posn: nat, types: seq<ArgType>)
    requires m.position <= |f| && m.sizes <= m.conversion < |f|
    ensures ValueFails(f, m, posn, types) <==>
            || !IsConversion(f[m.conversion])
            || (f[m.conversion] != '%' && !NamesArgument(f, m.position, posn))
            || RegisterAll(types, ValueAsks(f, m, posn)) == Bad
    ensures !ValueFails(f, m, posn, types) ==>
            RegisterAll(types, ValueAsks(f, m, posn)) == Good(ValueTypes(f, m, posn, types))
  {
    hide GoodPosition, TakenIndex, Conflict, Registered, IsConversion, ValueType;
    if f[m.conversion] != '%' {
      LastOne(types, (TakenIndex(f, m.position, posn), ValueType(f, m)));
    }
  }

  /** A directive is rejected exactly if it is not well formed or its requests conflict with those before or among
      themselves. */
  lemma DirectiveVerdict(f: string, s: nat, localized: bool, posn: nat, types: seq<ArgType>)
    requires s < |f| && WellFormed(f, s, localized, posn)
    ensures Rejected(f, s, localized, posn, types) <==> RegisterAll(types, DirectiveAsks(f, s, localized, posn)) == Bad
    ensures !Rejected(f, s, localized, posn, types) ==>
            RegisterAll(types, DirectiveAsks(f, s, localized, posn)) == Good(TypesAfter(f, s, localized, posn, types))
  {
    hide RegisterAll, NamesArgument, GoodPosition, WidthFails, PrecisionFails, ValueFails, WidthTypes, PrecisionTypes;
    hide ValueTypes, WidthAsks, PrecisionAsks, ValueAsks, WidthTakes, PrecisionTakes, Parts, IsConversion;
    var m := Parts(f, s, localized);
    var posn1 := posn + WidthTakes(f, m.width);
    var types1 := WidthTypes(f, m.width, posn, types);
    var posn2 := posn1 + PrecisionTakes(f, m.precision);
    var types2 := PrecisionTypes(f, m.precision, posn1, types1);
    var w, p, v := WidthAsks(f, m.width, posn), PrecisionAsks(f, m.precision, posn1), ValueAsks(f, m, posn2);
    WidthVerdict(f, m.width, posn, types);
    PrecisionVerdict(f, m.precision, posn1, types1);
    ValueVerdictAlone(f, m, posn2, types2);
    RegisterConcat(types, w + p, v);
    RegisterConcat(types, w, p);
  }

  /** What is not well formed is rejected, whatever was asked for before. */
  lemma MalformedRejected(f: string, s: nat, localized: bool, posn: nat, types: seq<ArgType>)
    requires s < |f| && !WellFormed(f, s, localized, posn)
    ensures Rejected(f, s, localized, posn, types)
  {
    hide Parts, GoodPosition, TakenIndex, Conflict, IsConversion, WidthTakes, PrecisionTakes, StarWidth, StarPrecision;
    hide WidthTypes, PrecisionTypes, ValueType;
  }

  /** All directives from cp on are well formed. */
  predicate AllWellFormed(f: string, localized: bool, cp: nat, posn: nat)
    requires cp <= |f|
    decreases |f| - cp
  {
    cp == |f|
    || (f[cp] != '%' && AllWellFormed(f, localized, cp + 1, posn))
    || (f[cp] == '%' && WellFormed(f, cp, localized, posn)
        && AllWellFormed(f, localized, Parts(f, cp, localized).conversion + 1, posn + Takes(f, cp, localized)))
  }

  /** All their requests. */
  function Asks(f: string, localized: bool, cp: nat, posn: nat): seq<Request>
    requires cp <= |f|
    decreases |f| - cp
  {
    if cp == |f| then []
    else if f[cp] != '%' then Asks(f, localized, cp + 1, posn)
    else if Parts(f, cp, localized).conversion == |f| then []
    else
      DirectiveAsks(f, cp, localized, posn)
      + Asks(f, localized, Parts(f, cp, localized).conversion + 1, posn + Takes(f, cp, localized))
  }

  lemma {:induction false} JudgeIs(f: string, localized: bool, cp: nat, posn: nat, types: seq<ArgType>)
    requires cp <= |f|
    ensures Judge(f, localized, cp, posn, types)
         == if AllWellFormed(f, localized, cp, posn) then RegisterAll(types, Asks(f, localized, cp, posn)) else Bad
    decreases |f| - cp
  {
    if cp < |f| {
      if f[cp] != '%' {
        JudgeIs(f, localized, cp + 1, posn, types);
      } else if !WellFormed(f, cp, localized, posn) {
        MalformedRejected(f, cp, localized, posn, types);
      } else {
        JudgeDirective(f, localized, cp, posn, types);
      }
    }
  }

  lemma {:induction false} JudgeDirective(f: string, localized: bool, cp: nat, posn: nat, types: seq<ArgType>)
    requires cp < |f| && f[cp] == '%' && WellFormed(f, cp, localized, posn)
    ensures Judge(f, localized, cp, posn, types)
         == if AllWellFormed(f, localized, cp, posn) then RegisterAll(types, Asks(f, localized, cp, posn)) else Bad
    decreases |f| - cp, 0
  {
    hide *;
    DirectiveVerdict(f, cp, localized, posn, types);
    JudgeStep(f, localized, cp, posn, types);
    AsksStep(f, localized, cp, posn);
    var next, posn' := Parts(f, cp, localized).conversion + 1, posn + Takes(f, cp, localized);
    RegisterConcat(types, DirectiveAsks(f, cp, localized, posn), Asks(f, localized, next, posn'));
    ThenIs(RegisterAll(types, DirectiveAsks(f, cp, localized, posn)), Asks(f, localized, next, posn'));
    if !Rejected(f, cp, localized, posn, types) {
      JudgeIs(f, localized, next, posn', TypesAfter(f, cp, localized, posn, types));
    }
  }

  lemma ThenIs(v: Verdict, asks: seq<Request>)
    ensures v == Bad ==> Then(v, asks) == Bad
    ensures v.Good? ==> Then(v, asks) == RegisterAll(v.types, asks)
  {
  }

  /** One directive, and the rest. */
  lemma AsksStep(f: string, localized: bool, cp: nat, posn: nat)
    requires cp < |f| && f[cp] == '%' && WellFormed(f, cp, localized, posn)
    ensures Parts(f, cp, localized).conversion < |f|
    ensures var next, posn' := Parts(f, cp, localized).conversion + 1, posn + Takes(f, cp, localized);
            && (AllWellFormed(f, localized, cp, posn) <==> AllWellFormed(f, localized, next, posn'))
            && Asks(f, localized, cp, posn) == DirectiveAsks(f, cp, localized, posn) + Asks(f, localized, next, posn')
  {
    hide DirectiveAsks, Takes, Parts, NamesArgument, GoodPosition, WidthTakes, PrecisionTakes;
  }

  lemma DirectiveAsksTyped(f: string, s: nat, localized: bool, posn: nat)
    requires s < |f| && WellFormed(f, s, localized, posn)
    ensures Typed(DirectiveAsks(f, s, localized, posn))
  {
    var m := Parts(f, s, localized);
    TypeOfConversion(SizeFlags(f, m.sizes, m.conversion), f[m.conversion]);
    hide TypeOf, SizeFlags, IsConversion, NamesArgument, Parts, TakenIndex, GoodPosition, StarWidth, StarPrecision;
    hide WidthTakes, PrecisionTakes;
  }

  lemma {:induction false} AsksHaveTypes(f: string, localized: bool, cp: nat, posn: nat)
    requires cp <= |f| && AllWellFormed(f, localized, cp, posn)
    ensures Typed(Asks(f, localized, cp, posn))
    decreases |f| - cp
  {
    hide *;
    if cp == |f| {
      AsksEnd(f, localized, posn);
    } else {
      PlainStep(f, localized, cp, posn);
      if f[cp] != '%' {
        AsksHaveTypes(f, localized, cp + 1, posn);
      } else {
        AsksStep(f, localized, cp, posn);
        DirectiveAsksTyped(f, cp, localized, posn);
        var next, posn' := Parts(f, cp, localized).conversion + 1, posn + Takes(f, cp, localized);
        AsksHaveTypes(f, localized, next, posn');
        TypedConcat(DirectiveAsks(f, cp, localized, posn), Asks(f, localized, next, posn'));
      }
    }
  }

  lemma AsksEnd(f: string, localized: bool, posn: nat)
    ensures Typed(Asks(f, localized, |f|, posn))
  {
  }

  lemma PlainStep(f: string, localized: bool, cp: nat, posn: nat)
    requires cp < |f| && AllWellFormed(f, localized, cp, posn)
    ensures f[cp] != '%' ==>
      AllWellFormed(f, localized, cp + 1, posn) && Asks(f, localized, cp, posn) == Asks(f, localized, cp + 1, posn)
    ensures f[cp] == '%' ==> WellFormed(f, cp, localized, posn)
  {
    hide WellFormed, DirectiveAsks, Takes, Parts;
  }

  lemma TypedConcat(a: seq<Request>, b: seq<Request>)
    requires Typed(a) && Typed(b)
    ensures Typed(a + b)
  {
  }

  /** A format string is accepted exactly if all its directives are well formed and no two of their requests give one
      argument different types. The argument types are then those requested, with nothing in the gaps. */
  lemma AcceptedIff(f: string, localized: bool)
    ensures Judge(f, localized, 0, 0, []) == Bad <==>
            !AllWellFormed(f, localized, 0, 0) || !Agree(Asks(f, localized, 0, 0))
    ensures Judge(f, localized, 0, 0, []).Good? ==>
            Holding(Judge(f, localized, 0, 0, []).types, Asks(f, localized, 0, 0))
  {
    hide *;
    JudgeIs(f, localized, 0, 0, []);
    if AllWellFormed(f, localized, 0, 0) {
      AsksHaveTypes(f, localized, 0, 0);
      RegisteringMeans(Asks(f, localized, 0, 0));
    }
  }

  // ---------------------------------------------------------------- requests in words

  /** A star asks for an int, at its position or next in sequence. */
  function StarAsks(amount: Amount, posn: nat): seq<(int, ArgType)> {
    if amount.Star? then [(StarArgument(amount, posn), INT)] else []
  }

  /** The requests of words: those of the stars, and the type the words name for the value. */
  function AsksOfWords(w: Words, posn: nat): seq<(int, ArgType)> {
    var before := posn + TakenInSequence(w.width);
    var value := if w.position != "" then NumberOf(w.position) - 1 else before + TakenInSequence(w.precision);
    StarAsks(w.width, posn) + StarAsks(w.precision, before)
    + if w.conversion != '%' then [(value, TypeOfWords(w.sizes, w.conversion))] else []
  }

  lemma TakenIs(f: string, p: nat, posn: nat)
    requires p <= |f| && GoodPosition(f, p)
    ensures TakenIndex(f, p, posn) == IndexAt(f, p, posn)
  {
    hide HasPosition, PositionValue;
  }

  lemma StarsGood(f: string, s: nat, localized: bool, posn: nat)
    requires s < |f| && WellFormed(f, s, localized, posn)
    ensures var m := Parts(f, s, localized);
            && GoodPosition(f, m.position) && m.conversion < |f|
            && (StarWidth(f, m.width) ==> m.width + 1 <= |f| && GoodPosition(f, m.width + 1))
            && (StarPrecision(f, m.precision) ==> m.precision + 2 <= |f| && GoodPosition(f, m.precision + 2))
  {
    hide Parts, GoodPosition, WidthTakes, PrecisionTakes, IsConversion;
  }

  lemma WidthInWords(f: string, p: nat, e: nat, width: Amount, posn: nat)
    requires p <= e < |f| && f[p..e] == WidthText(width) && !IsDigit(f[e]) && f[e] != '*' && WidthSpelled(width)
    requires StarWidth(f, p) ==> GoodPosition(f, p + 1)
    ensures WidthAsks(f, p, posn) == StarAsks(width, posn) && WidthTakes(f, p) == TakenInSequence(width)
  {
    WidthSaid(f, p, e, width, posn);
    hide WidthText, IsDigit, WidthSpelled, GoodPosition, TakenIndex, IndexAt, WidthSpan, WidthSpanOf, StarArgument;
    if StarWidth(f, p) {
      TakenIs(f, p + 1, posn);
    }
  }

  lemma PrecisionInWords(f: string, p: nat, e: nat, precision: Amount, posn: nat)
    requires p <= e < |f| && f[p..e] == PrecisionText(precision) && !IsDigit(f[e]) && f[e] != '*' && f[e] != '.'
    requires PrecisionSpelled(precision) && (StarPrecision(f, p) ==> GoodPosition(f, p + 2))
    ensures PrecisionAsks(f, p, posn) == StarAsks(precision, posn) && PrecisionTakes(f, p) == TakenInSequence(precision)
  {
    PrecisionSaid(f, p, e, precision, posn);
    hide PrecisionText, IsDigit, PrecisionSpelled, GoodPosition, TakenIndex, IndexAt, PrecisionSpan, PrecisionSpanOf;
    hide StarArgument;
    if StarPrecision(f, p) {
      TakenIs(f, p + 2, posn);
    }
  }

  lemma ValueInWords(f: string, s: nat, w: Words, m: Landmarks, localized: bool, posn: nat)
    requires StandsAt(f, s, w, m) && Spelled(w, localized) && m.position <= |f| && GoodPosition(f, m.position)
    ensures m.sizes <= m.conversion < |f|
    ensures ValueAsks(f, m, posn)
         == if w.conversion == '%' then []
            else [(if w.position != "" then NumberOf(w.position) - 1 else posn, TypeOfWords(w.sizes, w.conversion))]
  {
    ValueSaid(f, s, w, m, localized, posn);
    ValueTypeSaid(f, s, w, m, localized);
    WordsAre(f, s, w, m);
    TakenIs(f, m.position, posn);
    hide StandsAt, Spelled, GoodPosition, TakenIndex, IndexAt, ValueType, TypeOfWords, NumberOf, Parts;
  }

  /** A well-formed directive asks for what its words say. */
  lemma RequestsOfWords(f: string, s: nat, w: Words, m: Landmarks, localized: bool, posn: nat)
    requires StandsAt(f, s, w, m) && Spelled(w, localized) && s < |f| && WellFormed(f, s, localized, posn)
    ensures Parts(f, s, localized) == m && m.conversion < |f|
    ensures DirectiveAsks(f, s, localized, posn) == AsksOfWords(w, posn)
  {
    hide *;
    var before := posn + TakenInSequence(w.width);
    LandmarksFound(f, s, w, m, localized);
    WordByWord(f, s, w, m, localized);
    Boundaries(f, s, w, m, localized);
    StarsGood(f, s, localized, posn);
    WidthInWords(f, m.width, m.precision, w.width, posn);
    PrecisionInWords(f, m.precision, m.sizes, w.precision, before);
    ValueInWords(f, s, w, m, localized, before + TakenInSequence(w.precision));
    DirectiveAsksAre(f, s, localized, posn);
    WordsAsk(w, posn);
  }

  lemma DirectiveAsksAre(f: string, s: nat, localized: bool, posn: nat)
    requires s < |f| && Parts(f, s, localized).conversion < |f|
    ensures var m := Parts(f, s, localized);
            var posn1 := posn + WidthTakes(f, m.width);
            DirectiveAsks(f, s, localized, posn)
            == WidthAsks(f, m.width, posn) + PrecisionAsks(f, m.precision, posn1)
               + ValueAsks(f, m, posn1 + PrecisionTakes(f, m.precision))
  {
    hide WidthTakes, WidthAsks, PrecisionAsks, ValueAsks, PrecisionTakes, Parts;
  }

  lemma WordsAsk(w: Words, posn: nat)
    ensures var before := posn + TakenInSequence(w.width);
            var value := if w.position != "" then NumberOf(w.position) - 1 else before + TakenInSequence(w.precision);
            AsksOfWords(w, posn)
            == StarAsks(w.width, posn) + StarAsks(w.precision, before)
               + if w.conversion == '%' then [] else [(value, TypeOfWords(w.sizes, w.conversion))]
  {
    hide TakenInSequence, NumberOf, StarAsks, TypeOfWords;
  }

  // ---------------------------------------------------------------- well-formedness in words

  /** A position counts from 1 and leaves room for the index. */
  predicate PositionFits(position: string) {
    position == "" || 0 < NumberOf(position) < SIZE_MAX
  }

  /** So does that of a star; without one an index must be left. */
  predicate StarFits(amount: Amount, posn: nat) {
    amount.Star? ==> PositionFits(amount.position) && (amount.position == "" ==> posn != ARG_NONE)
  }

  /** The words of a directive name arguments there can be. */
  predicate WordsFit(w: Words, posn: nat) {
    var before := posn + TakenInSequence(w.width);
    && PositionFits(w.position) && StarFits(w.width, posn) && StarFits(w.precision, before)
    && (w.conversion != '%' && w.position == "" ==> before + TakenInSequence(w.precision) != ARG_NONE)
  }

  lemma NamesInWords(f: string, p: nat, position: string, posn: nat)
    requires p <= |f| && (HasPosition(f, p) <==> position != "")
    requires position != "" ==> PositionValue(f, p) == NumberOf(position)
    ensures GoodPosition(f, p) <==> PositionFits(position)
    ensures NamesArgument(f, p, posn) <==> PositionFits(position) && (position == "" ==> posn != ARG_NONE)
  {
    hide HasPosition, PositionValue, NumberOf;
  }

  lemma WidthFits(f: string, p: nat, e: nat, width: Amount, posn: nat)
    requires p <= e < |f| && f[p..e] == WidthText(width) && !IsDigit(f[e]) && f[e] != '*' && WidthSpelled(width)
    ensures (StarWidth(f, p) ==> NamesArgument(f, p + 1, posn)) <==> StarFits(width, posn)
    ensures WidthTakes(f, p) == TakenInSequence(width)
  {
    WidthFound(f, p, e, width);
    WidthSaid(f, p, e, width, posn);
    hide NamesArgument, PositionFits, HasPosition, PositionValue, NumberOf, WidthText, WidthSpelled, IsDigit, WidthSpan;
    hide WidthSpanOf, IndexAt, WidthTakes, TakenInSequence;
    if width.Star? {
      NamesInWords(f, p + 1, width.position, posn);
    }
  }

  lemma PrecisionFits(f: string, p: nat, e: nat, precision: Amount, posn: nat)
    requires p <= e < |f| && f[p..e] == PrecisionText(precision) && !IsDigit(f[e]) && f[e] != '*' && f[e] != '.'
    requires PrecisionSpelled(precision)
    ensures (StarPrecision(f, p) ==> NamesArgument(f, p + 2, posn)) <==> StarFits(precision, posn)
    ensures PrecisionTakes(f, p) == TakenInSequence(precision)
  {
    PrecisionFound(f, p, e, precision);
    PrecisionSaid(f, p, e, precision, posn);
    hide NamesArgument, PositionFits, HasPosition, PositionValue, NumberOf, PrecisionText, PrecisionSpelled, IsDigit;
    hide PrecisionSpan, PrecisionSpanOf, IndexAt, PrecisionTakes, TakenInSequence;
    if precision.Star? {
      NamesInWords(f, p + 2, precision.position, posn);
    }
  }

  lemma WellFormedIs(f: string, s: nat, localized: bool, posn: nat, m: Landmarks)
    requires s < |f| && Parts(f, s, localized) == m && m.conversion < |f| && IsConversion(f[m.conversion])
    ensures var posn1 := posn + WidthTakes(f, m.width);
            WellFormed(f, s, localized, posn) <==>
            && GoodPosition(f, m.position)
            && (StarWidth(f, m.width) ==> NamesArgument(f, m.width + 1, posn))
            && (StarPrecision(f, m.precision) ==> NamesArgument(f, m.precision + 2, posn1))
            && (f[m.conversion] != '%' ==> NamesArgument(f, m.position, posn1 + PrecisionTakes(f, m.precision)))
  {
    hide Parts, GoodPosition, NamesArgument, WidthTakes, PrecisionTakes, IsConversion;
  }

  lemma WordsFitIs(w: Words, posn: nat)
    ensures var before := posn + TakenInSequence(w.width);
            WordsFit(w, posn) <==>
            && PositionFits(w.position) && StarFits(w.width, posn) && StarFits(w.precision, before)
            && (w.conversion != '%' ==>
                  PositionFits(w.position) && (w.position == "" ==> before + TakenInSequence(w.precision) != ARG_NONE))
  {
    hide PositionFits, StarFits, TakenInSequence;
  }

  /** Where words stand, the directive is well formed exactly if they fit. */
  lemma FittingWords(f: string, s: nat, w: Words, m: Landmarks, localized: bool, posn: nat)
    requires StandsAt(f, s, w, m) && Spelled(w, localized) && s < |f|
    ensures WellFormed(f, s, localized, posn) <==> WordsFit(w, posn)
  {
    hide *;
    var before := posn + TakenInSequence(w.width);
    var posn2 := before + TakenInSequence(w.precision);
    LandmarksFound(f, s, w, m, localized);
    WordByWord(f, s, w, m, localized);
    WordsAre(f, s, w, m);
    Boundaries(f, s, w, m, localized);
    EndsSizes(f[m.conversion]);
    StartRead(f, s, w, m, localized);
    WidthFits(f, m.width, m.precision, w.width, posn);
    PrecisionFits(f, m.precision, m.sizes, w.precision, before);
    NamesInWords(f, m.position, w.position, posn2);
    WellFormedIs(f, s, localized, posn, m);
    WordsFitIs(w, posn);
  }

  lemma WellFormedEnds(f: string, s: nat, localized: bool, posn: nat)
    requires s < |f| && WellFormed(f, s, localized, posn)
    ensures var m := Parts(f, s, localized); m.conversion < |f| && IsConversion(f[m.conversion])
  {
    hide Parts, GoodPosition, NamesArgument, IsConversion;
  }

  /** So well formed is what is made of fitting words. */
  lemma WellFormedWords(f: string, s: nat, localized: bool, posn: nat)
    requires s < |f| && f[s] == '%'
    ensures WellFormed(f, s, localized, posn) <==>
            exists w: Words, m: Landmarks :: StandsAt(f, s, w, m) && Spelled(w, localized) && WordsFit(w, posn)
  {
    hide *;
    if WellFormed(f, s, localized, posn) {
      WellFormedEnds(f, s, localized, posn);
      WordsFound(f, s, localized);
      FittingWords(f, s, WordsAt(f, s, localized), Parts(f, s, localized), localized, posn);
    }
    if w: Words, m: Landmarks :| StandsAt(f, s, w, m) && Spelled(w, localized) && WordsFit(w, posn) {
      FittingWords(f, s, w, m, localized, posn);
    }
  }
}
