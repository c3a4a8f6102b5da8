/** Where the rule of fnmatch_loop.c is the language of POSIX.1-2008 XCU section 2.13, and
    where not. They agree on every string exactly when, in pathname matching, no escaped
    slash follows a run with a `*`, and under FNM_PERIOD none stands before a wildcard. */
module GlobLanguage {
  import opened Glob

  /** The alignment of a pattern with a string, read item by item. */
  ghost predicate From(items: seq<Item>, s: string, i: nat, fl: Flags) {
    if items == [] then Ends(s, i, fl)
    else exists j: nat :: Fits(items[0], s, i, j, fl) && From(items[1..], s, j, fl)
  }

  lemma {:induction false} FromToCuts(items: seq<Item>, s: string, i: nat, fl: Flags) returns (cuts: seq<nat>)
    requires From(items, s, i, fl)
    ensures Alignment(items, s, i, cuts, fl)
  {
    if items == [] {
      cuts := [i];
    } else {
      var j: nat :| Fits(items[0], s, i, j, fl) && From(items[1..], s, j, fl);
      var rest := FromToCuts(items[1..], s, j, fl);
      cuts := [i] + rest;
      forall k | 0 <= k < |items|
        ensures Fits(items[k], s, cuts[k], cuts[k + 1], fl)
      {
        if k > 0 {
          assert Fits(items[1..][k - 1], s, rest[k - 1], rest[k], fl);
        }
      }
    }
  }

  lemma {:induction false} CutsToFrom(items: seq<Item>, s: string, i: nat, cuts: seq<nat>, fl: Flags)
    requires Alignment(items, s, i, cuts, fl)
    ensures From(items, s, i, fl)
    decreases |items|
  {
    if items != [] {
      var rest := cuts[1..];
      forall k | 0 <= k < |items[1..]|
        ensures Fits(items[1..][k], s, rest[k], rest[k + 1], fl)
      {
        assert Fits(items[k + 1], s, cuts[k + 1], cuts[k + 2], fl);
      }
      CutsToFrom(items[1..], s, cuts[1], rest, fl);
      assert Fits(items[0], s, i, cuts[1], fl);
    }
  }

  /** The recursive reading is the language. */
  lemma LanguageIsFrom(pat: seq<char>, s: string, fl: Flags)
    ensures InLanguage(pat, s, fl) <==> From(Items(pat, 0, fl), s, 0, fl)
  {
    var items := Items(pat, 0, fl);
    if From(items, s, 0, fl) {
      var cuts := FromToCuts(items, s, 0, fl);
    }
    if InLanguage(pat, s, fl) {
      var cuts: seq<nat> :| Alignment(items, s, 0, cuts, fl);
      CutsToFrom(items, s, 0, cuts, fl);
    }
  }

  // ----- patterns on which the two rules cannot differ

  predicate IsSlash(item: Item) {
    item.Literal? && item.c == '/'
  }

  predicate EscapedSlash(item: Item) {
    IsSlash(item) && item.escaped
  }

  predicate Wildcard(item: Item) {
    item.AnyOne? || item.AnyRun?
  }

  /** No escaped slash right after a run of wildcards with a `*` in it. */
  predicate NoSlashAfterRun(items: seq<Item>, run: bool) {
    if items == [] then true
    else
      match items[0]
      case Literal(_, _) => !(run && EscapedSlash(items[0])) && NoSlashAfterRun(items[1..], false)
      case AnyOne => NoSlashAfterRun(items[1..], run)
      case AnyRun => NoSlashAfterRun(items[1..], true)
      case Never => true
  }

  /** No escaped slash right before a wildcard. */
  predicate NoSlashBeforeWildcard(items: seq<Item>) {
    forall k :: 0 <= k < |items| - 1 && EscapedSlash(items[k]) ==> !Wildcard(items[k + 1])
  }

  /** A trailing backslash makes both match nothing, and outside pathname matching a slash is
      a character like any other. */
  predicate Agreeing(items: seq<Item>, fl: Flags) {
    || !fl.fileName
    || Never in items
    || (NoSlashAfterRun(items, false) && (fl.period ==> NoSlashBeforeWildcard(items)))
  }

  // ----- agreement

  /** `lead` tells the truth about this position, or does not matter for the next item. */
  predicate LeadIsRight(items: seq<Item>, s: string, i: nat, lead: bool, fl: Flags) {
    items != [] && Wildcard(items[0]) ==> ((lead && i < |s| && s[i] == '.') <==> LeadingDot(s, i, fl))
  }

  lemma {:induction false} NeverAccepted(items: seq<Item>, s: string, i: nat, lead: bool, run: bool, fl: Flags)
    requires Never in items
    ensures !Accepts(items, s, i, lead, run, fl)
    decreases |items|
  {
    if Accepts(items, s, i, lead, run, fl) {
      match items[0]
      case Literal(c, escaped) =>
        NeverAccepted(items[1..], s, i + 1, !escaped && c == '/' && fl.fileName && fl.period, false, fl);
      case AnyOne =>
        NeverAccepted(items[1..], s, i + 1, false, run, fl);
      case AnyRun =>
        var j := RunEnd(items[1..], s, i, fl);
        NeverAccepted(items[1..], s, j, false, true, fl);
    }
  }

  lemma {:induction false} NeverInLanguage(items: seq<Item>, s: string, i: nat, fl: Flags)
    requires Never in items
    ensures !From(items, s, i, fl)
  {
    if items[0] != Never {
      assert Never in items[1..];
      forall j: nat
        ensures !From(items[1..], s, j, fl)
      {
        NeverInLanguage(items[1..], s, j, fl);
      }
    }
  }

  /** Under the conditions the code's rule and the language agree from every position. */
  lemma {:induction false} RulesAgree(items: seq<Item>, s: string, i: nat, lead: bool, run: bool, fl: Flags)
    requires i <= |s| && LeadIsRight(items, s, i, lead, fl)
    requires fl.fileName ==> NoSlashAfterRun(items, run) && (fl.period ==> NoSlashBeforeWildcard(items))
    ensures Accepts(items, s, i, lead, run, fl) <==> From(items, s, i, fl)
    decreases |items|
  {
    if items != [] {
      var rest := items[1..];
      assert forall k :: 0 <= k < |rest| ==> rest[k] == items[k + 1];
      match items[0]
      case Literal(c, escaped) =>
        if i < |s| {
          if StandsFor(c, s[i], fl) {
            var lead' := !escaped && c == '/' && fl.fileName && fl.period;
            RulesAgree(rest, s, i + 1, lead', false, fl);
          }
          assert Fits(items[0], s, i, i + 1, fl) <==> StandsFor(c, s[i], fl);
        }
      case AnyOne =>
        if i < |s| && Fits(items[0], s, i, i + 1, fl) {
          RulesAgree(rest, s, i + 1, false, run, fl);
        }
      case AnyRun =>
        RunAgrees(items, s, i, lead, fl);
      case Never =>
    }
  }

  lemma {:induction false} RunAgrees(items: seq<Item>, s: string, i: nat, lead: bool, fl: Flags)
    requires i <= |s| && LeadIsRight(items, s, i, lead, fl) && |items| > 0 && items[0] == AnyRun
    requires fl.fileName ==> NoSlashAfterRun(items[1..], true) && (fl.period ==> NoSlashBeforeWildcard(items))
    ensures !(lead && i < |s| && s[i] == '.') && AcceptsAfterRun(items[1..], s, i, fl) <==> From(items, s, i, fl)
    decreases |items|, 0
  {
    var rest := items[1..];
    assert forall k :: 0 <= k < |rest| ==> rest[k] == items[k + 1];
    if !LeadingDot(s, i, fl) {
      forall j: nat | Stretch(s, i, j, fl)
        ensures Accepts(rest, s, j, false, true, fl) <==> From(rest, s, j, fl)
      {
        RulesAgree(rest, s, j, false, true, fl);
      }
      if AcceptsAfterRun(rest, s, i, fl) {
        var j := RunEnd(rest, s, i, fl);
        assert Fits(items[0], s, i, j, fl);
      }
      if From(items, s, i, fl) {
        var j: nat :| Fits(items[0], s, i, j, fl) && From(rest, s, j, fl);
        assert Stretch(s, i, j, fl);
      }
    }
  }

  // ----- disagreement

  /** A slash after a run is escaped: the code matches nothing at all. */
  lemma {:induction false} SlashAfterRunMatchesNothing(items: seq<Item>, s: string, i: nat, lead: bool, run: bool,
                                                       fl: Flags)
    requires fl.fileName && !NoSlashAfterRun(items, run)
    ensures !Accepts(items, s, i, lead, run, fl)
    decreases |items|
  {
    if Accepts(items, s, i, lead, run, fl) {
      match items[0]
      case Literal(c, escaped) =>
        SlashAfterRunMatchesNothing(items[1..], s, i + 1, !escaped && c == '/' && fl.fileName && fl.period, false, fl);
      case AnyOne =>
        SlashAfterRunMatchesNothing(items[1..], s, i + 1, false, run, fl);
      case AnyRun =>
        var j := RunEnd(items[1..], s, i, fl);
        SlashAfterRunMatchesNothing(items[1..], s, j, false, true, fl);
    }
  }

  /** One character for every item: its own for a literal, an `a` for a wildcard, and at `dot`
      a period for the wildcard there. */
  function Sample(items: seq<Item>, dot: int): (s: string)
    ensures |s| == |items|
    ensures forall k :: 0 <= k < |s| ==> s[k] == SampleChar(items, k, dot)
  {
    seq(|items|, k requires 0 <= k < |items| => SampleChar(items, k, dot))
  }

  function SampleChar(items: seq<Item>, k: int, dot: int): char
    requires 0 <= k < |items|
  {
    if items[k].Literal? then items[k].c else if k == dot then '.' else 'a'
  }

  lemma SampleInLanguage(items: seq<Item>, fl: Flags)
    requires Never !in items
    ensures From(items, Sample(items, -1), 0, fl)
  {
    var s := Sample(items, -1);
    var cuts := seq(|items| + 1, k requires 0 <= k => k);
    forall k | 0 <= k < |items|
      ensures Fits(items[k], s, cuts[k], cuts[k + 1], fl)
    {
      assert items[k] in items;
    }
    CutsToFrom(items, s, 0, cuts, fl);
  }

  /** The code walks over the sample item by item: the period is not a leading one to it. */
  lemma {:induction false} SampleAccepted(items: seq<Item>, dot: nat, i: nat, lead: bool, run: bool, fl: Flags)
    requires i <= |items| && Never !in items && NoSlashAfterRun(items[i..], run)
    requires 0 < dot < |items| && EscapedSlash(items[dot - 1])
    requires lead ==> i != dot
    ensures Accepts(items[i..], Sample(items, dot), i, lead, run, fl)
    decreases |items| - i
  {
    var s := Sample(items, dot);
    if i < |items| {
      assert items[i..][1..] == items[i + 1..] && items[i..][0] == items[i];
      assert items[i] in items;
      match items[i]
      case Literal(c, escaped) =>
        SampleAccepted(items, dot, i + 1, !escaped && c == '/' && fl.fileName && fl.period, false, fl);
      case AnyOne =>
        SampleAccepted(items, dot, i + 1, false, run, fl);
      case AnyRun =>
        SampleAccepted(items, dot, i + 1, false, true, fl);
        assert Stretch(s, i, i + 1, fl);
        assert AcceptsAfterRun(items[i + 1..], s, i, fl);
    }
  }

  /** Slashes among the first k characters, and among the first k items. */
  function Slashes(s: string, k: nat): (c: nat)
    requires k <= |s|
  {
    if k == 0 then 0 else Slashes(s, k - 1) + (if s[k - 1] == '/' then 1 else 0)
  }

  function SlashItems(items: seq<Item>, k: nat): (c: nat)
    requires k <= |items|
  {
    if k == 0 then 0 else SlashItems(items, k - 1) + (if IsSlash(items[k - 1]) then 1 else 0)
  }

  lemma {:induction false} SlashesMono(s: string, i: nat, j: nat)
    requires i <= j <= |s|
    ensures Slashes(s, i) <= Slashes(s, j)
    ensures (forall k :: i <= k < j ==> s[k] != '/') ==> Slashes(s, i) == Slashes(s, j)
    decreases j
  {
    if i < j {
      SlashesMono(s, i, j - 1);
    }
  }

  /** In pathname matching every alignment pairs the slashes of pattern and string in order. */
  lemma {:induction false} AlignedSlashes(items: seq<Item>, s: string, cuts: seq<nat>, k: nat, fl: Flags)
    requires fl.fileName && Alignment(items, s, 0, cuts, fl) && k <= |items|
    ensures cuts[k] <= |s| && Slashes(s, cuts[k]) == SlashItems(items, k)
  {
    if k > 0 {
      AlignedSlashes(items, s, cuts, k - 1, fl);
      assert Fits(items[k - 1], s, cuts[k - 1], cuts[k], fl);
      SlashesMono(s, cuts[k - 1], cuts[k]);
    }
  }

  lemma AlignmentFits(items: seq<Item>, s: string, cuts: seq<nat>, k: nat, fl: Flags)
    requires Alignment(items, s, 0, cuts, fl) && k < |items|
    ensures Fits(items[k], s, cuts[k], cuts[k + 1], fl)
  {
  }

  lemma {:induction false} SampleSlashes(items: seq<Item>, dot: nat, k: nat)
    requires k <= |items| && Never !in items
    ensures Slashes(Sample(items, dot), k) == SlashItems(items, k)
  {
    if k > 0 {
      SampleSlashes(items, dot, k - 1);
      assert items[k - 1] in items;
    }
  }

  lemma SlashCounts(s: string, i: nat, j: nat)
    requires i < |s| && j <= |s| && s[i] == '/'
    ensures i < j ==> Slashes(s, i) < Slashes(s, j)
  {
    if i < j {
      SlashesMono(s, i + 1, j);
    }
  }

  /** Two slashes with the same number of slashes before them are the same. */
  lemma SameSlash(s: string, i: nat, j: nat)
    requires i < |s| && j < |s| && s[i] == '/' && s[j] == '/' && Slashes(s, i) == Slashes(s, j)
    ensures i == j
  {
    SlashCounts(s, i, j);
    SlashCounts(s, j, i);
  }

  /** In the language the period right after the slash is a leading one. */
  lemma SampleNotInLanguage(items: seq<Item>, k: nat, fl: Flags)
    requires fl.fileName && fl.period && Never !in items
    requires k + 1 < |items| && EscapedSlash(items[k]) && Wildcard(items[k + 1])
    ensures !From(items, Sample(items, k + 1), 0, fl)
  {
    var s := Sample(items, k + 1);
    if From(items, s, 0, fl) {
      var cuts := FromToCuts(items, s, 0, fl);
      AlignedSlashes(items, s, cuts, k, fl);
      SampleSlashes(items, k + 1, k);
      AlignmentFits(items, s, cuts, k, fl);
      SameSlash(s, cuts[k], k);
      AlignmentFits(items, s, cuts, k + 1, fl);
    }
  }

  // ----- the exact condition

  lemma {:induction false} SampleHasNoNul(pat: seq<char>, p: nat, fl: Flags)
    requires '\0' !in pat
    ensures forall k :: 0 <= k < |Items(pat, p, fl)| && Items(pat, p, fl)[k].Literal?
              ==> Items(pat, p, fl)[k].c != '\0'
    decreases |pat| - p
  {
    if p < |pat| {
      SampleHasNoNul(pat, p + 1, fl);
      SampleHasNoNul(pat, p + 2, fl);
    }
  }

  /** The code's verdict on a whole string: FCT called with the string's start as leading. */
  ghost predicate CodeMatches(pat: seq<char>, s: string, fl: Flags) {
    Accepts(Items(pat, 0, fl), s, 0, fl.period, false, fl)
  }

  lemma AgreeIfAgreeing(pat: seq<char>, s: string, fl: Flags)
    requires Agreeing(Items(pat, 0, fl), fl)
    ensures CodeMatches(pat, s, fl) <==> InLanguage(pat, s, fl)
  {
    var items := Items(pat, 0, fl);
    LanguageIsFrom(pat, s, fl);
    if Never in items {
      NeverAccepted(items, s, 0, fl.period, false, fl);
      NeverInLanguage(items, s, 0, fl);
    } else {
      RulesAgree(items, s, 0, fl.period, false, fl);
    }
  }

  lemma DifferIfNotAgreeing(pat: seq<char>, fl: Flags) returns (s: string)
    requires '\0' !in pat && !Agreeing(Items(pat, 0, fl), fl)
    ensures '\0' !in s && (CodeMatches(pat, s, fl) <==> !InLanguage(pat, s, fl))
  {
    var items := Items(pat, 0, fl);
    SampleHasNoNul(pat, 0, fl);
    if !NoSlashAfterRun(items, false) {
      s := Sample(items, -1);
      SampleInLanguage(items, fl);
      SlashAfterRunMatchesNothing(items, s, 0, fl.period, false, fl);
    } else {
      var k :| 0 <= k < |items| - 1 && EscapedSlash(items[k]) && Wildcard(items[k + 1]);
      s := Sample(items, k + 1);
      assert items[0..] == items;
      SampleAccepted(items, k + 1, 0, fl.period, false, fl);
      SampleNotInLanguage(items, k, fl);
    }
    LanguageIsFrom(pat, s, fl);
  }

  /** The code decides the language, on every string, for exactly the agreeing patterns. */
  lemma MatcherIsLanguageIff(pat: seq<char>, fl: Flags)
    requires '\0' !in pat && NoBrackets(pat, 0, fl)
    ensures (forall s: string :: '\0' !in s ==> (CodeMatches(pat, s, fl) <==> InLanguage(pat, s, fl)))
       <==> Agreeing(Items(pat, 0, fl), fl)
  {
    if Agreeing(Items(pat, 0, fl), fl) {
      forall s: string
        ensures CodeMatches(pat, s, fl) <==> InLanguage(pat, s, fl)
      {
        AgreeIfAgreeing(pat, s, fl);
      }
    } else {
      var s := DifferIfNotAgreeing(pat, fl);
      assert '\0' !in s;
    }
  }

  // ----- patterns as text

  function ItemText(item: Item): string {
    match item
    case Literal(c, escaped) => if escaped then ['\\', c] else [c]
    case AnyOne => "?"
    case AnyRun => "*"
    case Never => "\\"
  }

  function PatternText(items: seq<Item>): string {
    if items == [] then "" else ItemText(items[0]) + PatternText(items[1..])
  }

  /** Only what stands for itself is a literal by itself, escapes need their flag, and Never is a last backslash. */
  predicate Canonical(items: seq<Item>, fl: Flags) {
    && (forall k :: 0 <= k < |items| && items[k].Literal? && !items[k].escaped ==>
          items[k].c != '?' && items[k].c != '*' && (items[k].c == '\\' ==> fl.noEscape))
    && (forall k :: 0 <= k < |items| && ((items[k].Literal? && items[k].escaped) || items[k] == Never) ==> !fl.noEscape)
    && (forall k :: 0 <= k < |items| - 1 ==> items[k] != Never)
  }

  /** One item may stand before others. */
  predicate MayStand(item: Item, last: bool, fl: Flags) {
    && (item.Literal? && !item.escaped ==> item.c != '?' && item.c != '*' && (item.c == '\\' ==> fl.noEscape))
    && ((item.Literal? && item.escaped) || item == Never ==> !fl.noEscape)
    && (item == Never ==> last)
  }

  lemma CanonicalStep(items: seq<Item>, fl: Flags)
    requires items != []
    ensures Canonical(items, fl) <==> MayStand(items[0], items[1..] == [], fl) && Canonical(items[1..], fl)
  {
    assert forall k :: 0 <= k < |items[1..]| ==> items[1..][k] == items[k + 1];
    assert forall k :: 0 < k < |items| ==> items[k] == items[1..][k - 1];
  }

  lemma FirstItem(pat: seq<char>, p: nat, fl: Flags)
    requires p < |pat|
    ensures Items(pat, p, fl) != []
    ensures var item := Items(pat, p, fl)[0];
            var q := p + |ItemText(item)|;
            && q <= |pat| && pat[p..q] == ItemText(item) && Items(pat, p, fl)[1..] == Items(pat, q, fl)
            && MayStand(item, q == |pat|, fl) && 0 < |ItemText(item)|
  {
  }

  lemma NoItems(pat: seq<char>, fl: Flags)
    ensures Items(pat, |pat|, fl) == []
  {
  }

  /** A pattern is the text of its items. */
  lemma {:induction false} ItemsText(pat: seq<char>, p: nat, fl: Flags)
    requires p <= |pat|
    ensures PatternText(Items(pat, p, fl)) == pat[p..] && Canonical(Items(pat, p, fl), fl)
    decreases |pat| - p
  {
    hide Items, MayStand, ItemText;
    if p < |pat| {
      var items := Items(pat, p, fl);
      FirstItem(pat, p, fl);
      var q := p + |ItemText(items[0])|;
      ItemsText(pat, q, fl);
      CanonicalStep(items, fl);
      hide Canonical;
      NoItems(pat, fl);
      assert pat[p..] == pat[p..q] + pat[q..];
    } else {
      NoItems(pat, fl);
    }
  }

  lemma ItemRead(pat: seq<char>, p: nat, item: Item, last: bool, fl: Flags)
    requires p + |ItemText(item)| <= |pat| && pat[p..p + |ItemText(item)|] == ItemText(item)
    requires MayStand(item, last, fl) && (last ==> p + |ItemText(item)| == |pat|)
    ensures Items(pat, p, fl) == [item] + Items(pat, p + |ItemText(item)|, fl)
  {
    assert pat[p] == ItemText(item)[0];
    if |ItemText(item)| == 2 {
      assert pat[p + 1] == ItemText(item)[1];
    }
  }

  /** And the text of items reads back as those items. */
  lemma {:induction false} TextItems(before: string, items: seq<Item>, fl: Flags)
    requires Canonical(items, fl)
    ensures Items(before + PatternText(items), |before|, fl) == items
    decreases |items|
  {
    hide Items, Canonical, MayStand, ItemText;
    var pat := before + PatternText(items);
    if items == [] {
      NoItems(pat, fl);
    } else {
      var now := before + ItemText(items[0]);
      assert pat == now + PatternText(items[1..]);
      CanonicalStep(items, fl);
      TextItems(now, items[1..], fl);
      assert pat[|before|..|now|] == ItemText(items[0]);
      ItemRead(pat, |before|, items[0], items[1..] == [], fl);
    }
  }

  /** No character with a meaning of its own. */
  predicate Plain(pat: seq<char>) {
    forall c :: c in pat ==> c != '?' && c != '*' && c != '[' && c != '\\'
  }

  /** s begins with characters that those of pat stand for, and is used up, or a slash follows under FNM_LEADING_DIR. */
  predicate SpelledOut(pat: seq<char>, s: string, fl: Flags) {
    && |pat| <= |s| && (forall k :: 0 <= k < |pat| ==> StandsFor(pat[k], s[k], fl))
    && (|s| == |pat| || (fl.leadingDir && s[|pat|] == '/'))
  }

  lemma {:induction false} PlainItems(pat: seq<char>, p: nat, fl: Flags)
    requires Plain(pat) && p <= |pat|
    ensures |Items(pat, p, fl)| == |pat| - p && NoBrackets(pat, p, fl)
    ensures forall k :: 0 <= k < |pat| - p ==> Items(pat, p, fl)[k] == Literal(pat[p + k], false)
    decreases |pat| - p
  {
    if p < |pat| {
      assert pat[p] in pat;
      PlainItems(pat, p + 1, fl);
    }
  }

  lemma {:induction false} NothingToDiffer(items: seq<Item>, run: bool)
    requires forall k :: 0 <= k < |items| ==> items[k].Literal? && !items[k].escaped
    ensures NoSlashAfterRun(items, run)
  {
    if items != [] {
      NothingToDiffer(items[1..], false);
    }
  }

  lemma {:induction false} PlainCuts(items: seq<Item>, s: string, cuts: seq<nat>, k: nat, fl: Flags)
    requires Alignment(items, s, 0, cuts, fl) && k <= |items|
    requires forall j :: 0 <= j < |items| ==> items[j].Literal?
    ensures cuts[k] == k
  {
    if k > 0 {
      PlainCuts(items, s, cuts, k - 1, fl);
      AlignmentFits(items, s, cuts, k - 1, fl);
    }
  }

  /** A plain pattern matches its own characters, one by one, and nothing else; without FNM_CASEFOLD and
      FNM_LEADING_DIR only itself. */
  lemma PlainPattern(pat: seq<char>, s: string, fl: Flags)
    requires Plain(pat)
    ensures Agreeing(Items(pat, 0, fl), fl)
    ensures InLanguage(pat, s, fl) <==> SpelledOut(pat, s, fl)
    ensures !fl.caseFold && !fl.leadingDir ==> (InLanguage(pat, s, fl) <==> s == pat)
  {
    var items := Items(pat, 0, fl);
    PlainItems(pat, 0, fl);
    NothingToDiffer(items, false);
    if InLanguage(pat, s, fl) {
      var cuts: seq<nat> :| Alignment(items, s, 0, cuts, fl);
      forall k | 0 <= k < |pat|
        ensures k < |s| && StandsFor(pat[k], s[k], fl)
      {
        PlainCuts(items, s, cuts, k, fl);
        AlignmentFits(items, s, cuts, k, fl);
      }
      PlainCuts(items, s, cuts, |pat|, fl);
    }
    if SpelledOut(pat, s, fl) {
      var cuts := seq(|items| + 1, k requires 0 <= k => k);
      assert Alignment(items, s, 0, cuts, fl);
    }
  }

  /** With no flag but FNM_NOESCAPE, `*` stands for any text, `?` for any one character. */
  lemma WildcardsAlone(s: string, fl: Flags)
    requires !fl.fileName && !fl.period && !fl.leadingDir
    ensures InLanguage("*", s, fl)
    ensures InLanguage("?", s, fl) <==> |s| == 1
  {
    LanguageIsFrom("*", s, fl);
    LanguageIsFrom("?", s, fl);
    assert Items("*", 0, fl) == [AnyRun] + Items("*", 1, fl) == [AnyRun];
    assert Items("?", 0, fl) == [AnyOne] + Items("?", 1, fl) == [AnyOne];
    assert [AnyRun][1..] == [] && [AnyOne][1..] == [];
    assert Stretch(s, 0, |s|, fl);
    assert Fits(AnyRun, s, 0, |s|, fl) && From([], s, |s|, fl);
    if |s| == 1 {
      assert Fits(AnyOne, s, 0, 1, fl) && From([], s, 1, fl);
    }
  }

  /** `fnmatch` itself, single-byte case: 0 exactly for a match under the code's rule, and for
      agreeing patterns exactly for the strings of the language. */
  method Fnmatch(pat: seq<char>, s: string, fl: Flags) returns (r: int)
    requires '\0' !in pat && '\0' !in s && NoBrackets(pat, 0, fl)
    ensures r == 0 || r == 1
    ensures r == 0 <==> CodeMatches(pat, s, fl)
    ensures Agreeing(Items(pat, 0, fl), fl) ==> (r == 0 <==> InLanguage(pat, s, fl))
    ensures Plain(pat) ==> (r == 0 <==> SpelledOut(pat, s, fl))
    ensures Plain(pat) && !fl.caseFold && !fl.leadingDir ==> (r == 0 <==> s == pat)
  {
    if Plain(pat) {
      PlainPattern(pat, s, fl);
    }
    r := Fct(pat, 0, s, 0, fl.period, fl);
    if Agreeing(Items(pat, 0, fl), fl) {
      AgreeIfAgreeing(pat, s, fl);
    }
  }
}
