/** The matcher `FCT` of libgnu/fnmatch_loop.c (24-197, 954-982) for patterns of literals,
    escapes, `?` and `*`, against the pattern language of section 2.13 of the Shell Command
    Language volume of POSIX.1-2008. */
module Glob {

  datatype Flags = Flags(fileName: bool, noEscape: bool, period: bool, leadingDir: bool, caseFold: bool)

  /** `FOLD`, in the C locale. */
  function Fold(c: char, fl: Flags): (f: char)
    ensures f == '/' <==> c == '/'
  {
    if fl.caseFold && 'A' <= c <= 'Z' then c - 'A' + 'a' else c
  }

  /** a and b are the capital and the small form of one letter. */
  predicate OtherCase(a: char, b: char) {
    || ('A' <= a <= 'Z' && b as int == a as int + 32)
    || ('A' <= b <= 'Z' && a as int == b as int + 32)
  }

  /** A literal c stands for the character x: itself, and under FNM_CASEFOLD the other form of a letter. */
  predicate StandsFor(c: char, x: char, fl: Flags) {
    x == c || (fl.caseFold && OtherCase(c, x))
  }

  /** What the code compares, folded characters, decides it. */
  lemma FoldDecides(c: char, x: char, fl: Flags)
    ensures Fold(c, fl) == Fold(x, fl) <==> StandsFor(c, x, fl)
    ensures StandsFor(c, x, fl) ==> (c == '/' <==> x == '/')
  {
  }

  // ----- patterns as lists of items

  datatype Item = Literal(c: char, escaped: bool) | AnyOne | AnyRun | Never

  /** No `[` that would open a bracket expression. */
  predicate NoBrackets(pat: seq<char>, p: nat, fl: Flags)
    decreases |pat| - p
  {
    p >= |pat|
    || (pat[p] != '['
        && NoBrackets(pat, if pat[p] == '\\' && !fl.noEscape then p + 2 else p + 1, fl))
  }

  /** The items of the pattern from offset p on. A trailing backslash matches nothing. */
  function Items(pat: seq<char>, p: nat, fl: Flags): (items: seq<Item>)
    decreases |pat| - p
  {
    if p >= |pat| then []
    else if pat[p] == '?' then [AnyOne] + Items(pat, p + 1, fl)
    else if pat[p] == '*' then [AnyRun] + Items(pat, p + 1, fl)
    else if pat[p] == '\\' && !fl.noEscape then
      (if p + 1 >= |pat| then [Never] else [Literal(pat[p + 1], true)] + Items(pat, p + 2, fl))
    else [Literal(pat[p], false)] + Items(pat, p + 1, fl)
  }

  // ----- the language of section 2.13

  /** What `*` may stand for: in pathname matching, no slash. */
  predicate Stretch(s: string, i: nat, j: nat, fl: Flags) {
    i <= j <= |s| && (fl.fileName ==> forall k :: i <= k < j ==> s[k] != '/')
  }

  /** A period that only an explicit period may match: first in the string, or in pathname
      matching first after a slash. */
  predicate LeadingDot(s: string, i: nat, fl: Flags) {
    fl.period && i < |s| && s[i] == '.' && (i == 0 || (fl.fileName && s[i - 1] == '/'))
  }

  /** The piece s[i..j] may stand for the item. */
  predicate Fits(item: Item, s: string, i: nat, j: nat, fl: Flags) {
    match item
    case Literal(c, _) => j == i + 1 && i < |s| && StandsFor(c, s[i], fl)
    case AnyOne => j == i + 1 && i < |s| && !(fl.fileName && s[i] == '/') && !LeadingDot(s, i, fl)
    case AnyRun => Stretch(s, i, j, fl) && !LeadingDot(s, i, fl)
    case Never => false
  }

  /** The string is used up, or with FNM_LEADING_DIR only a slash and more is left. */
  predicate Ends(s: string, i: nat, fl: Flags) {
    i == |s| || (fl.leadingDir && i < |s| && s[i] == '/')
  }

  /** Cut points that give every item a piece of the string, in order. */
  predicate Alignment(items: seq<Item>, s: string, i: nat, cuts: seq<nat>, fl: Flags) {
    && |cuts| == |items| + 1
    && cuts[0] == i
    && (forall k :: 0 <= k < |items| ==> Fits(items[k], s, cuts[k], cuts[k + 1], fl))
    && Ends(s, cuts[|items|], fl)
  }

  ghost predicate InLanguage(pat: seq<char>, s: string, fl: Flags) {
    exists cuts: seq<nat> :: Alignment(Items(pat, 0, fl), s, 0, cuts, fl)
  }

  // ----- what the code accepts

  /** The matching rule the code follows. `lead` says that a period here is a leading one, `run`
      that the item comes right after a run of wildcards with a `*` in it. Two cases differ from
      the language: an escaped slash after such a run is never found, and an escaped slash
      does not make the next period a leading one. */
  ghost predicate Accepts(items: seq<Item>, s: string, i: nat, lead: bool, run: bool, fl: Flags)
    decreases |items|, 0
  {
    if items == [] then Ends(s, i, fl)
    else
      match items[0]
      case Literal(c, escaped) =>
        && !(run && escaped && c == '/' && fl.fileName)
        && i < |s| && StandsFor(c, s[i], fl)
        && Accepts(items[1..], s, i + 1, !escaped && c == '/' && fl.fileName && fl.period, false, fl)
      case AnyOne =>
        && i < |s| && !(fl.fileName && s[i] == '/') && !(lead && s[i] == '.')
        && Accepts(items[1..], s, i + 1, false, run, fl)
      case AnyRun =>
        && !(lead && i < |s| && s[i] == '.')
        && AcceptsAfterRun(items[1..], s, i, fl)
      case Never => false
  }

  /** Some stretch without slash (in pathname matching), then the rest. */
  ghost predicate AcceptsAfterRun(rest: seq<Item>, s: string, i: nat, fl: Flags)
    decreases |rest|, 1
  {
    exists j: nat :: Stretch(s, i, j, fl) && Accepts(rest, s, j, false, true, fl)
  }

  // ----- runs of wildcards fold into one

  lemma RunEnd(rest: seq<Item>, s: string, i: nat, fl: Flags) returns (j: nat)
    requires AcceptsAfterRun(rest, s, i, fl)
    ensures Stretch(s, i, j, fl) && Accepts(rest, s, j, false, true, fl)
  {
    j :| Stretch(s, i, j, fl) && Accepts(rest, s, j, false, true, fl);
  }

  /** `**` is `*`. */
  lemma RunRun(rest: seq<Item>, s: string, i: nat, fl: Flags)
    requires i <= |s|
    ensures AcceptsAfterRun([AnyRun] + rest, s, i, fl) <==> AcceptsAfterRun(rest, s, i, fl)
  {
    var items := [AnyRun] + rest;
    assert items[1..] == rest;
    if AcceptsAfterRun(items, s, i, fl) {
      var j := RunEnd(items, s, i, fl);
      var j' := RunEnd(rest, s, j, fl);
      assert Stretch(s, i, j', fl);
    }
    if AcceptsAfterRun(rest, s, i, fl) {
      assert AcceptsAfterRun(items[1..], s, i, fl);
      assert Accepts(items, s, i, false, true, fl);
    }
  }

  /** `*?` takes one character, which is no slash in pathname matching, and is then `*`. */
  lemma RunOne(rest: seq<Item>, s: string, i: nat, fl: Flags)
    requires i <= |s|
    ensures AcceptsAfterRun([AnyOne] + rest, s, i, fl)
       <==> i < |s| && !(fl.fileName && s[i] == '/') && AcceptsAfterRun(rest, s, i + 1, fl)
  {
    var items := [AnyOne] + rest;
    assert items[1..] == rest;
    if AcceptsAfterRun(items, s, i, fl) {
      var j := RunEnd(items, s, i, fl);
      assert Accepts(rest, s, j + 1, false, true, fl);
      assert Stretch(s, i + 1, j + 1, fl);
    }
    if i < |s| && !(fl.fileName && s[i] == '/') && AcceptsAfterRun(rest, s, i + 1, fl) {
      var j := RunEnd(rest, s, i + 1, fl);
      assert Accepts(items, s, j - 1, false, true, fl);
      assert Stretch(s, i, j - 1, fl);
    }
  }

  /** Outside pathname matching FNM_PERIOD has no effect past the first character. */
  lemma {:induction false} PeriodDropped(items: seq<Item>, s: string, i: nat, lead: bool, run: bool, fl: Flags)
    requires !fl.fileName
    ensures Accepts(items, s, i, lead, run, fl) <==> Accepts(items, s, i, lead, run, fl.(period := false))
    decreases |items|
  {
    var fl' := fl.(period := false);
    if items != [] {
      match items[0]
      case Literal(c, escaped) =>
        PeriodDropped(items[1..], s, i + 1, false, false, fl);
      case AnyOne =>
        PeriodDropped(items[1..], s, i + 1, false, run, fl);
      case AnyRun =>
        forall j: nat | Stretch(s, i, j, fl)
          ensures Accepts(items[1..], s, j, false, true, fl) <==> Accepts(items[1..], s, j, false, true, fl')
        {
          PeriodDropped(items[1..], s, j, false, true, fl);
        }
        assert forall j: nat :: Stretch(s, i, j, fl) <==> Stretch(s, i, j, fl');
        assert AcceptsAfterRun(items[1..], s, i, fl) <==> AcceptsAfterRun(items[1..], s, i, fl');
      case Never =>
    }
  }

  // ----- the code (24-197, 954-982)

  /** The pattern character at p, or the terminating NUL. */
  function At(pat: seq<char>, p: nat): char {
    if p < |pat| then pat[p] else '\0'
  }

  /** `MEMCHR` on the rest of the string, with the end of the string for no occurrence. */
  method FindFrom(s: string, n: nat, c: char) returns (e: nat)
    requires n <= |s|
    ensures n <= e <= |s| && (forall k :: n <= k < e ==> s[k] != c)
    ensures e < |s| ==> s[e] == c
  {
    e := n;
    while e < |s| && s[e] != c
      invariant n <= e <= |s| && forall k :: n <= k < e ==> s[k] != c
    {
      e := e + 1;
    }
  }

  /** 0 for a match, FNM_NOMATCH (1) for none. */
  method Fct(pat: seq<char>, pattern: nat, s: string, start: nat, lead: bool, fl: Flags) returns (r: int)
    requires '\0' !in pat && '\0' !in s && start <= |s|
    requires NoBrackets(pat, pattern, fl)
    ensures r == 0 || r == 1
    ensures r == 0 <==> Accepts(Items(pat, pattern, fl), s, start, lead, false, fl)
    decreases |pat| - pattern, 1
  {
    var p, n, noLeadingPeriod := pattern, start, lead;
    while p < |pat|
      invariant pattern <= p && 0 <= n <= |s| && NoBrackets(pat, p, fl)
      invariant Accepts(Items(pat, pattern, fl), s, start, lead, false, fl)
           <==> Accepts(Items(pat, p, fl), s, n, noLeadingPeriod, false, fl)
      decreases |pat| - p
    {
      var c := pat[p];
      ghost var here := Items(pat, p, fl);
      p := p + 1;
      var newNoLeadingPeriod := false;
      if c == '?' {
        assert here == [AnyOne] + Items(pat, p, fl);
        if n == |s| {
          return 1;
        } else if s[n] == '/' && fl.fileName {
          return 1;
        } else if s[n] == '.' && noLeadingPeriod {
          return 1;
        }
      } else if c == '\\' {
        if !fl.noEscape {
          c := At(pat, p);
          p := p + 1;
          if c == '\0' {
            return 1;
          }
        }
        if n < |s| {
          FoldDecides(c, s[n], fl);
        }
        if n == |s| || Fold(s[n], fl) != Fold(c, fl) {
          return 1;
        }
      } else if c == '*' {
        assert here == [AnyRun] + Items(pat, p, fl);
        if n != |s| && s[n] == '.' && noLeadingPeriod {
          return 1;
        }
        r := Star(pat, p, s, n, noLeadingPeriod, fl);
        return;
      } else if c == '/' && fl.fileName && fl.period {
        if n == |s| || c != s[n] {
          return 1;
        }
        newNoLeadingPeriod := true;
      } else {
        if n < |s| {
          FoldDecides(c, s[n], fl);
        }
        if n == |s| || Fold(c, fl) != Fold(s[n], fl) {
          return 1;
        }
      }
      noLeadingPeriod := newNoLeadingPeriod;
      n := n + 1;
    }
    if n == |s| {
      return 0;
    }
    if fl.leadingDir && s[n] == '/' {
      return 0;
    }
    return 1;
  }

  /** The case `*`, after the star itself. */
  method Star(pat: seq<char>, p0: nat, s: string, n0: nat, lead: bool, fl: Flags) returns (r: int)
    requires '\0' !in pat && '\0' !in s && n0 <= |s| && 0 < p0 <= |pat|
    requires NoBrackets(pat, p0, fl)
    ensures r == 0 || r == 1
    ensures r == 0 <==> AcceptsAfterRun(Items(pat, p0, fl), s, n0, fl)
    decreases |pat| - p0, 3
  {
    var p, n := p0, n0;
    while At(pat, p) == '?' || At(pat, p) == '*'
      invariant p0 <= p <= |pat| && 0 <= n <= |s| && NoBrackets(pat, p, fl)
      invariant AcceptsAfterRun(Items(pat, p0, fl), s, n0, fl) <==> AcceptsAfterRun(Items(pat, p, fl), s, n, fl)
      decreases |pat| - p
    {
      if At(pat, p) == '?' {
        RunOne(Items(pat, p + 1, fl), s, n, fl);
        if n == |s| {
          return 1;
        } else if s[n] == '/' && fl.fileName {
          return 1;
        } else {
          n := n + 1;
        }
      } else {
        RunRun(Items(pat, p + 1, fl), s, n, fl);
      }
      p := p + 1;
    }
    var c := At(pat, p);
    if c == '\0' {
      r := StarAtEnd(s, n, fl);
    } else if c == '/' && fl.fileName {
      r := StarSlash(pat, p, s, n, fl);
    } else {
      r := StarLiteral(pat, p, s, n, lead, fl);
    }
  }

  /** The wildcards are the last of the pattern. */
  method StarAtEnd(s: string, n: nat, fl: Flags) returns (r: int)
    requires n <= |s|
    ensures r == 0 || r == 1
    ensures r == 0 <==> AcceptsAfterRun([], s, n, fl)
  {
    var e := FindFrom(s, n, '/');
    if !fl.fileName {
      assert Stretch(s, n, |s|, fl) && Accepts([], s, |s|, false, true, fl);
      return 0;
    }
    assert Stretch(s, n, e, fl);
    if fl.leadingDir {
      assert Accepts([], s, e, false, true, fl);
      return 0;
    }
    if e == |s| {
      assert Accepts([], s, e, false, true, fl);
      return 0;
    }
    assert forall j: nat :: Stretch(s, n, j, fl) ==> j <= e;
    return 1;
  }

  /** `*` and then an unescaped slash, in pathname matching. */
  method StarSlash(pat: seq<char>, p: nat, s: string, n: nat, fl: Flags) returns (r: int)
    requires '\0' !in pat && '\0' !in s && n <= |s| && p < |pat|
    requires pat[p] == '/' && fl.fileName && NoBrackets(pat, p, fl)
    ensures r == 0 || r == 1
    ensures r == 0 <==> AcceptsAfterRun(Items(pat, p, fl), s, n, fl)
    decreases |pat| - p, 1
  {
    ghost var items, rest := Items(pat, p, fl), Items(pat, p + 1, fl);
    assert items == [Literal('/', false)] + rest && items[1..] == rest;
    var e := FindFrom(s, n, '/');
    assert Stretch(s, n, e, fl);
    assert forall j: nat :: Stretch(s, n, j, fl) && j < |s| && s[j] == '/' ==> j == e;
    if e < |s| {
      r := Fct(pat, p + 1, s, e + 1, fl.period, fl);
      if r == 0 {
        assert Accepts(items, s, e, false, true, fl);
        return 0;
      }
    }
    return 1;
  }

  /** The character the next literal stands for, NUL after a trailing backslash. */
  function FirstChar(pat: seq<char>, p: nat, fl: Flags): char {
    if At(pat, p) == '\\' && !fl.noEscape then At(pat, p + 1) else At(pat, p)
  }

  predicate StartsWithLiteral(pat: seq<char>, p: nat, fl: Flags) {
    && p < |pat| && pat[p] != '?' && pat[p] != '*'
    && !(pat[p] == '/' && fl.fileName)
    && '\0' !in pat
  }

  /** A literal is matched only where its character stands, and after a run never at a slash
      in pathname matching. */
  lemma LiteralNeeds(pat: seq<char>, p: nat, s: string, n: nat, fl: Flags)
    requires StartsWithLiteral(pat, p, fl)
    ensures Accepts(Items(pat, p, fl), s, n, false, true, fl)
        ==> n < |s| && Fold(s[n], fl) == Fold(FirstChar(pat, p, fl), fl) && !(fl.fileName && s[n] == '/')
  {
    if n < |s| {
      FoldDecides(FirstChar(pat, p, fl), s[n], fl);
    }
  }

  /** There the code may look at the literal with the caller's period flag, and forget that a
      run came before. */
  lemma LiteralAt(pat: seq<char>, p: nat, s: string, n: nat, lead: bool, fl: Flags, fl2: Flags)
    requires StartsWithLiteral(pat, p, fl) && n < |s| && !(fl.fileName && s[n] == '/')
    requires fl2 == if fl.fileName then fl else fl.(period := false)
    ensures Items(pat, p, fl2) == Items(pat, p, fl)
    ensures Accepts(Items(pat, p, fl), s, n, lead, false, fl2)
       <==> Accepts(Items(pat, p, fl), s, n, false, true, fl)
  {
    ItemsIgnorePeriod(pat, p, fl);
    if !fl.fileName {
      PeriodDropped(Items(pat, p, fl), s, n, false, true, fl);
    }
  }

  lemma {:induction false} ItemsIgnorePeriod(pat: seq<char>, p: nat, fl: Flags)
    ensures Items(pat, p, fl.(period := false)) == Items(pat, p, fl)
    ensures NoBrackets(pat, p, fl.(period := false)) == NoBrackets(pat, p, fl)
    decreases |pat| - p
  {
    if p < |pat| {
      ItemsIgnorePeriod(pat, p + 1, fl);
      ItemsIgnorePeriod(pat, p + 2, fl);
    }
  }

  /** `*` and then another literal: try every place where its character stands. */
  method StarLiteral(pat: seq<char>, p: nat, s: string, n0: nat, lead: bool, fl: Flags) returns (r: int)
    requires StartsWithLiteral(pat, p, fl) && '\0' !in s && n0 <= |s| && NoBrackets(pat, p, fl)
    ensures r == 0 || r == 1
    ensures r == 0 <==> AcceptsAfterRun(Items(pat, p, fl), s, n0, fl)
    decreases |pat| - p, 2
  {
    var endp := FindFrom(s, n0, if fl.fileName then '/' else '\0');
    var fl2 := if fl.fileName then fl else fl.(period := false);
    var lead2 := lead;
    var c := if pat[p] == '\\' && !fl.noEscape then At(pat, p + 1) else pat[p];
    c := Fold(c, fl);
    ghost var items := Items(pat, p, fl);
    ItemsIgnorePeriod(pat, p, fl);
    var n := n0;
    while n < endp
      invariant n0 <= n <= endp
      invariant forall j: nat :: n0 <= j < n ==> !Accepts(items, s, j, false, true, fl)
    {
      LiteralNeeds(pat, p, s, n, fl);
      if Fold(s[n], fl) == c {
        LiteralAt(pat, p, s, n, lead2, fl, fl2);
        r := Fct(pat, p, s, n, lead2, fl2);
        if r == 0 {
          assert Stretch(s, n0, n, fl) && Accepts(items, s, n, false, true, fl);
          return 0;
        }
      }
      n := n + 1;
      lead2 := false;
    }
    LiteralNeeds(pat, p, s, endp, fl);
    assert forall j: nat :: Stretch(s, n0, j, fl) ==> j <= endp;
    return 1;
  }
}
