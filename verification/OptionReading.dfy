/** What a user's words mean to the option scanner, in terms of the words themselves: how the text of an element is divided
    into option, argument and rest, which argument an option gets, and the codes of the errors. */
module OptionReading {
  import opened Options

  // ----- short options (592-661)

  /** c stands in optstring, and what follows it where it stands first begins with `text`. */
  ghost predicate FollowedBy(optstring: string, c: char, text: string) {
    exists t: nat :: t < |optstring| && optstring[t] == c && c !in optstring[..t] && text <= optstring[t + 1..]
  }

  ghost predicate IsShort(optstring: string, c: char) {
    c in optstring && c != ':'
  }

  /** One colon: an argument is required. Two: it is optional. */
  ghost predicate TakesArgument(optstring: string, c: char) {
    FollowedBy(optstring, c, ":")
  }

  ghost predicate ArgumentOptional(optstring: string, c: char) {
    FollowedBy(optstring, c, "::")
  }

  /** The code for a missing argument. */
  function MissingCode(optstring: string): int {
    if ":" <= optstring then ':' as int else '?' as int
  }

  /** d says what the first of the characters nc, an option cluster without its '-', is, `next` being the element after
      the cluster's. */
  ghost predicate ReadsShort(optstring: string, nc: string, next: Option<string>, d: Decoded)
    requires |nc| > 0
  {
    var c := nc[0];
    if !IsShort(optstring, c) then
      // an unknown letter
      && d.code == '?' as int && d.optarg == None && d.optopt == Some(c)
      && nc == [c] + d.rest && d.advance == (if d.rest == "" then 1 else 0)
    else if !TakesArgument(optstring, c) then
      && d.code == c as int && d.optarg == None && d.optopt == None
      && nc == [c] + d.rest && d.advance == (if d.rest == "" then 1 else 0)
    else if ArgumentOptional(optstring, c) then
      // an argument in the same element or none
      && d.code == c as int && d.optopt == None && d.rest == "" && d.advance == 1
      && (d.optarg.None? ==> nc == [c])
      && (d.optarg.Some? ==> d.optarg.value != "" && nc == [c] + d.optarg.value)
    else if nc != [c] then
      // attached
      && d.code == c as int && d.optopt == None && d.rest == "" && d.advance == 1
      && d.optarg.Some? && nc == [c] + d.optarg.value
    else if next.Some? then
      // detached: two elements are used
      d == Decoded(c as int, next, "", 2, None)
    else
      d == Decoded(MissingCode(optstring), None, "", 1, Some(c))
  }

  /** Where the first occurrence of a character stands decides what follows it. */
  lemma FollowedByIs(optstring: string, c: char, text: string)
    ensures FollowedBy(optstring, c, text) <==>
            IndexOf(optstring, c, 0).Some? && text <= optstring[IndexOf(optstring, c, 0).value + 1..]
    ensures c in optstring <==> IndexOf(optstring, c, 0).Some?
  {
    match IndexOf(optstring, c, 0)
    case None =>
    case Some(t) =>
      assert c !in optstring[..t];
      forall u: nat | u < |optstring| && optstring[u] == c && c !in optstring[..u]
        ensures u == t
      {
        assert forall v :: 0 <= v < u ==> optstring[..u][v] == optstring[v];
      }
  }

  lemma ColonsAre(optstring: string, t: nat)
    requires t < |optstring|
    ensures ":" <= optstring[t + 1..] <==> At(optstring, t + 1) == ':'
    ensures "::" <= optstring[t + 1..] <==> At(optstring, t + 1) == ':' && At(optstring, t + 2) == ':'
    ensures ":" <= optstring <==> At(optstring, 0) == ':'
  {
  }

  /** What the scanner decodes from a short option is that. */
  lemma ShortIsRead(g: Grammar, nc: string, next: Option<string>)
    requires |nc| > 0
    ensures ReadsShort(g.optstring, nc, next, DecodeShort(g, nc, next))
  {
    var c := nc[0];
    assert nc == [c] + nc[1..];
    FollowedByIs(g.optstring, c, ":");
    FollowedByIs(g.optstring, c, "::");
    match IndexOf(g.optstring, c, 0)
    case None =>
    case Some(t) => ColonsAre(g.optstring, t);
    if |g.optstring| > 0 {
      ColonsAre(g.optstring, 0);
    }
  }

  // ----- long options (466-590)

  /** The text of a long option: its name, and with '=' its argument. */
  function LongText(name: string, arg: Option<string>): string {
    name + match arg case None => "" case Some(a) => "=" + a
  }

  /** d says what a long option is, `next` being the element after its own. None: it is to be read as short options. */
  ghost predicate ReadsLong(g: Grammar, elem: string, name: string, arg: Option<string>, next: Option<string>,
                            d: Option<Decoded>)
    requires g.long.Some?
  {
    var long := g.long.value;
    match Lookup(long, name)
    case Match(i) =>
      // LookupMeaning says which option this is; its name begins with the one given
      && name <= long[i].name && d.Some? && d.value.rest == "" && d.value.optopt == None
      && var code := if long[i].flag then 0 else long[i].val;
         if arg.Some? then
           // an argument after '=', which a plain option must not have
           && d.value.advance == 1
           && (if long[i].hasArg == 0 then d.value.code == '?' as int && d.value.optarg == None
               else d.value.code == code && d.value.optarg == arg)
         else if long[i].hasArg != 1 then
           d.value.code == code && d.value.optarg == None && d.value.advance == 1
         else if next.Some? then
           d.value.code == code && d.value.optarg == next && d.value.advance == 2
         else
           d.value.code == MissingCode(g.optstring) && d.value.optarg == None && d.value.advance == 1
    case Ambiguous => d == Some(Decoded('?' as int, None, "", 1, None))
    case NotFound =>
      d == (if g.longOnly && !("--" <= elem) && LongText(name, arg) != "" && LongText(name, arg)[0] in g.optstring
            then None else Some(Decoded('?' as int, None, "", 1, None)))
  }

  /** The name ends at the first '='. */
  lemma NameIs(name: string, arg: Option<string>)
    requires '=' !in name
    ensures NameLength(LongText(name, arg)) == |name| && LongText(name, arg)[..|name|] == name
    ensures arg.Some? <==> |name| < |LongText(name, arg)|
    ensures arg.Some? ==> LongText(name, arg)[|name| + 1..] == arg.value
  {
    var nc := LongText(name, arg);
    var n := NameLength(nc);
    assert forall k :: 0 <= k < |name| ==> nc[k] == name[k];
    if arg.Some? {
      assert nc[|name|] == '=';
    }
  }

  /** What the scanner decodes from a long option is that. */
  lemma LongIsRead(g: Grammar, elem: string, name: string, arg: Option<string>, next: Option<string>)
    requires g.long.Some? && '=' !in name && LongText(name, arg) != "" && "-" <= elem
    ensures ReadsLong(g, elem, name, arg, next, DecodeLong(g, elem, LongText(name, arg), next))
  {
    var nc := LongText(name, arg);
    NameIs(name, arg);
    FollowedByIs(g.optstring, nc[0], "");
    if |g.optstring| > 0 {
      ColonsAre(g.optstring, 0);
    }
    assert At(elem, 1) == '-' <==> "--" <= elem;
  }

  /** Every text has just one such name. */
  lemma LongTextExists(nc: string) returns (name: string, arg: Option<string>)
    ensures '=' !in name && nc == LongText(name, arg)
  {
    var n := NameLength(nc);
    name, arg := nc[..n], if n < |nc| then Some(nc[n + 1..]) else None;
    if n < |nc| {
      assert nc == nc[..n] + ("=" + nc[n + 1..]);
    }
  }

  // ----- which reading applies

  /** Options with two dashes are long ones if there are any; with one dash only for a scan that prefers long options,
      and then not for a known letter alone. */
  lemma WhichReading(g: Grammar, elem: string)
    requires IsOption(elem)
    ensures TriesLong(g, elem) <==>
            && g.long.Some?
            && ("--" <= elem || (g.longOnly && !(|elem| == 2 && elem[1] in g.optstring)))
    ensures elem == (if g.long.Some? && "--" <= elem then "--" else "-") + Start(g, elem)
  {
    FollowedByIs(g.optstring, elem[1], "");
  }

  /** An option is a word with a dash in front, longer than the dash, other than the word of two dashes. */
  lemma WhatIsOption(elem: string)
    ensures IsOption(elem) <==> "-" <= elem && elem != "-" && elem != "--"
    ensures IsNonOption(elem) <==> !("-" <= elem) || elem == "-"
  {
  }

  // ----- what is reported

  /** A report is the reading of the first of the characters nc; after the last one nothing is left. */
  ghost predicate ReportReads(optstring: string, nc: string, next: Option<string>, report: Report, last: bool)
    requires |nc| > 0
  {
    exists d :: ReadsShort(optstring, nc, next, d) && report == (d.code, d.optarg)
                && d.rest == if last then "" else nc[1..]
  }

  /** A cluster is read letter by letter: report k is the reading of what is left from letter k on. */
  lemma {:induction false} ClusterIsRead(g: Grammar, elem: string, nc: string, next: Option<string>)
    requires |nc| > 0 && !TriesLong(g, elem)
    ensures var r := Reports(g, elem, nc, next);
            && 1 <= |r| <= |nc|
            && forall k :: 0 <= k < |r| ==> ReportReads(g.optstring, nc[k..], next, r[k], k == |r| - 1)
    decreases |nc|
  {
    var r := Reports(g, elem, nc, next);
    var d := DecodeShort(g, nc, next);
    ShortIsRead(g, nc, next);
    assert nc[0..] == nc;
    assert d.rest != "" ==> d.rest == nc[1..];
    assert ReportReads(g.optstring, nc, next, r[0], d.rest == "");
    hide ReportReads, ReadsShort, DecodeShort, TriesLong;
    if d.rest != "" {
      ClusterIsRead(g, elem, d.rest, next);
      var more := Reports(g, elem, d.rest, next);
      assert r == [(d.code, d.optarg)] + more;
      forall k | 0 < k < |r|
        ensures ReportReads(g.optstring, nc[k..], next, r[k], k == |r| - 1)
      {
        assert d.rest[k - 1..] == nc[k..];
      }
    }
  }

  /** A long option is one report. */
  lemma LongIsReported(g: Grammar, elem: string, name: string, arg: Option<string>, next: Option<string>)
    requires g.long.Some? && '=' !in name && LongText(name, arg) != "" && "--" <= elem
    ensures var d := DecodeLong(g, elem, LongText(name, arg), next);
            && d.Some? && ReadsLong(g, elem, name, arg, next, d)
            && Reports(g, elem, LongText(name, arg), next) == [(d.value.code, d.value.optarg)]
  {
    LongIsRead(g, elem, name, arg, next);
  }

  // ----- words of an argument vector

  lemma OneElement(g: Grammar, a: seq<string>, i: nat)
    requires i < |a| && IsOption(a[i])
    ensures AllReports(g, a, i, i + Taken(g, a, i)) == Reports(g, a[i], Start(g, a[i]), Next(a, i))
    ensures Taken(g, a, i) == Width(g, a[i], Start(g, a[i]), Next(a, i))
  {
    hide Taken, Reports, Start, Width;
    var w := Taken(g, a, i);
    assert AllReports(g, a, i + w, i + w) == [];
    TakenIs(g, a, i);
  }

  lemma TakenIs(g: Grammar, a: seq<string>, i: nat)
    requires i < |a| && IsOption(a[i])
    ensures Taken(g, a, i) == Width(g, a[i], Start(g, a[i]), Next(a, i))
  {
  }

  /** `-cARG`, where c takes an argument: one element, reported as c with ARG. */
  lemma AttachedArgument(g: Grammar, a: seq<string>, i: nat, c: char, arg: string)
    requires i < |a| && a[i] == "-" + [c] + arg && arg != "" && c != '-'
    requires IsShort(g.optstring, c) && TakesArgument(g.optstring, c) && !TriesLong(g, a[i])
    ensures IsOption(a[i]) && Taken(g, a, i) == 1 && AllReports(g, a, i, i + 1) == [(c as int, Some(arg))]
  {
    var nc := [c] + arg;
    assert a[i] == "-" + nc && a[i][1] == c;
    assert a[i][1..] == nc;
    ShortIsRead(g, nc, Next(a, i));
    OneElement(g, a, i);
    assert nc[1..] == arg;
    hide ReadsShort, FollowedBy, TriesLong, AllReports, Taken;
    AttachedIs(g, nc, Next(a, i), c, arg);
  }

  lemma AttachedIs(g: Grammar, nc: string, next: Option<string>, c: char, arg: string)
    requires nc == [c] + arg && arg != "" && IsShort(g.optstring, c) && TakesArgument(g.optstring, c)
    ensures DecodeShort(g, nc, next) == Decoded(c as int, Some(arg), "", 1, None)
  {
    ShortIsRead(g, nc, next);
    var d := DecodeShort(g, nc, next);
    hide DecodeShort, IsShort, FollowedBy;
    if d.optarg.Some? {
      assert ([c] + d.optarg.value)[1..] == d.optarg.value && nc[1..] == arg;
    }
  }

  /** `-c ARG`, where c needs an argument: two elements, reported as c with ARG, whatever ARG looks like. */
  lemma DetachedArgument(g: Grammar, a: seq<string>, i: nat, c: char)
    requires i + 1 < |a| && a[i] == "-" + [c] && c != '-'
    requires IsShort(g.optstring, c) && TakesArgument(g.optstring, c) && !ArgumentOptional(g.optstring, c)
    requires !TriesLong(g, a[i])
    ensures IsOption(a[i]) && Taken(g, a, i) == 2 && AllReports(g, a, i, i + 2) == [(c as int, Some(a[i + 1]))]
  {
    assert a[i][1..] == [c];
    ShortIsRead(g, [c], Next(a, i));
    OneElement(g, a, i);
    hide FollowedBy, TriesLong, AllReports, Taken, DecodeShort;
  }

  /** `--NAME=ARG`, where NAME names an option that may have an argument: one element, reported with ARG. */
  lemma LongAttached(g: Grammar, a: seq<string>, i: nat, name: string, arg: string, j: nat)
    requires i < |a| && a[i] == "--" + name + "=" + arg && '=' !in name && g.long.Some?
    requires Lookup(g.long.value, name) == Match(j) && g.long.value[j].hasArg != 0
    ensures IsOption(a[i]) && Taken(g, a, i) == 1
    ensures AllReports(g, a, i, i + 1)
         == [(if g.long.value[j].flag then 0 else g.long.value[j].val, Some(arg))]
  {
    var nc := LongText(name, Some(arg));
    assert a[i] == "--" + nc;
    assert a[i][2..] == nc;
    LongIsReported(g, a[i], name, Some(arg), Next(a, i));
    OneElement(g, a, i);
    hide Lookup, AllReports, Taken, DecodeLong, Reports;
  }

  /** `--NAME ARG`, where NAME needs an argument: two elements, reported with ARG. */
  lemma LongDetached(g: Grammar, a: seq<string>, i: nat, name: string, j: nat)
    requires i + 1 < |a| && a[i] == "--" + name && '=' !in name && name != "" && g.long.Some?
    requires Lookup(g.long.value, name) == Match(j) && g.long.value[j].hasArg == 1
    ensures IsOption(a[i]) && Taken(g, a, i) == 2
    ensures AllReports(g, a, i, i + 2)
         == [(if g.long.value[j].flag then 0 else g.long.value[j].val, Some(a[i + 1]))]
  {
    assert LongText(name, None) == name;
    assert a[i][2..] == name;
    LongIsReported(g, a[i], name, None, Next(a, i));
    OneElement(g, a, i);
    hide Lookup, AllReports, Taken, DecodeLong, Reports;
  }
}
