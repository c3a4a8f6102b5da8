/** `exchange`, `_getopt_initialize` and `_getopt_internal` of src/getopt.c, in PERMUTE order:
    the argument vector is permuted in place, a bit in every call. */
module Getopt {
  import opened Options

  const EOF: int := -1

  /** b is a with the stretches of length len at p and q exchanged. */
  predicate Swapped(a: seq<string>, b: seq<string>, p: nat, q: nat, len: nat) {
    && p + len <= q && q + len <= |a| == |b|
    && b[p..p + len] == a[q..q + len] && b[q..q + len] == a[p..p + len]
    && forall k :: 0 <= k < |a| && !(p <= k < p + len) && !(q <= k < q + len) ==> b[k] == a[k]
  }

  method SwapStretches(a: array<string>, p: nat, q: nat, len: nat)
    requires p + len <= q && q + len <= a.Length
    modifies a
    ensures Swapped(old(a[..]), a[..], p, q, len)
  {
    var i := 0;
    ghost var o := a[..];
    while i < len
      invariant 0 <= i <= len
      invariant forall k :: p <= k < p + i ==> a[k] == o[k + (q - p)]
      invariant forall k :: q <= k < q + i ==> a[k] == o[k - (q - p)]
      invariant forall k :: 0 <= k < a.Length && !(p <= k < p + i) && !(q <= k < q + i) ==> a[k] == o[k]
    {
      var tem := a[p + i];
      a[p + i] := a[q + i];
      a[q + i] := tem;
      i := i + 1;
    }
  }

  /** What is left to do: the middle part is to be rotated, the ends are in place. */
  predicate Rotating(a: seq<string>, first: nat, bottom: nat, middle: nat, top: nat, end: nat, target: seq<string>) {
    && first <= bottom <= middle <= top <= end <= |a|
    && a[first..bottom] + a[middle..top] + a[bottom..middle] + a[top..end] == target
  }

  /** The bottom segment is the shorter one: it goes to the far end of the top segment. */
  lemma RotateBottom(a: seq<string>, b: seq<string>, first: nat, bottom: nat, middle: nat, top: nat, end: nat,
                     target: seq<string>)
    requires Rotating(a, first, bottom, middle, top, end, target) && middle - bottom < top - middle
    requires Swapped(a, b, bottom, top - (middle - bottom), middle - bottom)
    ensures Rotating(b, first, bottom, middle, top - (middle - bottom), end, target)
  {
    var len := middle - bottom;
    var p, x, y1, y2, s := a[first..bottom], a[bottom..middle], a[middle..top - len], a[top - len..top], a[top..end];
    assert a[middle..top] == y1 + y2;
    assert b[first..bottom] == p && b[bottom..middle] == y2 && b[middle..top - len] == y1;
    assert b[top - len..top] == x && b[top..end] == s;
    assert b[top - len..end] == x + s;
    Reassociate(p, y1, y2, x, s);
  }

  lemma Reassociate(p: seq<string>, y1: seq<string>, y2: seq<string>, x: seq<string>, s: seq<string>)
    ensures p + (y1 + y2) + x + s == p + y1 + y2 + (x + s)
    ensures (p + y1) + y2 + x + s == p + y1 + (y2 + x) + s
  {
  }

  /** The top segment is the shorter one: it goes to the bottom of the bottom segment. */
  lemma RotateTop(a: seq<string>, b: seq<string>, first: nat, bottom: nat, middle: nat, top: nat, end: nat,
                  target: seq<string>)
    requires Rotating(a, first, bottom, middle, top, end, target) && top - middle <= middle - bottom
    requires Swapped(a, b, bottom, middle, top - middle)
    ensures Rotating(b, first, bottom + (top - middle), middle, top, end, target)
  {
    var len := top - middle;
    var p, x1, x2, y, s := a[first..bottom], a[bottom..bottom + len], a[bottom + len..middle], a[middle..top], a[top..end];
    assert a[bottom..middle] == x1 + x2;
    assert b[first..bottom + len] == p + y;
    assert b[middle..top] == x1 && b[bottom + len..middle] == x2 && b[top..end] == s;
    Reassociate(p, y, x1, x2, s);
  }

  lemma RotatingBounds(a: seq<string>, first: nat, bottom: nat, middle: nat, top: nat, end: nat, target: seq<string>)
    requires Rotating(a, first, bottom, middle, top, end, target)
    ensures first <= bottom <= middle <= top <= end <= |a|
  {
  }

  lemma SwappedFrame(a: seq<string>, b: seq<string>, p: nat, q: nat, len: nat)
    requires Swapped(a, b, p, q, len)
    ensures |b| == |a| && forall k :: 0 <= k < |a| && !(p <= k < q + len) ==> b[k] == a[k]
  {
  }

  /** The bottom segment is the short one: swap it with the top part of the top segment. */
  method RoundBottom(a: array<string>, ghost first: nat, bottom: nat, middle: nat, top: nat, ghost end: nat,
                     ghost target: seq<string>) returns (top': nat)
    requires Rotating(a[..], first, bottom, middle, top, end, target) && bottom < middle
    requires top - middle > middle - bottom
    modifies a
    ensures middle <= top' < top
    ensures Rotating(a[..], first, bottom, middle, top', end, target)
    ensures forall k :: 0 <= k < a.Length && !(bottom <= k < top) ==> a[k] == old(a[k])
  {
    ghost var before := a[..];
    RotatingBounds(before, first, bottom, middle, top, end, target);
    hide Rotating, Swapped;
    var len := middle - bottom;
    top' := top - len;
    assert bottom + len <= top' && top' + len == top <= a.Length;
    SwapStretches(a, bottom, top', len);
    SwappedFrame(before, a[..], bottom, top', len);
    RotateBottom(before, a[..], first, bottom, middle, top, end, target);
  }

  /** The top segment is the short one: swap it with the bottom part of the bottom segment. */
  method RoundTop(a: array<string>, ghost first: nat, bottom: nat, middle: nat, top: nat, ghost end: nat,
                  ghost target: seq<string>) returns (bottom': nat)
    requires Rotating(a[..], first, bottom, middle, top, end, target) && middle < top
    requires top - middle <= middle - bottom
    modifies a
    ensures bottom < bottom' <= middle
    ensures Rotating(a[..], first, bottom', middle, top, end, target)
    ensures forall k :: 0 <= k < a.Length && !(bottom <= k < top) ==> a[k] == old(a[k])
  {
    ghost var before := a[..];
    RotatingBounds(before, first, bottom, middle, top, end, target);
    hide Rotating, Swapped;
    var len := top - middle;
    SwapStretches(a, bottom, middle, len);
    SwappedFrame(before, a[..], bottom, middle, len);
    RotateTop(before, a[..], first, bottom, middle, top, end, target);
    bottom' := bottom + len;
  }

  /** The loop of `exchange`: the blocks [first, last) and [last, end) change places. */
  method ExchangeBlocks(a: array<string>, first: nat, last: nat, end: nat)
    requires first <= last <= end <= a.Length
    modifies a
    ensures a[first..end] == old(a[last..end]) + old(a[first..last])
    ensures forall k :: 0 <= k < a.Length && !(first <= k < end) ==> a[k] == old(a[k])
  {
    var bottom, middle, top := first, last, end;
    ghost var target := a[last..end] + a[first..last];
    RotateStart(a[..], first, last, end);
    assert a[..][last..end] == a[last..end] && a[..][first..last] == a[first..last];
    hide Rotating;
    while top > middle && middle > bottom
      invariant first <= bottom <= middle <= top <= end
      invariant Rotating(a[..], first, bottom, middle, top, end, target)
      invariant forall k :: 0 <= k < a.Length && !(first <= k < end) ==> a[k] == old(a[k])
      decreases top - bottom
    {
      if top - middle > middle - bottom {
        top := RoundBottom(a, first, bottom, middle, top, end, target);
      } else {
        bottom := RoundTop(a, first, bottom, middle, top, end, target);
      }
    }
    Rotated(a[..], first, bottom, middle, top, end, target);
    assert a[..][first..end] == a[first..end];
  }

  lemma RotateStart(a: seq<string>, first: nat, last: nat, end: nat)
    requires first <= last <= end <= |a|
    ensures Rotating(a, first, first, last, end, end, a[last..end] + a[first..last])
  {
    assert a[first..first] == [] && a[end..end] == [];
  }

  lemma Rotated(a: seq<string>, first: nat, bottom: nat, middle: nat, top: nat, end: nat, target: seq<string>)
    requires Rotating(a, first, bottom, middle, top, end, target) && (top == middle || middle == bottom)
    ensures a[first..end] == target
  {
    assert a[first..end] == a[first..bottom] + a[bottom..middle] + a[middle..top] + a[top..end];
  }

  // ----- the permuted vector between calls

  /** a holds the original vector with everything before optind sorted into options, the
      non-options [first, last), and options seen since; the rest is untouched. */
  predicate Layout(a: seq<string>, orig: seq<string>, g: Grammar, first: nat, last: nat, optind: nat) {
    && 1 <= first <= last <= optind <= |a| == |orig|
    && a[0] == orig[0]
    && a[optind..] == orig[optind..]
    && Reaches(g, orig, 1, optind)
    && Split(g, orig, 1, optind) == Parts(a[1..first] + a[last..optind], a[first..last])
  }

  /** Moving the options seen last before the skipped non-options keeps the layout. */
  lemma LayoutExchanged(a: seq<string>, b: seq<string>, orig: seq<string>, g: Grammar, first: nat, last: nat,
                        optind: nat)
    requires Layout(a, orig, g, first, last, optind) && |b| == |a|
    requires b[first..optind] == a[last..optind] + a[first..last]
    requires forall k :: 0 <= k < |a| && !(first <= k < optind) ==> b[k] == a[k]
    ensures Layout(b, orig, g, first + (optind - last), optind, optind)
  {
    var first' := first + (optind - last);
    assert b[1..first] == a[1..first] && b[optind..] == a[optind..];
    var m := b[first..optind];
    assert m[..optind - last] == a[last..optind] && m[optind - last..] == a[first..last];
    assert b[first..first'] == m[..optind - last];
    assert b[first'..optind] == m[optind - last..];
    assert b[1..first'] == b[1..first] + b[first..first'];
    assert b[1..first'] + b[optind..optind] == a[1..first] + a[last..optind];
  }

  /** Without skipped non-options the empty block may as well be at optind. */
  lemma LayoutNoOthers(a: seq<string>, orig: seq<string>, g: Grammar, first: nat, optind: nat)
    requires Layout(a, orig, g, first, first, optind)
    ensures Layout(a, orig, g, optind, optind, optind)
  {
    assert a[1..first] + a[first..optind] == a[1..optind] + a[optind..optind];
    assert a[first..first] == a[optind..optind];
  }

  lemma LayoutSkip(a: seq<string>, orig: seq<string>, g: Grammar, first: nat, optind: nat)
    requires Layout(a, orig, g, first, optind, optind) && optind < |a| && IsNonOption(a[optind])
    ensures Layout(a, orig, g, first, optind + 1, optind + 1)
  {
    hide Split, Reaches;
    assert orig[optind..][0] == a[optind..][0];
    assert a[optind + 1..] == a[optind..][1..] == orig[optind..][1..] == orig[optind + 1..];
    SplitExtend(g, orig, 1, optind);
    assert a[first..optind + 1] == a[first..optind] + orig[optind..optind + 1];
    assert a[1..first] + a[optind + 1..optind + 1] == a[1..first] + a[optind..optind];
  }

  lemma LayoutOption(a: seq<string>, orig: seq<string>, g: Grammar, first: nat, last: nat, optind: nat)
    requires Layout(a, orig, g, first, last, optind) && optind < |a| && IsOption(orig[optind])
    ensures Layout(a, orig, g, first, last, optind + Taken(g, orig, optind))
  {
    hide Split, Reaches, Taken;
    var w := Taken(g, orig, optind);
    SplitExtend(g, orig, 1, optind);
    assert orig[optind..][..w] == a[optind..][..w];
    assert a[optind + w..] == a[optind..][w..] == orig[optind..][w..] == orig[optind + w..];
    assert a[last..optind + w] == a[last..optind] + orig[optind..optind + w];
    assert a[1..first] + (a[last..optind] + orig[optind..optind + w])
        == (a[1..first] + a[last..optind]) + orig[optind..optind + w];
  }

  lemma LayoutBounds(a: seq<string>, orig: seq<string>, g: Grammar, first: nat, last: nat, optind: nat)
    requires Layout(a, orig, g, first, last, optind)
    ensures 1 <= first <= last <= optind <= |a| == |orig|
    ensures optind < |a| ==> a[optind] == orig[optind]
  {
    if optind < |a| {
      assert a[optind..][0] == orig[optind..][0];
    }
  }

  lemma LayoutNext(a: seq<string>, orig: seq<string>, g: Grammar, first: nat, last: nat, optind: nat)
    requires Layout(a, orig, g, first, last, optind) && optind < |a|
    ensures Next(a, optind) == Next(orig, optind)
  {
    if optind + 1 < |a| {
      assert a[optind..][1] == orig[optind..][1];
    }
  }

  datatype Ordering = REQUIRE_ORDER | PERMUTE | RETURN_IN_ORDER

  /** Neither optstring nor the environment asks for another ordering than PERMUTE. */
  predicate AsksToPermute(optstring: string, posixlyCorrect: bool) {
    !("-" <= optstring) && !("+" <= optstring) && !posixlyCorrect
  }

  /** The scanner's static variables, for one argument vector. Neither optstring nor POSIXLY_CORRECT asks for another
      ordering than PERMUTE. */
  class Scanner {
    const argv: array<string>
    const g: Grammar
    /** Whether POSIXLY_CORRECT is in the environment. */
    const posixlyCorrect: bool
    var ordering: Ordering
    ghost const orig: seq<string>
    var optind: nat
    var nextchar: string
    var firstNonopt: nat
    var lastNonopt: nat
    var optarg: Option<string>
    var optopt: char

    constructor (argv: array<string>, g: Grammar, posixlyCorrect: bool)
      requires argv.Length > 0 && !("-" <= g.optstring) && !("+" <= g.optstring) && !posixlyCorrect
      ensures this.argv == argv && this.g == g && orig == argv[..] && optind == 0 && Valid()
    {
      this.argv := argv;
      this.g := g;
      this.posixlyCorrect := posixlyCorrect;
      ordering := PERMUTE;
      this.orig := argv[..];
      optind := 0;
      nextchar := "";
      firstNonopt := 0;
      lastNonopt := 0;
      optarg := None;
      optopt := '?';
    }

    /** In the middle of an element: what is left of it still decides its width. */
    ghost predicate InElement()
      reads this
    {
      && optind < |orig| && IsOption(orig[optind]) && nextchar != ""
      && Width(g, orig[optind], nextchar, Next(orig, optind)) == Taken(g, orig, optind)
    }

    /** What holds between calls: before the first one, and after every one but the last. */
    ghost predicate Valid()
      reads this, argv
    {
      && argv.Length == |orig| > 0
      && AsksToPermute(g.optstring, posixlyCorrect) && (optind > 0 ==> ordering == PERMUTE)
      && ((optind == 0 && argv[..] == orig)
          || (Layout(argv[..], orig, g, firstNonopt, lastNonopt, optind) && (nextchar != "" ==> InElement())))
    }

    /** The whole vector was scanned: options first, then the rest, both in their order, and
        optind at the first of the rest. */
    ghost predicate Partitioned()
      reads this, argv
    {
      && |orig| > 0
      && Reaches(g, orig, 1, |orig|)
      && var p := Split(g, orig, 1, |orig|);
         argv[..] == [orig[0]] + p.options + p.others && optind == 1 + |p.options|
    }

    /** The scan stopped at "--" and left optind there; what came before is partitioned. */
    ghost predicate StoppedAtDashes()
      reads this, argv
    {
      && 0 < optind < |orig| == argv.Length
      && orig[optind] == "--" && Reaches(g, orig, 1, optind)
      && var p := Split(g, orig, 1, optind);
         argv[..] == [orig[0]] + p.options + p.others + orig[optind..]
    }

    /** Lines 287-302. */
    method ChooseOrdering()
      modifies this`ordering
      ensures "-" <= g.optstring ==> ordering == RETURN_IN_ORDER
      ensures !("-" <= g.optstring) && ("+" <= g.optstring || posixlyCorrect) ==> ordering == REQUIRE_ORDER
      ensures AsksToPermute(g.optstring, posixlyCorrect) ==> ordering == PERMUTE
    {
      if At(g.optstring, 0) == '-' {
        ordering := RETURN_IN_ORDER;
      } else if At(g.optstring, 0) == '+' {
        ordering := REQUIRE_ORDER;
      } else if posixlyCorrect {
        ordering := REQUIRE_ORDER;
      } else {
        ordering := PERMUTE;
      }
    }

    /** `_getopt_initialize` (273-305). */
    method Initialize()
      requires Valid() && optind == 0
      modifies this
      ensures ordering == PERMUTE
      ensures optind == 1 && nextchar == "" && optarg == old(optarg) && optopt == old(optopt)
      ensures Layout(argv[..], orig, g, firstNonopt, lastNonopt, optind)
    {
      firstNonopt := 1;
      lastNonopt := 1;
      optind := 1;
      nextchar := "";
      ChooseOrdering();
      assert argv[..][1..1] == [];
    }

    /** The layout with nothing left is the partition. */
    lemma FinallyPartitioned(a: seq<string>, first: nat)
      requires |orig| > 0 && Layout(a, orig, g, first, |orig|, |orig|)
      ensures Reaches(g, orig, 1, |orig|)
      ensures var p := Split(g, orig, 1, |orig|);
              a == [orig[0]] + p.options + p.others && first == 1 + |p.options|
    {
      var n := |orig|;
      assert a[n..n] == [];
      assert a == [a[0]] + a[1..first] + a[first..n];
    }

    lemma StopsAtDashes(a: seq<string>, first: nat, last: nat)
      requires |orig| > 0 && Layout(a, orig, g, first, last, last)
      ensures Reaches(g, orig, 1, last)
      ensures var p := Split(g, orig, 1, last);
              a == [orig[0]] + p.options + p.others + orig[last..]
    {
      assert a[last..last] == [];
      assert a == [a[0]] + a[1..first] + a[first..last] + a[last..];
    }

    /** Long options first where they apply, short ones otherwise (451-662). */
    method DecodeElement() returns (r: int)
      requires argv.Length == |orig| && nextchar != "" && optarg == None
      requires AsksToPermute(g.optstring, posixlyCorrect) && ordering == PERMUTE
      requires Layout(argv[..], orig, g, firstNonopt, lastNonopt, optind) && InElement()
      modifies this`optind, this`nextchar, this`optarg, this`optopt
      ensures Valid() && optind > 0
      ensures var d := Decode(g, orig[old(optind)], old(nextchar), Next(orig, old(optind)));
              && r == d.code && optarg == d.optarg && nextchar == d.rest && optind == old(optind) + d.advance
              && (d.optopt.Some? ==> optopt == d.optopt.value)
    {
      LayoutBounds(argv[..], orig, g, firstNonopt, lastNonopt, optind);
      LayoutNext(argv[..], orig, g, firstNonopt, lastNonopt, optind);
      ghost var k, nc := optind, nextchar;
      DecodedKeepsLayout(argv[..], k, nc);
      hide Layout, Width, DecodeLong, DecodeShort, Taken, Next;
      var decided := false;
      if g.long.Some? && (At(argv[optind], 1) == '-'
                          || (g.longOnly && (|argv[optind]| > 2 || IndexOf(g.optstring, At(argv[optind], 1), 0).None?))) {
        decided, r := LongOptionCase();
      }
      if !decided {
        r := ShortOptionCase();
      }
      InElementIf(k, nc);
    }

    lemma InElementIf(k: nat, nc: string)
      requires AsksToPermute(g.optstring, posixlyCorrect) && ordering == PERMUTE
      requires k < |orig| && IsOption(orig[k]) && argv.Length == |orig| && nc != ""
      requires var d := Decode(g, orig[k], nc, Next(orig, k));
               && nextchar == d.rest && optind == k + d.advance
               && (d.rest == "" ==> Layout(argv[..], orig, g, firstNonopt, lastNonopt, k + d.advance))
               && (d.rest != "" ==> d.advance == 0 && Layout(argv[..], orig, g, firstNonopt, lastNonopt, k)
                                    && Width(g, orig[k], d.rest, Next(orig, k)) == Taken(g, orig, k))
      ensures Valid() && optind > 0
    {
      hide Decode, Width, Taken;
    }

    /** After an element is used up the layout covers it; before that it stays in the element. */
    lemma DecodedKeepsLayout(a: seq<string>, k: nat, nc: string)
      requires |a| == |orig| && k < |orig| && IsOption(orig[k]) && nc != ""
      requires Layout(a, orig, g, firstNonopt, lastNonopt, k)
      requires Width(g, orig[k], nc, Next(orig, k)) == Taken(g, orig, k)
      ensures var d := Decode(g, orig[k], nc, Next(orig, k));
              && (d.rest == "" ==> d.advance == Taken(g, orig, k)
                                   && Layout(a, orig, g, firstNonopt, lastNonopt, k + d.advance))
              && (d.rest != "" ==> d.advance == 0
                                   && Width(g, orig[k], d.rest, Next(orig, k)) == Taken(g, orig, k))
    {
      LayoutOption(a, orig, g, firstNonopt, lastNonopt, k);
    }

    /** The long-option branch (466-590). */
    method LongOptionCase() returns (decided: bool, r: int)
      requires optind < argv.Length && nextchar != "" && g.long.Some? && optarg == None
      modifies this`optind, this`nextchar, this`optarg
      ensures var d := DecodeLong(g, argv[old(optind)], old(nextchar), Next(argv[..], old(optind)));
              && decided == d.Some?
              && (d.Some? ==> r == d.value.code && optarg == d.value.optarg && nextchar == d.value.rest
                              && optind == old(optind) + d.value.advance && d.value.optopt == None)
              && (d.None? ==> optind == old(optind) && nextchar == old(nextchar) && optarg == None)
    {
      var elem := argv[optind];
      var nameend := NameLength(nextchar);
      var found := LookupLong(g.long.value, nextchar[..nameend]);
      if found.Ambiguous? {
        nextchar := "";
        optind := optind + 1;
        return true, '?' as int;
      }
      if found.Match? {
        var p := g.long.value[found.index];
        optind := optind + 1;
        if nameend < |nextchar| {
          if p.hasArg != 0 {
            optarg := Some(nextchar[nameend + 1..]);
          } else {
            nextchar := "";
            return true, '?' as int;
          }
        } else if p.hasArg == 1 {
          if optind < argv.Length {
            optarg := Some(argv[optind]);
            optind := optind + 1;
          } else {
            nextchar := "";
            return true, if At(g.optstring, 0) == ':' then ':' as int else '?' as int;
          }
        }
        nextchar := "";
        return true, if p.flag then 0 else p.val;
      }
      if !g.longOnly || At(elem, 1) == '-' || IndexOf(g.optstring, nextchar[0], 0).None? {
        nextchar := "";
        optind := optind + 1;
        return true, '?' as int;
      }
      return false, 0;
    }

    /** The next short option character (592-661). */
    method ShortOptionCase() returns (r: int)
      requires optind < argv.Length && nextchar != "" && optarg == None
      modifies this`optind, this`nextchar, this`optarg, this`optopt
      ensures var d := DecodeShort(g, old(nextchar), Next(argv[..], old(optind)));
              && r == d.code && optarg == d.optarg && nextchar == d.rest && optind == old(optind) + d.advance
              && (d.optopt.Some? ==> optopt == d.optopt.value)
    {
      var c := nextchar[0];
      nextchar := nextchar[1..];
      var temp := IndexOf(g.optstring, c, 0);
      if nextchar == "" {
        optind := optind + 1;
      }
      if temp.None? || c == ':' {
        optopt := c;
        return '?' as int;
      }
      var t := temp.value;
      if At(g.optstring, t + 1) == ':' {
        if At(g.optstring, t + 2) == ':' {
          if nextchar != "" {
            optarg := Some(nextchar);
            optind := optind + 1;
          } else {
            optarg := None;
          }
          nextchar := "";
        } else {
          if nextchar != "" {
            optarg := Some(nextchar);
            optind := optind + 1;
          } else if optind == argv.Length {
            optopt := c;
            c := if At(g.optstring, 0) == ':' then ':' else '?';
          } else {
            optarg := Some(argv[optind]);
            optind := optind + 1;
          }
          nextchar := "";
        }
      }
      return c as int;
    }

    /** `exchange` (215-269) under its guards in the PERMUTE block (383-389): afterwards every
        option seen so far stands before every non-option skipped. */
    method Exchange()
      requires argv.Length == |orig|
      requires Layout(argv[..], orig, g, firstNonopt, lastNonopt, optind)
      modifies this`firstNonopt, this`lastNonopt, argv
      ensures Layout(argv[..], orig, g, firstNonopt, optind, optind) && lastNonopt == optind
    {
      ghost var before := argv[..];
      LayoutBounds(before, orig, g, firstNonopt, lastNonopt, optind);
      hide Layout;
      if firstNonopt != lastNonopt && lastNonopt != optind {
        assert before[lastNonopt..optind] == argv[lastNonopt..optind];
        assert before[firstNonopt..lastNonopt] == argv[firstNonopt..lastNonopt];
        ExchangeBlocks(argv, firstNonopt, lastNonopt, optind);
        assert argv[..][firstNonopt..optind] == argv[firstNonopt..optind];
        LayoutExchanged(before, argv[..], orig, g, firstNonopt, lastNonopt, optind);
        firstNonopt := firstNonopt + (optind - lastNonopt);
        lastNonopt := optind;
      } else if lastNonopt != optind {
        LayoutNoOthers(before, orig, g, firstNonopt, optind);
        firstNonopt := optind;
        lastNonopt := optind;
      }
    }

    /** Skip further non-options (391-397). */
    method SkipNonOptions()
      requires argv.Length == |orig|
      requires Layout(argv[..], orig, g, firstNonopt, optind, optind)
      modifies this`optind, this`lastNonopt
      ensures optind >= old(optind) && lastNonopt == optind
      ensures Layout(argv[..], orig, g, firstNonopt, optind, optind)
      ensures optind < argv.Length ==> !IsNonOption(argv[optind]) && argv[optind] == orig[optind]
      ensures forall t :: old(optind) <= t < optind <= |orig| ==> IsNonOption(orig[t])
    {
      LayoutBounds(argv[..], orig, g, firstNonopt, optind, optind);
      hide Layout, IsNonOption;
      while optind < argv.Length && IsNonOption(argv[optind])
        invariant optind <= argv.Length && old(optind) <= optind
        invariant forall t :: old(optind) <= t < optind ==> IsNonOption(orig[t])
        invariant Layout(argv[..], orig, g, firstNonopt, optind, optind)
      {
        LayoutBounds(argv[..], orig, g, firstNonopt, optind, optind);
        LayoutSkip(argv[..], orig, g, firstNonopt, optind);
        optind := optind + 1;
      }
      lastNonopt := optind;
      LayoutBounds(argv[..], orig, g, firstNonopt, optind, optind);
    }

    /** The PERMUTE block (381-398): exchange, then skip non-options. */
    method Advance()
      requires argv.Length == |orig| && ordering == PERMUTE
      requires Layout(argv[..], orig, g, firstNonopt, lastNonopt, optind)
      modifies this`optind, this`firstNonopt, this`lastNonopt, argv
      ensures optind >= old(optind) && lastNonopt == optind
      ensures Layout(argv[..], orig, g, firstNonopt, optind, optind)
      ensures optind < argv.Length ==> !IsNonOption(argv[optind]) && argv[optind] == orig[optind]
      ensures forall t :: old(optind) <= t < optind <= |orig| ==> IsNonOption(orig[t])
    {
      if ordering == PERMUTE {
        Exchange();
        SkipNonOptions();
      }
    }

    /** Lines 379-449: come to the next element with option characters, or to the end. */
    method NextElement() returns (done: bool, ghost k: nat)
      requires argv.Length == |orig| > 0 && ordering == PERMUTE && nextchar == ""
      requires Layout(argv[..], orig, g, firstNonopt, lastNonopt, optind)
      modifies this`optind, this`firstNonopt, this`lastNonopt, this`nextchar, argv
      ensures old(optind) <= k <= |orig| && Reaches(g, orig, 1, k)
      ensures forall t :: old(optind) <= t < k ==> IsNonOption(orig[t])
      ensures done ==> (k == |orig| && Partitioned()) || (k == optind && StoppedAtDashes())
      ensures !done ==>
                && k == optind < |orig| && IsOption(orig[k]) && InElement() && nextchar == Start(g, orig[k])
                && Layout(argv[..], orig, g, firstNonopt, lastNonopt, optind)
    {
      hide Split, Reaches, Taken, Width, Decode;
      Advance();
      LayoutBounds(argv[..], orig, g, firstNonopt, optind, optind);
      LayoutReaches(argv[..], orig, g, firstNonopt, optind, optind);
      k := optind;
      if optind != argv.Length && argv[optind] == "--" {
        StopsAtDashes(argv[..], firstNonopt, optind);
        return true, k;
      }
      if optind == argv.Length {
        FinallyPartitioned(argv[..], firstNonopt);
        if firstNonopt != lastNonopt {
          optind := firstNonopt;
        }
        return true, k;
      }
      nextchar := if g.long.Some? && argv[optind][1] == '-' then argv[optind][2..] else argv[optind][1..];
      StartsElement(k);
      done := false;
    }

    /** `_getopt_internal`: `done` for the EOF that ends the scan. The ghost results name the
        position the scan came to (past non-options only), and the characters decoded there. */
    method NextOption() returns (r: int, done: bool, ghost k: nat, ghost nc: string)
      requires Valid()
      modifies this, argv
      ensures k <= |orig| && Position(old(optind)) <= k && Reaches(g, orig, 1, k)
      ensures forall t :: Position(old(optind)) <= t < k ==> IsNonOption(orig[t])
      ensures done ==> r == EOF && ((k == |orig| && Partitioned()) || (k == optind && StoppedAtDashes()))
      ensures done ==> old(nextchar) == "" || old(optind) == 0
      ensures !done ==> Valid() && optind > 0
      ensures !done ==> optind > old(optind)
                        || (optind == old(optind) && nextchar != "" && (old(nextchar) == "" || |nextchar| < |old(nextchar)|))
      ensures !done ==> k < |orig| && IsOption(orig[k]) && nc != ""
                        && var d := Decode(g, orig[k], nc, Next(orig, k));
                           r == d.code && optarg == d.optarg && nextchar == d.rest && optind == k + d.advance
                           && (d.optopt.Some? ==> optopt == d.optopt.value)
      ensures !done ==> if old(nextchar) != "" && old(optind) != 0 then k == old(optind) && nc == old(nextchar)
                        else nc == Start(g, orig[k])
    {
      optarg := None;
      if optind == 0 {
        Initialize();
      }
      hide Split, Reaches, Taken, Width, Decode, Layout, AsksToPermute, Partitioned, StoppedAtDashes, IsNonOption;
      if nextchar == "" {
        done, k := NextElement();
        if done {
          return EOF, true, k, "";
        }
      } else {
        LayoutReaches(argv[..], orig, g, firstNonopt, lastNonopt, optind);
      }
      k, nc := optind, nextchar;
      r := DecodeElement();
      done := false;
    }

    /** The facts about a decoding that a valid state after it implies. */
    lemma AfterCall(k: nat, nc: string)
      requires Valid() && optind > 0 && k < |orig| && IsOption(orig[k]) && nc != ""
      requires var d := Decode(g, orig[k], nc, Next(orig, k));
               nextchar == d.rest && optind == k + d.advance
      ensures 0 < optind <= |orig| && Reaches(g, orig, 1, optind)
      ensures argv.Length == |orig|
    {
    }

    lemma StartsElement(k: nat)
      requires k == optind < |orig| && IsOption(orig[k]) && nextchar == Start(g, orig[k])
      ensures InElement()
    {
    }
  }

  function Position(optind: nat): (k: nat) {
    if optind == 0 then 1 else optind
  }

  lemma LayoutReaches(a: seq<string>, orig: seq<string>, g: Grammar, first: nat, last: nat, optind: nat)
    requires Layout(a, orig, g, first, last, optind)
    ensures Reaches(g, orig, 1, optind)
  {
  }

  /** What a caller's loop has been told so far, with what is still to come from the element
      it is in. */
  ghost predicate ToldSoFar(g: Grammar, orig: seq<string>, optind: nat, nextchar: string, told: seq<Report>) {
    && 0 < Position(optind) <= |orig| && Reaches(g, orig, 1, Position(optind))
    && if optind == 0 || nextchar == "" then told == AllReports(g, orig, 1, Position(optind))
       else optind < |orig| && IsOption(orig[optind])
            && told + Reports(g, orig[optind], nextchar, Next(orig, optind))
               == AllReports(g, orig, 1, optind + Taken(g, orig, optind))
  }

  /** Before a call decodes characters nc of element k, that element's reports are still due. */
  lemma ToldBefore(g: Grammar, orig: seq<string>, optind: nat, nextchar: string, told: seq<Report>,
                   k: nat, nc: string)
    requires ToldSoFar(g, orig, optind, nextchar, told)
    requires Position(optind) <= k < |orig| && IsOption(orig[k]) && nc != "" && Reaches(g, orig, 1, k)
    requires forall t :: Position(optind) <= t < k ==> IsNonOption(orig[t])
    requires if nextchar != "" && optind != 0 then k == optind && nc == nextchar else nc == Start(g, orig[k])
    ensures told + Reports(g, orig[k], nc, Next(orig, k)) == AllReports(g, orig, 1, k + Taken(g, orig, k))
  {
    hide AllReports, Reaches, Reports, Taken, IsOption, IsNonOption, Start;
    if !(nextchar != "" && optind != 0) {
      NoReports(g, orig, 1, Position(optind), k);
      ReportsExtend(g, orig, 1, k);
    }
  }

  lemma ReportsUnfold(g: Grammar, elem: string, nc: string, next: Option<string>)
    requires nc != ""
    ensures var d := Decode(g, elem, nc, next);
            Reports(g, elem, nc, next)
            == [(d.code, d.optarg)] + (if d.rest == "" then [] else Reports(g, elem, d.rest, next))
  {
  }

  lemma ToldAfter(g: Grammar, orig: seq<string>, k: nat, rest: string, optind: nat, told: seq<Report>)
    requires 0 < optind <= |orig| && Reaches(g, orig, 1, optind) && k < |orig| && IsOption(orig[k])
    requires rest == "" ==> optind == k + Taken(g, orig, k)
    requires rest != "" ==> optind == k
    requires told + (if rest == "" then [] else Reports(g, orig[k], rest, Next(orig, k)))
          == AllReports(g, orig, 1, k + Taken(g, orig, k))
    ensures ToldSoFar(g, orig, optind, rest, told)
  {
    hide AllReports, Reaches, Reports, Taken, IsOption, Next;
    assert told + [] == told;
  }

  lemma Appended(told: seq<Report>, x: Report, rest: seq<Report>)
    ensures told + ([x] + rest) == (told + [x]) + rest
  {
  }

  /** One call adds the report of its decoding. */
  lemma ToldStep(g: Grammar, orig: seq<string>, optind: nat, nextchar: string, told: seq<Report>,
                 k: nat, nc: string, optind': nat)
    requires ToldSoFar(g, orig, optind, nextchar, told)
    requires Position(optind) <= k < |orig| && IsOption(orig[k]) && nc != "" && Reaches(g, orig, 1, k)
    requires forall t :: Position(optind) <= t < k ==> IsNonOption(orig[t])
    requires if nextchar != "" && optind != 0 then k == optind && nc == nextchar else nc == Start(g, orig[k])
    requires var d := Decode(g, orig[k], nc, Next(orig, k));
             && optind' == k + d.advance && 0 < optind' <= |orig| && Reaches(g, orig, 1, optind')
             && (d.rest == "" ==> d.advance == Taken(g, orig, k))
    ensures var d := Decode(g, orig[k], nc, Next(orig, k));
            ToldSoFar(g, orig, optind', d.rest, told + [(d.code, d.optarg)])
  {
    ToldBefore(g, orig, optind, nextchar, told, k, nc);
    ReportsUnfold(g, orig[k], nc, Next(orig, k));
    hide *;
    var d := Decode(g, orig[k], nc, Next(orig, k));
    var x := (d.code, d.optarg);
    Appended(told, x, if d.rest == "" then [] else Reports(g, orig[k], d.rest, Next(orig, k)));
    ToldAfter(g, orig, k, d.rest, optind', told + [x]);
  }

  /** A whole run, as any caller makes it: call until the end. It terminates; `stop` is where
      the scan ended, every option before it was reported once and in order, and the vector is
      partitioned. */
  method ScanAll(s: Scanner) returns (told: seq<Report>, ghost stop: nat)
    requires s.Valid() && s.optind == 0
    modifies s, s.argv
    ensures (stop == |s.orig| && s.Partitioned()) || (stop == s.optind && s.StoppedAtDashes())
    ensures stop <= |s.orig| && told == AllReports(s.g, s.orig, 1, stop)
  {
    told := [];
    var done := false;
    stop := 0;
    while !done
      invariant !done ==> s.Valid() && ToldSoFar(s.g, s.orig, s.optind, s.nextchar, told)
      invariant done ==> (stop == |s.orig| && s.Partitioned()) || (stop == s.optind && s.StoppedAtDashes())
      invariant stop <= |s.orig| && (done ==> told == AllReports(s.g, s.orig, 1, stop))
      decreases !done, if s.optind <= s.argv.Length then s.argv.Length - s.optind else 0,
                if s.nextchar == "" then 1 else 0, |s.nextchar|
    {
      var r: int;
      ghost var k, nc, optind0, next0 := 0, "", s.optind, s.nextchar;
      r, done, k, nc := s.NextOption();
      if done {
        NoReports(s.g, s.orig, 1, Position(optind0), k);
        stop := k;
      } else {
        s.AfterCall(k, nc);
        ToldStep(s.g, s.orig, optind0, next0, told, k, nc, s.optind);
        told := told + [(r, s.optarg)];
      }
    }
  }
}
