/** The argument grammar of src/getopt.c: which elements are options, what one call decodes
    from an element, and how a whole argument vector splits into options and the rest. */
module Options {

  datatype Option<+T> = None | Some(value: T)

  /** An entry of `longopts`; `flag` tells whether its flag pointer is set. */
  datatype LongOption = LongOption(name: string, hasArg: int, flag: bool, val: int)

  datatype Grammar = Grammar(optstring: string, long: Option<seq<LongOption>>, longOnly: bool)

  /** What one call takes from the current element: the returned code, optarg, the characters
      left in the element, by how much optind moves, and a new optopt if there is one. */
  datatype Decoded = Decoded(code: int, optarg: Option<string>, rest: string, advance: nat, optopt: Option<char>)

  datatype Found = NotFound | Ambiguous | Match(index: nat)

  /** An element that is no option: not starting with '-', or just "-". */
  predicate IsNonOption(x: string) {
    |x| == 0 || x[0] != '-' || |x| == 1
  }

  predicate IsOption(x: string) {
    !IsNonOption(x) && x != "--"
  }

  function At(s: string, i: nat): char {
    if i < |s| then s[i] else '\0'
  }

  /** `my_index`. */
  function IndexOf(s: string, c: char, i: nat): (r: Option<nat>)
    ensures r.Some? ==> i <= r.value < |s| && s[r.value] == c && forall k :: i <= k < r.value ==> s[k] != c
    ensures r.None? ==> forall k :: i <= k < |s| ==> s[k] != c
    decreases |s| - i
  {
    if i >= |s| then None else if s[i] == c then Some(i) else IndexOf(s, c, i + 1)
  }

  // ----- long options

  function FindExact(long: seq<LongOption>, key: string, i: nat): (r: Option<nat>)
    ensures r.Some? ==> i <= r.value < |long| && long[r.value].name == key
    ensures r.Some? ==> forall k :: i <= k < r.value ==> long[k].name != key
    ensures r.None? ==> forall k :: i <= k < |long| ==> long[k].name != key
    decreases |long| - i
  {
    if i >= |long| then None else if long[i].name == key then Some(i) else FindExact(long, key, i + 1)
  }

  function FindPrefix(long: seq<LongOption>, key: string, i: nat): (r: Option<nat>)
    ensures r.Some? ==> i <= r.value < |long| && key <= long[r.value].name
    ensures r.Some? ==> forall k :: i <= k < r.value ==> !(key <= long[k].name)
    ensures r.None? ==> forall k :: i <= k < |long| ==> !(key <= long[k].name)
    decreases |long| - i
  {
    if i >= |long| then None else if key <= long[i].name then Some(i) else FindPrefix(long, key, i + 1)
  }

  /** An exact name wins; otherwise an abbreviation must be that of one option only. */
  function Lookup(long: seq<LongOption>, key: string): (f: Found)
    ensures f.Match? ==> f.index < |long| && key <= long[f.index].name
    ensures f == NotFound <==> forall k :: 0 <= k < |long| ==> !(key <= long[k].name)
  {
    match FindExact(long, key, 0)
    case Some(i) => Match(i)
    case None =>
      match FindPrefix(long, key, 0)
      case None => NotFound
      case Some(i) => if FindPrefix(long, key, i + 1).Some? then Ambiguous else Match(i)
  }

  /** The search loop of 481-503. */
  method LookupLong(long: seq<LongOption>, key: string) returns (f: Found)
    ensures f == Lookup(long, key)
  {
    var found: Option<nat> := None;
    var ambig := false;
    var i := 0;
    while i < |long|
      invariant 0 <= i <= |long|
      invariant forall k :: 0 <= k < i ==> long[k].name != key
      invariant found.None? ==> forall k :: 0 <= k < i ==> !(key <= long[k].name)
      invariant found.Some? ==> found.value < i && key <= long[found.value].name
      invariant found.Some? ==> forall k :: 0 <= k < found.value ==> !(key <= long[k].name)
      invariant ambig <==> found.Some? && exists k :: found.value < k < i && key <= long[k].name
    {
      if key <= long[i].name {
        if |key| == |long[i].name| {
          assert long[i].name == key;
          return Match(i);
        } else if found.None? {
          found := Some(i);
        } else {
          ambig := true;
        }
      }
      i := i + 1;
    }
    if ambig {
      return Ambiguous;
    }
    f := if found.Some? then Match(found.value) else NotFound;
  }

  /** The text up to '=', and whether there is one. */
  function NameLength(nc: string): (n: nat)
    ensures n <= |nc| && (n < |nc| ==> nc[n] == '=') && forall k :: 0 <= k < n ==> nc[k] != '='
  {
    match IndexOf(nc, '=', 0)
    case Some(i) => i
    case None => |nc|
  }

  // ----- one call (451-662)

  /** Whether the element is looked up as a long option. */
  predicate TriesLong(g: Grammar, elem: string) {
    g.long.Some? && (At(elem, 1) == '-'
                     || (g.longOnly && (|elem| > 2 || IndexOf(g.optstring, At(elem, 1), 0).None?)))
  }

  /** The long-option branch; None if the element is to be taken as short options. */
  function DecodeLong(g: Grammar, elem: string, nc: string, next: Option<string>): (d: Option<Decoded>)
    requires g.long.Some? && |nc| > 0
  {
    var n := NameLength(nc);
    match Lookup(g.long.value, nc[..n])
    case Ambiguous => Some(Decoded('?' as int, None, "", 1, None))
    case Match(i) =>
      var p := g.long.value[i];
      var code := if p.flag then 0 else p.val;
      if n < |nc| then
        (if p.hasArg != 0 then Some(Decoded(code, Some(nc[n + 1..]), "", 1, None))
         else Some(Decoded('?' as int, None, "", 1, None)))
      else if p.hasArg == 1 then
        (if next.Some? then Some(Decoded(code, next, "", 2, None))
         else Some(Decoded(if At(g.optstring, 0) == ':' then ':' as int else '?' as int, None, "", 1, None)))
      else Some(Decoded(code, None, "", 1, None))
    case NotFound =>
      if !g.longOnly || At(elem, 1) == '-' || IndexOf(g.optstring, nc[0], 0).None?
      then Some(Decoded('?' as int, None, "", 1, None))
      else None
  }

  function DecodeShort(g: Grammar, nc: string, next: Option<string>): (d: Decoded)
    requires |nc| > 0
    ensures d.advance <= 2 && (d.rest != "" ==> d.advance == 0 && |d.rest| < |nc|)
    ensures d.rest == "" ==> d.advance > 0
    ensures d.advance == 2 ==> next.Some?
  {
    var c, rest := nc[0], nc[1..];
    var step := if rest == "" then 1 else 0;
    match IndexOf(g.optstring, c, 0)
    case None => Decoded('?' as int, None, rest, step, Some(c))
    case Some(t) =>
      if c == ':' then Decoded('?' as int, None, rest, step, Some(c))
      else if At(g.optstring, t + 1) == ':' then
        if At(g.optstring, t + 2) == ':' then
          Decoded(c as int, if rest != "" then Some(rest) else None, "", 1, None)
        else if rest != "" then Decoded(c as int, Some(rest), "", 1, None)
        else if next.None? then
          Decoded(if At(g.optstring, 0) == ':' then ':' as int else '?' as int, None, "", 1, Some(c))
        else Decoded(c as int, next, "", 2, None)
      else Decoded(c as int, None, rest, step, None)
  }

  function Decode(g: Grammar, elem: string, nc: string, next: Option<string>): (d: Decoded)
    requires |nc| > 0
    ensures d.advance <= 2 && (d.rest != "" ==> d.advance == 0 && |d.rest| < |nc|)
    ensures d.rest == "" ==> d.advance > 0
    ensures d.advance == 2 ==> next.Some?
  {
    if TriesLong(g, elem) && DecodeLong(g, elem, nc, next).Some? then DecodeLong(g, elem, nc, next).value
    else DecodeShort(g, nc, next)
  }

  /** Where decoding of an element starts: after '-', or after "--" if there are long options. */
  function Start(g: Grammar, elem: string): (nc: string)
    requires IsOption(elem)
    ensures |nc| > 0
  {
    if g.long.Some? && elem[1] == '-' then elem[2..] else elem[1..]
  }

  /** How many elements the option from nc on takes, the element itself included, decoded to
      its end; `next` is the element after it. */
  function Width(g: Grammar, elem: string, nc: string, next: Option<string>): (w: nat)
    requires |nc| > 0
    ensures 1 <= w <= 2 && (w == 2 ==> next.Some?)
    decreases |nc|
  {
    var d := Decode(g, elem, nc, next);
    if d.rest == "" then d.advance else Width(g, elem, d.rest, next)
  }

  // ----- a whole argument vector

  function Next(a: seq<string>, i: nat): Option<string> {
    if i + 1 < |a| then Some(a[i + 1]) else None
  }

  /** Elements taken from position i on: a non-option, or an option with its argument. */
  function Taken(g: Grammar, a: seq<string>, i: nat): (w: nat)
    requires i < |a|
    ensures 1 <= w && i + w <= |a|
  {
    if IsOption(a[i]) then Width(g, a[i], Start(g, a[i]), Next(a, i)) else 1
  }

  /** Scanning from i comes to k without meeting "--" in between. */
  predicate Reaches(g: Grammar, a: seq<string>, i: nat, k: nat)
    requires k <= |a|
    decreases |a| - i
  {
    i == k || (i < k && a[i] != "--" && Reaches(g, a, i + Taken(g, a, i), k))
  }

  datatype Parts = Parts(options: seq<string>, others: seq<string>)

  /** The elements from i up to k, split into options with their arguments and the others,
      each in their order. */
  function Split(g: Grammar, a: seq<string>, i: nat, k: nat): (p: Parts)
    requires k <= |a|
    decreases |a| - i
  {
    if i >= k then Parts([], [])
    else
      var w := Taken(g, a, i);
      var rest := Split(g, a, i + w, k);
      if IsOption(a[i]) then Parts(a[i..i + w] + rest.options, rest.others)
      else Parts(rest.options, a[i..i + w] + rest.others)
  }

  /** One more step of the scan. */
  lemma {:induction false} SplitExtend(g: Grammar, a: seq<string>, i: nat, k: nat)
    requires k < |a| && Reaches(g, a, i, k) && a[k] != "--"
    ensures var w := Taken(g, a, k);
            var p, p' := Split(g, a, i, k), Split(g, a, i, k + w);
            && Reaches(g, a, i, k + w)
            && p' == if IsOption(a[k]) then Parts(p.options + a[k..k + w], p.others)
                     else Parts(p.options, p.others + a[k..k + w])
    decreases |a| - i
  {
    hide Taken, IsOption;
    var w := Taken(g, a, k);
    if i == k {
      assert Reaches(g, a, k + w, k + w) && Split(g, a, k + w, k + w) == Parts([], []);
    } else {
      var v := Taken(g, a, i);
      SplitExtend(g, a, i + v, k);
      var p := Split(g, a, i + v, k);
      assert a[i..i + v] + (p.options + a[k..k + w]) == (a[i..i + v] + p.options) + a[k..k + w];
      assert a[i..i + v] + (p.others + a[k..k + w]) == (a[i..i + v] + p.others) + a[k..k + w];
    }
  }

  /** All elements of a split. */
  function Bag(p: Parts): multiset<string> {
    multiset(p.options) + multiset(p.others)
  }

  lemma BagFirst(x: seq<string>, p: Parts)
    ensures Bag(Parts(x + p.options, p.others)) == multiset(x) + Bag(p)
    ensures Bag(Parts(p.options, x + p.others)) == multiset(x) + Bag(p)
  {
  }

  lemma BagConcat(a: seq<string>, i: nat, j: nat, k: nat)
    requires i <= j <= k <= |a|
    ensures multiset(a[i..k]) == multiset(a[i..j]) + multiset(a[j..k])
  {
    assert a[i..k] == a[i..j] + a[j..k];
  }

  lemma BagStep(g: Grammar, a: seq<string>, i: nat, k: nat)
    requires i < k <= |a|
    ensures var w := Taken(g, a, i);
            Bag(Split(g, a, i, k)) == multiset(a[i..i + w]) + Bag(Split(g, a, i + w, k))
  {
    hide Taken, IsOption, Bag;
    BagFirst(a[i..i + Taken(g, a, i)], Split(g, a, i + Taken(g, a, i), k));
  }

  lemma BagNone(g: Grammar, a: seq<string>, k: nat)
    requires k <= |a|
    ensures Bag(Split(g, a, k, k)) == multiset(a[k..k])
  {
    assert a[k..k] == [];
  }

  /** The split loses and invents nothing. */
  lemma {:induction false} SplitIsPermutation(g: Grammar, a: seq<string>, i: nat, k: nat)
    requires k <= |a| && Reaches(g, a, i, k)
    ensures i <= k && Bag(Split(g, a, i, k)) == multiset(a[i..k])
    decreases |a| - i
  {
    hide Taken, IsOption, Split, Bag;
    if i == k {
      BagNone(g, a, k);
    } else {
      var w := Taken(g, a, i);
      SplitIsPermutation(g, a, i + w, k);
      BagStep(g, a, i, k);
      BagConcat(a, i, i + w, k);
    }
  }

  // ----- what a whole scan reports

  type Report = (int, Option<string>)

  /** The codes and arguments reported for one element from nc on. */
  function Reports(g: Grammar, elem: string, nc: string, next: Option<string>): (r: seq<Report>)
    requires |nc| > 0
    decreases |nc|
  {
    var d := Decode(g, elem, nc, next);
    [(d.code, d.optarg)] + if d.rest == "" then [] else Reports(g, elem, d.rest, next)
  }

  /** Everything reported for the elements from i up to k. */
  function AllReports(g: Grammar, a: seq<string>, i: nat, k: nat): (r: seq<Report>)
    requires k <= |a|
    decreases |a| - i
  {
    if i >= k then []
    else (if IsOption(a[i]) then Reports(g, a[i], Start(g, a[i]), Next(a, i)) else [])
         + AllReports(g, a, i + Taken(g, a, i), k)
  }

  lemma {:induction false} ReportsExtend(g: Grammar, a: seq<string>, i: nat, k: nat)
    requires k < |a| && Reaches(g, a, i, k)
    ensures AllReports(g, a, i, k + Taken(g, a, k))
         == AllReports(g, a, i, k) + if IsOption(a[k]) then Reports(g, a[k], Start(g, a[k]), Next(a, k)) else []
    decreases |a| - i
  {
    hide Taken, IsOption, Reports, Start, Next;
    if i == k {
      assert AllReports(g, a, k + Taken(g, a, k), k + Taken(g, a, k)) == [];
    } else {
      ReportsExtend(g, a, i + Taken(g, a, i), k);
    }
  }

  /** Non-options report nothing. */
  lemma {:induction false} NoReports(g: Grammar, a: seq<string>, i: nat, k: nat, k': nat)
    requires k <= k' <= |a| && Reaches(g, a, i, k)
    requires forall t :: k <= t < k' ==> IsNonOption(a[t])
    ensures Reaches(g, a, i, k') && AllReports(g, a, i, k') == AllReports(g, a, i, k)
    decreases k' - k
  {
    if k < k' {
      SplitExtend(g, a, i, k);
      ReportsExtend(g, a, i, k);
      NoReports(g, a, i, k + 1, k');
    }
  }

  lemma LookupMeaning(long: seq<LongOption>, key: string)
    ensures match Lookup(long, key)
            case Match(i) =>
              || (long[i].name == key && forall k :: 0 <= k < i ==> long[k].name != key)
              || (forall k :: 0 <= k < |long| ==> long[k].name != key && (key <= long[k].name <==> k == i))
            case Ambiguous =>
              && (forall k :: 0 <= k < |long| ==> long[k].name != key)
              && exists k, l :: 0 <= k < l < |long| && key <= long[k].name && key <= long[l].name
            case NotFound => forall k :: 0 <= k < |long| ==> !(key <= long[k].name)
  {
  }
}
