/** The argument types a format string asks for: the macro REGISTER_ARG of libgnu/printf-parse.c. */
module PrintfArgs {
  import opened PrintfSyntax

  datatype Status = Done | Error | OutOfMemory

  // ---------------------------------------------------------------- specification

  /** types with TYPE_NONE added up to index n. */
  function Padded(types: seq<ArgType>, n: nat): (r: seq<ArgType>)
    ensures |r| > n && |r| == (if n < |types| then |types| else n + 1)
    ensures forall i :: 0 <= i < |r| ==> r[i] == if i < |types| then types[i] else NONE
  {
    types + seq(if n < |types| then 0 else n + 1 - |types|, _ => NONE)
  }

  predicate Conflict(types: seq<ArgType>, n: nat, t: ArgType) {
    n < |types| && types[n] != NONE && types[n] != t
  }

  function Registered(types: seq<ArgType>, n: nat, t: ArgType): (r: seq<ArgType>)
  {
    var p := Padded(types, n);
    p[n := t]
  }

  /** What was registered stays. */
  ghost predicate Extends(later: seq<ArgType>, types: seq<ArgType>) {
    && |types| <= |later|
    && forall i :: 0 <= i < |types| && types[i] != NONE ==> later[i] == types[i]
  }

  lemma RegisteredExtends(types: seq<ArgType>, n: nat, t: ArgType)
    requires t != NONE && !Conflict(types, n, t)
    ensures Extends(Registered(types, n, t), types)
    ensures n < |Registered(types, n, t)| && Registered(types, n, t)[n] == t
  {
  }

  lemma TimesMonotone(a: nat, b: nat, c: nat)
    requires a <= b
    ensures a * c <= b * c
  {
  }

  /** The number of elements once index n has a place: at least twice the old one if it has to grow. */
  function RoomFor(room: nat, n: nat): nat {
    if n < room then room else if 2 * room > n then 2 * room else n + 1
  }

  /** Growing for index n asks for more bytes than a size can say. */
  predicate Exceeds(room: nat, n: nat, elementSize: nat) {
    room <= n && RoomFor(room, n) * elementSize >= SIZE_MAX
  }

  /** The new number of elements, no more than memory can hold. */
  method NewRoom(length: Size, n: Size, elementSize: Size) returns (ok: bool, room: Size)
    requires elementSize > 0 && length <= n < SIZE_MAX
    ensures ok <==> !Exceeds(length, n, elementSize)
    ensures ok ==> room == RoomFor(length, n) < SIZE_MAX
  {
    XtimesExact(length, 2);
    room := Xtimes(length, 2);
    if room <= n {
      room := Xsum(n, 1);
    }
    hide Xtimes;
    var memorySize := Xtimes(room, elementSize);
    XtimesExact(room, elementSize);
    TimesAtLeast(room, elementSize);
    TimesAtLeast(RoomFor(length, n), elementSize);
    ok := memorySize != SIZE_MAX;
  }

  // ---------------------------------------------------------------- the growing array

  class Arguments {
    var count: nat
    var arg: array<ArgType>

    ghost predicate Valid()
      reads this
    {
      count <= arg.Length < SIZE_MAX && 7 <= arg.Length
    }

    ghost function Types(): (s: seq<ArgType>)
      requires Valid()
      reads this, arg
    {
      arg[..count]
    }

    constructor ()
      ensures Valid() && fresh(arg) && Types() == [] && arg.Length == 7
    {
      count := 0;
      arg := new ArgType[7];
    }

    /** Make room for index n, doubling the array or more. */
    method Grow(n: Size, argumentSize: Size) returns (r: Status)
      requires Valid() && n < SIZE_MAX && argumentSize > 0
      modifies this`arg
      ensures Valid() && (arg == old(arg) || fresh(arg)) && Types() == old(Types())
      ensures r == if Exceeds(old(arg.Length), n, argumentSize) then OutOfMemory else Done
      ensures r == Done ==> n < arg.Length == RoomFor(old(arg.Length), n)
      // a new array has twice the room, or just enough if that is more
      ensures r == Done && n >= old(arg.Length) ==>
        old(arg.Length) + old(arg.Length) <= arg.Length
        && (arg.Length == old(arg.Length) + old(arg.Length) || arg.Length == n + 1)
    {
      if n < arg.Length {
        return Done;
      }
      var ok, room := NewRoom(arg.Length, n, argumentSize);
      if !ok {
        return OutOfMemory;
      }
      var memory := new ArgType[room];
      var i := 0;
      while i < count
        invariant 0 <= i <= count
        invariant memory[..i] == arg[..i]
        modifies memory
      {
        memory[i] := arg[i];
        i := i + 1;
      }
      arg := memory;
      return Done;
    }

    /** `while (a->count <= n) a->arg[a->count++].type = TYPE_NONE;`. */
    method Pad(n: Size)
      requires Valid() && n < arg.Length
      modifies this`count, arg
      ensures Valid() && n < count && Types() == Padded(old(Types()), n)
    {
      ghost var types := Types();
      while count <= n
        invariant Valid() && |types| <= count && (count <= |types| || count <= n + 1)
        invariant Types() == types + seq(count - |types|, _ => NONE)
        decreases n + 1 - count
      {
        arg[count] := NONE;
        count := count + 1;
      }
    }

    method RegisterArg(n: Size, t: ArgType, argumentSize: Size) returns (r: Status)
      requires Valid() && n < SIZE_MAX && t != NONE && argumentSize > 0
      modifies this, arg
      ensures Valid() && (arg == old(arg) || fresh(arg))
      ensures r == if Exceeds(old(arg.Length), n, argumentSize) then OutOfMemory
                   else if Conflict(old(Types()), n, t) then Error else Done
      ensures r == Done ==> Types() == Registered(old(Types()), n, t) && arg.Length == RoomFor(old(arg.Length), n)
      ensures Conflict(old(Types()), n, t) ==> r == Error
    {
      r := Grow(n, argumentSize);
      if r != Done {
        return;
      }
      hide Registered, Padded;
      r := SetType(n, t);
    }

    /** Lines 125-131: the first type registered for an index stays. */
    method SetType(n: Size, t: ArgType) returns (r: Status)
      requires Valid() && n < arg.Length && t != NONE
      modifies this`count, arg
      ensures Valid() && r == if Conflict(old(Types()), n, t) then Error else Done
      ensures r == Done ==> Types() == Registered(old(Types()), n, t)
    {
      ghost var types := Types();
      Pad(n);
      if arg[n] == NONE {
        arg[n] := t;
        assert Types() == Registered(types, n, t);
      } else if arg[n] != t {
        return Error;
      }
      return Done;
    }
  }
}
