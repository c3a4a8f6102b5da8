/** The insertion-ordered table of src/hash.cc: two arrays beside a hash table. */
module OrderedTable {
  import opened Buckets
  import opened HashTable

  /** The entries are the pairs (keys[i], data[i]), each key once. */
  ghost predicate Entries<K(!new), V>(keys: seq<K>, data: seq<V>, m: map<K, V>) {
    && |keys| == |data|
    && (forall i: nat, j: nat :: i < j < |keys| ==> keys[i] != keys[j])
    && (forall i: nat :: i < |keys| ==> keys[i] in m && m[keys[i]] == data[i])
    && (forall k: K :: k in m ==> k in keys)
  }

  function IndexOf<K(==)>(keys: seq<K>, x: K): (i: nat)
    ensures i <= |keys| && (i < |keys| ==> keys[i] == x) && forall j: nat :: j < i ==> keys[j] != x
    ensures i < |keys| <==> x in keys
  {
    if |keys| == 0 || keys[0] == x then 0 else 1 + IndexOf(keys[1..], x)
  }

  lemma EntriesAppend<K(!new), V>(keys: seq<K>, data: seq<V>, m: map<K, V>, x: K, v: V)
    requires Entries(keys, data, m) && x !in m
    ensures Entries(keys + [x], data + [v], m[x := v])
  {
    forall k: K | k in m[x := v]
      ensures k in keys + [x]
    {
      if k != x {
        assert k in keys;
      } else {
        assert (keys + [x])[|keys|] == x;
      }
    }
  }

  /** Without the element at i, the elements of a sequence without repetition are the others. */
  lemma WithoutMembers<K>(keys: seq<K>, i: nat, k: K)
    requires i < |keys| && forall a: nat, c: nat :: a < c < |keys| ==> keys[a] != keys[c]
    ensures k in Without(keys, i) <==> k in keys && k != keys[i]
  {
    WithoutIs(keys, i);
    hide Without;
    var ks := Without(keys, i);
    if k in keys && k != keys[i] {
      var j: nat :| j < |keys| && keys[j] == k;
      if j < i {
        assert ks[j] == k;
      } else {
        assert ks[j - 1] == k;
      }
    }
  }

  lemma EntriesWithout<K(!new), V>(keys: seq<K>, data: seq<V>, m: map<K, V>, x: K, i: nat)
    requires Entries(keys, data, m) && i < |keys| && keys[i] == x
    ensures Entries(Without(keys, i), Without(data, i), m - {x})
  {
    var ks, ds := Without(keys, i), Without(data, i);
    hide Without;
    WithoutIs(keys, i);
    WithoutIs(data, i);
    forall j: nat | j < |ks|
      ensures ks[j] in m - {x} && (m - {x})[ks[j]] == ds[j]
    {
      WithoutAt(keys, i, j);
      WithoutAt(data, i, j);
    }
    forall j: nat, c: nat | j < c < |ks|
      ensures ks[j] != ks[c]
    {
      WithoutAt(keys, i, j);
      WithoutAt(keys, i, c);
    }
    forall k: K | k in m - {x}
      ensures k in ks
    {
      WithoutMembers(keys, i, k);
    }
  }

  /** cur is s with the elements from i to j moved down by one place. */
  ghost predicate Shifted<T>(cur: seq<T>, s: seq<T>, i: nat, j: nat) {
    && |cur| == |s|
    && forall k: nat {:trigger cur[k]} :: k < |s| ==> cur[k] == if i <= k < j && k + 1 < |s| then s[k + 1] else s[k]
  }

  lemma ShiftStep<T>(cur: seq<T>, s: seq<T>, i: nat, j: nat)
    requires Shifted(cur, s, i, j) && i <= j && j + 1 < |s|
    ensures |cur| == |s| && Shifted(cur[j := cur[j + 1]], s, i, j + 1)
  {
    var next := cur[j := cur[j + 1]];
    forall k: nat | k < |s|
      ensures next[k] == if i <= k < j + 1 && k + 1 < |s| then s[k + 1] else s[k]
    {
      assert cur[k] == if i <= k < j && k + 1 < |s| then s[k + 1] else s[k];
      assert cur[j + 1] == s[j + 1];
    }
  }

  lemma ShiftDone<T>(cur: seq<T>, s: seq<T>, i: nat)
    requires i < |s| && Shifted(cur, s, i, |s| - 1)
    ensures |cur| == |s| && cur[..|s| - 1] == Without(s, i)
  {
    WithoutIs(s, i);
    hide Without;
    var w := Without(s, i);
    forall k: nat | k < |s| - 1
      ensures cur[k] == w[k]
    {
    }
  }

  lemma EntriesOf<K(!new), V>(keys: seq<K>, data: seq<V>, m: map<K, V>, i: nat)
    requires Entries(keys, data, m) && i < |keys|
    ensures |keys| == |data| && keys[i] in m
  {
  }

  lemma AbsentKey<K(!new), V>(keys: seq<K>, data: seq<V>, m: map<K, V>, x: K)
    requires Entries(keys, data, m)
    ensures x in keys <==> x in m
    ensures x !in keys ==> m - {x} == m
    ensures x !in keys ==> Without(keys, IndexOf(keys, x)) == keys && Without(data, IndexOf(keys, x)) == data
  {
    if x in keys {
      assert keys[IndexOf(keys, x)] == x;
    }
  }

  class OrderedTable<K(==, !new), V> {
    const table: HashTable<K, V>
    var keyArray: seq<K>
    var dataArray: seq<V>

    ghost predicate Valid()
      reads this, table, table.L, table.shape.repr
    {
      table.Valid() && Entries(keyArray, dataArray, table.contents)
    }

    constructor (hash: (K, int) -> int)
      requires HashOk(hash)
      ensures Valid() && keyArray == [] && dataArray == [] && table.contents == map[]
      ensures fresh(table) && fresh(table.L) && fresh(table.shape.repr)
    {
      keyArray, dataArray := [], [];
      table := new HashTable(hash);
    }

    /** lookup. */
    method Lookup(x: K) returns (found: bool)
      requires Valid()
      ensures found <==> x in keyArray
    {
      var dp := table.Lookup(x);
      found := dp != null;
      assert forall i: nat :: i < |keyArray| ==> keyArray[i] in table.contents;
    }

    /** Lines 346-353: close the gap at i in both arrays. */
    method CloseGap(i: nat)
      requires i < |keyArray| == |dataArray|
      modifies `keyArray, `dataArray
      ensures keyArray == Without(old(keyArray), i) && dataArray == Without(old(dataArray), i)
    {
      ghost var keys, data := keyArray, dataArray;
      assert Shifted(keyArray, keys, i, i) && Shifted(dataArray, data, i, i);
      hide Shifted;
      var j := i;
      while j < |keyArray| - 1
        invariant i <= j <= |keys| - 1 && |keyArray| == |keys| == |dataArray|
        invariant Shifted(keyArray, keys, i, j) && Shifted(dataArray, data, i, j)
        decreases |keys| - j
      {
        ShiftStep(keyArray, keys, i, j);
        ShiftStep(dataArray, data, i, j);
        keyArray := keyArray[j := keyArray[j + 1]];
        dataArray := dataArray[j := dataArray[j + 1]];
        j := j + 1;
      }
      ShiftDone(keyArray, keys, i);
      ShiftDone(dataArray, data, i);
      keyArray := keyArray[..|keyArray| - 1];
      dataArray := dataArray[..|dataArray| - 1];
    }

    /** The search of lines 346-347. */
    method FindKey(x: K) returns (i: nat)
      requires x in keyArray
      ensures i == IndexOf(keyArray, x) < |keyArray| && keyArray[i] == x
    {
      i := 0;
      while i < |keyArray|
        invariant 0 <= i <= |keyArray| && forall j: nat :: j < i ==> keyArray[j] != x
      {
        if x == keyArray[i] {
          break;
        }
        i := i + 1;
      }
    }

    /** Lines 346-361 for a key that is present. */
    method RemovePresent(x: K)
      requires Valid() && x in keyArray
      modifies this, table, table.L, table.shape.repr
      ensures Valid() && table.L == old(table.L) && table.shape.repr == old(table.shape.repr)
      ensures keyArray == Without(old(keyArray), IndexOf(old(keyArray), x))
      ensures dataArray == Without(old(dataArray), IndexOf(old(keyArray), x))
      ensures table.contents == old(table.contents) - {x}
    {
      var i := FindKey(x);
      EntriesOf(keyArray, dataArray, table.contents, i);
      EntriesWithout(keyArray, dataArray, table.contents, x, i);
      SharesOwn(table.func, table.M, table.contents, x);
      hide Holds, HashOk, Without, IndexOf, Entries, SharesBucket;
      CloseGap(i);
      var ok := table.Remove(x);
      // the bucket of a key is not empty
      assert ok;
    }

    /** remove. */
    method Remove(x: K)
      requires Valid()
      modifies this, table, table.L, table.shape.repr
      ensures Valid() && table.L == old(table.L) && table.shape.repr == old(table.shape.repr)
      ensures keyArray == Without(old(keyArray), IndexOf(old(keyArray), x))
      ensures dataArray == Without(old(dataArray), IndexOf(old(keyArray), x))
      ensures table.contents == old(table.contents) - {x}
    {
      hide Holds, HashOk;
      AbsentKey(keyArray, dataArray, table.contents, x);
      hide Without, IndexOf, Entries;
      var found := Lookup(x);
      if found {
        RemovePresent(x);
      }
    }

    /** insert: x moves to the end. */
    method Insert(x: K, init: V)
      requires Valid()
      modifies this, table, table.L, table.shape.repr
      ensures Valid() && fresh(table.shape.repr - old(table.shape.repr)) && (table.L == old(table.L) || fresh(table.L))
      ensures keyArray == Without(old(keyArray), IndexOf(old(keyArray), x)) + [x]
      ensures dataArray == Without(old(dataArray), IndexOf(old(keyArray), x)) + [init]
      ensures table.contents == old(table.contents)[x := init]
    {
      hide Holds, HashOk, Without, IndexOf, Entries;
      Remove(x);
      EntriesAppend(keyArray, dataArray, table.contents, x, init);
      keyArray := keyArray + [x];
      dataArray := dataArray + [init];
      var dp := table.Insert(x, init);
    }
  }

  // ---------------------------------------------------------------- whole runs

  datatype Op<K, V> = Put(key: K, value: V) | Drop(key: K)

  function KeysAfter<K(==), V>(ops: seq<Op<K, V>>): seq<K> {
    if |ops| == 0 then []
    else
      var keys, op := KeysAfter(ops[..|ops| - 1]), ops[|ops| - 1];
      Without(keys, IndexOf(keys, op.key)) + if op.Put? then [op.key] else []
  }

  function DataAfter<K(==), V>(ops: seq<Op<K, V>>): seq<V> {
    if |ops| == 0 then []
    else
      var keys, op := KeysAfter(ops[..|ops| - 1]), ops[|ops| - 1];
      Without(DataAfter(ops[..|ops| - 1]), IndexOf(keys, op.key)) + if op.Put? then [op.value] else []
  }

  function MapAfter<K(==), V>(ops: seq<Op<K, V>>): map<K, V> {
    if |ops| == 0 then map[]
    else
      var m, op := MapAfter(ops[..|ops| - 1]), ops[|ops| - 1];
      match op
      case Put(x, v) => m[x := v]
      case Drop(x) => m - {x}
  }

  /** When k was last put in and not dropped since, or -1. */
  function LastPut<K(==), V>(ops: seq<Op<K, V>>, k: K): (t: int)
    ensures -1 <= t < |ops|
    ensures t >= 0 ==> ops[t].Put? && ops[t].key == k
  {
    if |ops| == 0 then -1
    else
      var op := ops[|ops| - 1];
      if op.key == k then (if op.Put? then |ops| - 1 else -1) else LastPut(ops[..|ops| - 1], k)
  }

  /** The keys are those put in and not dropped since, in the order in which they were last put in; each has the data
      of that time. */
  ghost predicate InLastPutOrder<K(!new), V>(ops: seq<Op<K, V>>, keys: seq<K>, data: seq<V>) {
    && |keys| == |data|
    && (forall k: K :: k in keys <==> LastPut(ops, k) >= 0)
    && (forall i: nat, j: nat :: i < j < |keys| ==> LastPut(ops, keys[i]) < LastPut(ops, keys[j]))
    && (forall i: nat :: i < |keys| ==> LastPut(ops, keys[i]) >= 0 && data[i] == ops[LastPut(ops, keys[i])].value)
  }

  lemma LastPutStep<K, V>(ops: seq<Op<K, V>>, op: Op<K, V>, k: K)
    ensures LastPut(ops + [op], k) == if op.key != k then LastPut(ops, k) else if op.Put? then |ops| else -1
  {
    assert (ops + [op])[..|ops|] == ops;
  }

  /** In the order of last puts no key repeats. */
  lemma OrderDistinct<K(!new), V>(ops: seq<Op<K, V>>, keys: seq<K>, data: seq<V>)
    requires InLastPutOrder(ops, keys, data)
    ensures forall a: nat, c: nat :: a < c < |keys| ==> keys[a] != keys[c]
  {
    hide LastPut;
    forall a: nat, c: nat | a < c < |keys|
      ensures keys[a] != keys[c]
    {
      assert LastPut(ops, keys[a]) < LastPut(ops, keys[c]);
    }
  }

  /** A later operation on x leaves the times of the other keys. */
  lemma TimesAfterDrop<K(!new), V>(ops: seq<Op<K, V>>, x: K)
    ensures forall k: K :: LastPut(ops + [Drop(x)], k) == if k == x then -1 else LastPut(ops, k)
  {
    hide LastPut;
    forall k: K
      ensures LastPut(ops + [Drop(x)], k) == if k == x then -1 else LastPut(ops, k)
    {
      LastPutStep(ops, Drop(x), k);
    }
  }

  lemma TimesAfterPut<K(!new), V>(ops: seq<Op<K, V>>, x: K, v: V)
    ensures forall k: K :: LastPut(ops + [Put(x, v)], k) == if k == x then |ops| else LastPut(ops, k)
  {
    hide LastPut;
    forall k: K
      ensures LastPut(ops + [Put(x, v)], k) == if k == x then |ops| else LastPut(ops, k)
    {
      LastPutStep(ops, Put(x, v), k);
    }
  }

  lemma DropAbsent<K(!new), V>(ops: seq<Op<K, V>>, x: K, keys: seq<K>, data: seq<V>)
    requires InLastPutOrder(ops, keys, data) && x !in keys
    ensures InLastPutOrder(ops + [Drop(x)], keys, data)
  {
    TimesAfterDrop(ops, x);
    hide LastPut;
    var later := ops + [Drop(x)];
    forall j: nat | j < |keys|
      ensures LastPut(later, keys[j]) == LastPut(ops, keys[j])
      ensures later[LastPut(ops, keys[j])] == ops[LastPut(ops, keys[j])]
    {
      assert keys[j] in keys;
    }
  }

  /** The times and data of the keys that stay. */
  lemma DropTimes<K(!new), V>(ops: seq<Op<K, V>>, i: nat, keys: seq<K>, data: seq<V>, j: nat)
    requires InLastPutOrder(ops, keys, data) && i < |keys| == |data| && j < |keys| - 1
    ensures var later, ks := ops + [Drop(keys[i])], Without(keys, i);
            && |ks| == |keys| - 1 == |Without(data, i)|
            && ks[j] == keys[if j < i then j else j + 1]
            && LastPut(later, ks[j]) == LastPut(ops, ks[j]) >= 0
            && Without(data, i)[j] == later[LastPut(later, ks[j])].value
  {
    hide LastPut, Without, InLastPutOrder;
    WithoutAt(keys, i, j);
    WithoutAt(data, i, j);
    var c := if j < i then j else j + 1;
    PutTime(ops, keys, data, c);
    DifferentKeys(ops, keys, data, c, i);
    LastPutStep(ops, Drop(keys[i]), keys[c]);
  }

  lemma PutTime<K(!new), V>(ops: seq<Op<K, V>>, keys: seq<K>, data: seq<V>, c: nat)
    requires InLastPutOrder(ops, keys, data) && c < |keys|
    ensures |keys| == |data| && LastPut(ops, keys[c]) >= 0 && data[c] == ops[LastPut(ops, keys[c])].value
  {
    hide LastPut;
  }

  lemma DifferentKeys<K(!new), V>(ops: seq<Op<K, V>>, keys: seq<K>, data: seq<V>, a: nat, c: nat)
    requires InLastPutOrder(ops, keys, data) && a < |keys| && c < |keys| && a != c
    ensures keys[a] != keys[c]
  {
    OrderDistinct(ops, keys, data);
  }

  lemma DropPresent<K(!new), V>(ops: seq<Op<K, V>>, i: nat, keys: seq<K>, data: seq<V>)
    requires InLastPutOrder(ops, keys, data) && i < |keys|
    ensures InLastPutOrder(ops + [Drop(keys[i])], Without(keys, i), Without(data, i))
  {
    var later, ks, ds := ops + [Drop(keys[i])], Without(keys, i), Without(data, i);
    OrderDistinct(ops, keys, data);
    TimesAfterDrop(ops, keys[i]);
    WithoutIs(keys, i);
    WithoutIs(data, i);
    hide LastPut, Without;
    forall k: K
      ensures k in ks <==> LastPut(later, k) >= 0
    {
      WithoutMembers(keys, i, k);
    }
    forall j: nat | j < |ks|
      ensures ks[j] == keys[if j < i then j else j + 1]
      ensures LastPut(later, ks[j]) == LastPut(ops, ks[j]) >= 0
      ensures ds[j] == later[LastPut(later, ks[j])].value
    {
      DropTimes(ops, i, keys, data, j);
    }
  }

  lemma DropStep<K(!new), V>(ops: seq<Op<K, V>>, x: K, keys: seq<K>, data: seq<V>)
    requires InLastPutOrder(ops, keys, data)
    ensures var i := IndexOf(keys, x); InLastPutOrder(ops + [Drop(x)], Without(keys, i), Without(data, i))
  {
    var i := IndexOf(keys, x);
    if i < |keys| {
      DropPresent(ops, i, keys, data);
    } else {
      assert |keys| == |data| && Without(keys, i) == keys && Without(data, i) == data;
      DropAbsent(ops, x, keys, data);
    }
  }

  lemma PutStep<K(!new), V>(ops: seq<Op<K, V>>, x: K, v: V, ks: seq<K>, ds: seq<V>)
    requires InLastPutOrder(ops + [Drop(x)], ks, ds)
    ensures InLastPutOrder(ops + [Put(x, v)], ks + [x], ds + [v])
  {
    var dropped, later := ops + [Drop(x)], ops + [Put(x, v)];
    var keys, data := ks + [x], ds + [v];
    TimesAfterDrop(ops, x);
    TimesAfterPut(ops, x, v);
    hide LastPut;
    assert x !in ks;
    forall j: nat | j < |ks|
      ensures keys[j] == ks[j] && data[j] == ds[j]
      ensures LastPut(later, ks[j]) == LastPut(dropped, ks[j]) == LastPut(ops, ks[j])
      ensures later[LastPut(dropped, ks[j])] == dropped[LastPut(dropped, ks[j])]
    {
      assert ks[j] in ks;
    }
    forall k: K
      ensures k in keys <==> LastPut(later, k) >= 0
    {
      assert k in keys <==> k in ks || k == x;
    }
  }

  lemma RunsNothing<K(!new), V>(ops: seq<Op<K, V>>)
    requires ops == []
    ensures InLastPutOrder(ops, KeysAfter(ops), DataAfter(ops))
  {
  }

  lemma {:induction false} RunsInLastPutOrder<K(!new), V>(ops: seq<Op<K, V>>)
    ensures InLastPutOrder(ops, KeysAfter(ops), DataAfter(ops))
  {
    hide *;
    if |ops| == 0 {
      RunsNothing(ops);
    } else {
      var before, op := ops[..|ops| - 1], ops[|ops| - 1];
      RunsInLastPutOrder(before);
      RunStep(before, op);
      assert before + [op] == ops;
    }
  }

  lemma RunStep<K(!new), V>(before: seq<Op<K, V>>, op: Op<K, V>)
    requires InLastPutOrder(before, KeysAfter(before), DataAfter(before))
    ensures InLastPutOrder(before + [op], KeysAfter(before + [op]), DataAfter(before + [op]))
  {
    hide InLastPutOrder, Without, IndexOf;
    assert (before + [op])[..|before|] == before;
    var keys, data := KeysAfter(before), DataAfter(before);
    var i := IndexOf(keys, op.key);
    var ks, ds := Without(keys, i), Without(data, i);
    DropStep(before, op.key, keys, data);
    assert KeysAfter(before + [op]) == ks + if op.Put? then [op.key] else [];
    assert DataAfter(before + [op]) == ds + if op.Put? then [op.value] else [];
    hide KeysAfter, DataAfter;
    match op
    case Drop(x) =>
      assert ks + [] == ks && ds + [] == ds;
    case Put(x, v) =>
      PutStep(before, x, v, ks, ds);
  }

  /** One more operation, as the specification functions see it. */
  lemma OneMore<K, V>(before: seq<Op<K, V>>, op: Op<K, V>)
    ensures var keys := KeysAfter(before);
            && KeysAfter(before + [op])
               == Without(keys, IndexOf(keys, op.key)) + (if op.Put? then [op.key] else [])
            && DataAfter(before + [op])
               == Without(DataAfter(before), IndexOf(keys, op.key)) + (if op.Put? then [op.value] else [])
            && MapAfter(before + [op])
               == if op.Put? then MapAfter(before)[op.key := op.value] else MapAfter(before) - {op.key}
  {
    hide Without, IndexOf;
    assert (before + [op])[..|before|] == before;
  }

  /** One operation on the real structures. */
  method Perform<K(==, !new), V>(t: OrderedTable<K, V>, op: Op<K, V>, ghost before: seq<Op<K, V>>)
    requires t.Valid() && t.keyArray == KeysAfter(before) && t.dataArray == DataAfter(before)
    requires t.table.contents == MapAfter(before)
    modifies t, t.table, t.table.L, t.table.shape.repr
    ensures t.Valid() && fresh(t.table.shape.repr - old(t.table.shape.repr))
    ensures t.table.L == old(t.table.L) || fresh(t.table.L)
    ensures t.keyArray == KeysAfter(before + [op]) && t.dataArray == DataAfter(before + [op])
    ensures t.table.contents == MapAfter(before + [op])
  {
    OneMore(before, op);
    hide Holds, HashOk, Entries, Without, IndexOf, KeysAfter, DataAfter, MapAfter;
    match op {
      case Put(x, v) => t.Insert(x, v);
      case Drop(x) => t.Remove(x);
    }
  }

  lemma NothingYet<K, V>(ops: seq<Op<K, V>>)
    ensures KeysAfter(ops[..0]) == [] && DataAfter(ops[..0]) == [] && MapAfter(ops[..0]) == map[]
  {
  }

  /** Any run of insertions and removals on a new table: the arrays hold the live keys in the order in which they were
      last put in, each with its data, and the hash table holds the same map. */
  method Run<K(==, !new), V>(hash: (K, int) -> int, ops: seq<Op<K, V>>) returns (t: OrderedTable<K, V>)
    requires HashOk(hash)
    ensures t.Valid() && t.keyArray == KeysAfter(ops) && t.dataArray == DataAfter(ops)
    ensures InLastPutOrder(ops, t.keyArray, t.dataArray)
    ensures t.table.contents == MapAfter(ops)
  {
    RunsInLastPutOrder(ops);
    NothingYet(ops);
    hide *;
    t := new OrderedTable(hash);
    var i := 0;
    while i < |ops|
      invariant 0 <= i <= |ops|
      invariant t.Valid() && fresh(t) && fresh(t.table) && fresh(t.table.L) && fresh(t.table.shape.repr)
      invariant t.keyArray == KeysAfter(ops[..i]) && t.dataArray == DataAfter(ops[..i])
      invariant t.table.contents == MapAfter(ops[..i])
    {
      Perform(t, ops[i], ops[..i]);
      assert ops[..i + 1] == ops[..i] + [ops[i]];
      i := i + 1;
    }
    assert ops[..i] == ops;
  }
}
