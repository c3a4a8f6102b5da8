/** The chained hash table of src/hash.cc refines a finite map. */
module HashTable {
  import opened Buckets
  import opened Chains

  /** Which nodes hang off the bucket array, and what they hold. */
  datatype Shape<K, V> = Shape(spines: seq<seq<Node<K, V>>>, buckets: seq<seq<(K, V)>>, repr: set<Node<K, V>>)

  /** The list of bucket i: its nodes were made for it. */
  ghost predicate LinkedAt<K, V>(head: Node?<K, V>, i: int, spine: seq<Node<K, V>>, items: seq<(K, V)>)
    reads spine
  {
    && (forall node :: node in spine ==> node.bucket == i)
    && Chain(head, spine) && Items(spine) == items
  }

  /** There are n lists, of nodes in repr. */
  ghost predicate Owned<K, V>(n: nat, sh: Shape<K, V>) {
    && |sh.spines| == n && |sh.buckets| == n
    && forall i: nat, node :: i < n && node in sh.spines[i] ==> node in sh.repr
  }

  /** The lists of the n buckets are those of sh. */
  ghost predicate Linked<K, V>(L: array<Node?<K, V>>, n: nat, sh: Shape<K, V>)
    reads L, sh.repr
  {
    && L.Length == n && Owned(n, sh)
    && forall i: nat :: i < n ==> LinkedAt(L[i], i, sh.spines[i], sh.buckets[i])
  }

  /** The nodes of one bucket are in no other. */
  lemma Elsewhere<K, V>(L: array<Node?<K, V>>, n: nat, sh: Shape<K, V>, h: nat)
    requires Linked(L, n, sh) && h < n
    ensures forall i: nat, a: nat, c: nat :: i < n && i != h && a < |sh.spines[i]| && c < |sh.spines[h]| ==>
              sh.spines[i][a] != sh.spines[h][c]
  {
    hide Chain;
    hide Items;
    assert LinkedAt(L[h], h, sh.spines[h], sh.buckets[h]);
    forall i: nat, a: nat, c: nat | i < n && i != h && a < |sh.spines[i]| && c < |sh.spines[h]|
      ensures sh.spines[i][a] != sh.spines[h][c]
    {
      assert LinkedAt(L[i], i, sh.spines[i], sh.buckets[i]);
      assert sh.spines[i][a] in sh.spines[i] && sh.spines[h][c] in sh.spines[h];
    }
  }

  function Prepended<K, V>(sh: Shape<K, V>, h: nat, node: Node<K, V>, x: K, v: V): Shape<K, V>
    requires h < |sh.spines| && h < |sh.buckets|
  {
    Shape(sh.spines[h := [node] + sh.spines[h]], sh.buckets[h := [(x, v)] + sh.buckets[h]], sh.repr + {node})
  }

  lemma LinkedAtCons<K, V>(node: Node<K, V>, head: Node?<K, V>, h: int, spine: seq<Node<K, V>>, items: seq<(K, V)>)
    requires LinkedAt(head, h, spine, items) && node.next == head && node.bucket == h
    ensures LinkedAt(node, h, [node] + spine, [(node.key, node.value)] + items)
  {
    ChainCons(node, head, spine);
    hide Chain;
    hide Items;
  }

  /** `L[h] = new ItemList(HashItem(x, v), L[h]);`. */
  method Prepend<K(!new), V>(L: array<Node?<K, V>>, h: nat, x: K, v: V, ghost n: nat, ghost sh: Shape<K, V>)
    returns (ghost sh': Shape<K, V>, node: Node<K, V>)
    requires Linked(L, n, sh) && h < n
    modifies L
    ensures fresh(node) && node.key == x && node.value == v && L[h] == node
    ensures sh' == Prepended(sh, h, node, x, v) && Linked(L, n, sh')
  {
    hide LinkedAt;
    ghost var head := L[h];
    node := new Node(x, v, L[h], h);
    L[h] := node;
    sh' := Prepended(sh, h, node, x, v);
    LinkedAtCons(node, head, h, sh.spines[h], sh.buckets[h]);
  }

  lemma ReplaceValue<K, V>(head: Node?<K, V>, h: int, spine: seq<Node<K, V>>, items: seq<(K, V)>, a: nat, v: V)
    requires Chain(head, spine) && a < |spine| == |items| && forall node :: node in spine ==> node.bucket == h
    requires forall c: nat :: c < |spine| && c != a ==> (spine[c].key, spine[c].value) == items[c]
    requires spine[a].value == v && spine[a].key == items[a].0
    ensures LinkedAt(head, h, spine, items[a := (items[a].0, v)])
  {
    hide Chain;
    assert Items(spine) == items[a := (items[a].0, v)];
  }

  /** Node a of a bucket, and the others. */
  lemma NodeOf<K, V>(head: Node?<K, V>, h: int, spine: seq<Node<K, V>>, items: seq<(K, V)>, a: nat)
    requires LinkedAt(head, h, spine, items) && a < |spine|
    ensures |items| == |spine| && Chain(head, spine) && forall node :: node in spine ==> node.bucket == h
    ensures forall c: nat :: c < |spine| ==> (spine[c].key, spine[c].value) == items[c]
    ensures forall c: nat :: c < |spine| && c != a ==> spine[c] != spine[a]
  {
    forall c: nat | c < |spine| && c != a
      ensures spine[c] != spine[a]
    {
      if c < a { ChainDistinct(head, spine, c, a); } else { ChainDistinct(head, spine, a, c); }
    }
  }

  /** `*dp = init;` for node a of bucket h. */
  method Overwrite<K(!new), V>(L: array<Node?<K, V>>, h: nat, dp: Node<K, V>, v: V, ghost a: nat, ghost n: nat,
                               ghost sh: Shape<K, V>)
    returns (ghost sh': Shape<K, V>)
    requires Linked(L, n, sh) && h < n && a < |sh.spines[h]| && a < |sh.buckets[h]| && dp == sh.spines[h][a]
    modifies dp`value
    ensures dp.value == v
    ensures sh' == sh.(buckets := sh.buckets[h := sh.buckets[h][a := (sh.buckets[h][a].0, v)]]) && Linked(L, n, sh')
  {
    Elsewhere(L, n, sh, h);
    NodeOf(L[h], h, sh.spines[h], sh.buckets[h], a);
    hide LinkedAt;
    hide Items;
    assert Chain(L[h], sh.spines[h]);
    assert dp in sh.spines[h];
    dp.value := v;
    sh' := sh.(buckets := sh.buckets[h := sh.buckets[h][a := (sh.buckets[h][a].0, v)]]);
    ReplaceValue(L[h], h, sh.spines[h], sh.buckets[h], a, v);
  }

  function Unlinked<K, V>(sh: Shape<K, V>, h: nat, a: nat): Shape<K, V>
    requires h < |sh.spines| && h < |sh.buckets|
  {
    Shape(sh.spines[h := Without(sh.spines[h], a)], sh.buckets[h := Without(sh.buckets[h], a)], sh.repr)
  }

  lemma LinkedAtWithout<K, V>(head: Node?<K, V>, h: int, spine: seq<Node<K, V>>, items: seq<(K, V)>, a: nat)
    requires Items(spine) == items && forall node :: node in spine ==> node.bucket == h
    requires Chain(head, Without(spine, a))
    ensures LinkedAt(head, h, Without(spine, a), Without(items, a))
  {
    hide Chain;
    assert Items(Without(spine, a)) == Without(items, a);
  }

  /** The items of a bucket, node by node. */
  lemma ItemsOf<K, V>(head: Node?<K, V>, h: int, spine: seq<Node<K, V>>, items: seq<(K, V)>)
    requires LinkedAt(head, h, spine, items)
    ensures Items(spine) == items && Chain(head, spine) && forall node :: node in spine ==> node.bucket == h
  {
  }

  lemma FirstOf<K, V>(spine: seq<Node<K, V>>, items: seq<(K, V)>, at: nat, x: K)
    requires Items(spine) == items
    requires at <= |spine| && (at < |spine| ==> spine[at].key == x)
    requires forall a: nat :: a < at ==> spine[a].key != x
    ensures FirstAt(items, at, x) && (items == [] <==> spine == [])
  {
  }

  /** Lines 218-239: take the item with key x out of a bucket, if it is there; ok is whether there is a first item to
      look at. */
  method UnlinkIn<K(==, !new), V>(head: Node?<K, V>, x: K, ghost h: int, ghost spine: seq<Node<K, V>>,
                                  ghost items: seq<(K, V)>)
    returns (ok: bool, newHead: Node?<K, V>, ghost at: nat)
    requires LinkedAt(head, h, spine, items)
    modifies spine`next
    ensures ok <==> items != []
    ensures FirstAt(items, at, x)
    ensures LinkedAt(newHead, h, Without(spine, at), Without(items, at))
  {
    ItemsOf(head, h, spine, items);
    hide LinkedAt, Items, Chain, Without, FirstAt;
    ok, newHead, at := RemoveFrom(head, spine, x);
    FirstOf(spine, items, at, x);
    LinkedAtWithout(newHead, h, spine, items, at);
  }

  /** Removing from one bucket leaves the others alone. */
  method Unlink<K(==, !new), V>(L: array<Node?<K, V>>, h: nat, x: K, ghost n: nat, ghost sh: Shape<K, V>)
    returns (ok: bool, ghost sh': Shape<K, V>, ghost at: nat)
    requires Linked(L, n, sh) && h < n
    modifies L, sh.spines[h]`next
    ensures ok <==> sh.buckets[h] != []
    ensures FirstAt(sh.buckets[h], at, x)
    ensures sh' == Unlinked(sh, h, at) && Linked(L, n, sh')
  {
    OwnedParts(n, sh);
    hide LinkedAt, Without, Owned, Chain, Items, After, FirstAt;
    Elsewhere(L, n, sh, h);
    var newHead;
    ok, newHead, at := UnlinkIn(L[h], x, h, sh.spines[h], sh.buckets[h]);
    L[h] := newHead;
    sh' := Unlinked(sh, h, at);
    OwnedUnlinked(n, sh, h, at);
  }

  lemma OwnedParts<K, V>(n: nat, sh: Shape<K, V>)
    requires Owned(n, sh)
    ensures n == |sh.spines| == |sh.buckets|
  {
  }

  lemma OwnedUnlinked<K, V>(n: nat, sh: Shape<K, V>, h: nat, at: nat)
    requires Owned(n, sh) && h < n
    ensures Owned(n, Unlinked(sh, h, at))
  {
    hide Without;
  }

  // ---------------------------------------------------------------- more buckets

  /** The lists represent the map m. */
  ghost predicate Holds<K(!new), V>(func: (K, int) -> int, L: array<Node?<K, V>>, n: nat, sh: Shape<K, V>, m: map<K, V>)
    reads L, sh.repr
  {
    Linked(L, n, sh) && Represents(func, n, sh.buckets, m)
  }

  /** A new array of empty buckets. */
  method EmptyTable<K(!new), V>(ghost func: (K, int) -> int, n: nat)
    returns (L: array<Node?<K, V>>, ghost sh: Shape<K, V>)
    ensures fresh(L) && sh.repr == {} && Holds(func, L, n, sh, map[])
  {
    L := new Node?<K, V>[n];
    var i := 0;
    while i < n
      invariant 0 <= i <= n && forall j: nat :: j < i ==> L[j] == null
    {
      L[i] := null;
      i := i + 1;
    }
    sh := Shape(seq(n, _ => []), seq(n, _ => []), {});
    EmptyBuckets(func, n, sh.buckets);
  }

  /** Put a key that is not in the table at the head of its bucket. */
  method Put<K(!new), V>(func: (K, int) -> int, L: array<Node?<K, V>>, n: nat, x: K, v: V,
                         ghost sh: Shape<K, V>, ghost m: map<K, V>)
    returns (ghost sh': Shape<K, V>, node: Node<K, V>)
    requires HashOk(func) && n > 0 && Holds(func, L, n, sh, m) && x !in m
    modifies L
    ensures Holds(func, L, n, sh', m[x := v])
    ensures fresh(node) && sh'.repr == sh.repr + {node} && node.key == x && node.value == v && L[func(x, n)] == node
  {
    hide Linked;
    hide Represents;
    var h := func(x, n);
    assert L.Length == n && n == |sh.spines| == |sh.buckets| by { Sizes(L, n, sh); }
    sh', node := Prepend(L, h, x, v, n, sh);
    ConsInTable(func, n, sh.buckets, m, x, v);
  }

  lemma Sizes<K, V>(L: array<Node?<K, V>>, n: nat, sh: Shape<K, V>)
    requires Linked(L, n, sh)
    ensures L.Length == n && n == |sh.spines| == |sh.buckets|
  {
  }

  /** The items of one old bucket, from p on, go to the new table (lines 277-284). */
  method MoveBucket<K(!new), V>(func: (K, int) -> int, head: Node?<K, V>, tmp: array<Node?<K, V>>, newM: nat,
                                ghost n: nat, ghost i: nat, ghost spine: seq<Node<K, V>>, ghost items: seq<(K, V)>,
                                ghost m: map<K, V>, ghost sh: Shape<K, V>, ghost moved: map<K, V>)
    returns (ghost sh': Shape<K, V>, ghost moved': map<K, V>)
    requires HashOk(func) && newM > 0
    requires LinkedAt(head, i, spine, items) && BucketFor(func, n, i, items, m)
    requires Holds(func, tmp, newM, sh, moved) && Moved(func, n, items, i, 0, m, moved)
    modifies tmp
    ensures Holds(func, tmp, newM, sh', moved') && fresh(sh'.repr - sh.repr)
    ensures Moved(func, n, items, i, |items|, m, moved')
  {
    hide HashOk, Linked, LinkedAt, BucketFor, Represents, Holds, Moved, Chain;
    ItemsOf(head, i, spine, items);
    sh', moved' := sh, moved;
    var p := head;
    ghost var a := 0;
    ChainStart(head, spine);
    while p != null
      invariant a <= |spine| && p == (if a < |spine| then spine[a] else null)
      invariant Items(spine) == items && Chain(head, spine)
      invariant Holds(func, tmp, newM, sh', moved') && fresh(sh'.repr - sh.repr)
      invariant Moved(func, n, items, i, a, m, moved')
      decreases |spine| - a
    {
      MovedItem(func, n, items, i, a, m, moved');
      NextIs(head, spine, a);
      var node;
      sh', node := Put(func, tmp, newM, p.key, p.value, sh', moved');
      moved' := moved'[p.key := p.value];
      p, a := p.next, a + 1;
    }
  }

  lemma ChainStart<K, V>(head: Node?<K, V>, spine: seq<Node<K, V>>)
    requires Chain(head, spine)
    ensures head == if |spine| == 0 then null else spine[0]
  {
  }

  lemma HoldsParts<K(!new), V>(func: (K, int) -> int, L: array<Node?<K, V>>, n: nat, sh: Shape<K, V>, m: map<K, V>)
    requires Holds(func, L, n, sh, m)
    ensures L.Length == n && n == |sh.spines| == |sh.buckets|
    ensures forall i: nat, a: nat :: i < n && a < |sh.spines[i]| ==> sh.spines[i][a] in sh.repr
  {
    forall i: nat, a: nat | i < n && a < |sh.spines[i]|
      ensures sh.spines[i][a] in sh.repr
    {
      assert sh.spines[i][a] in sh.spines[i];
    }
  }

  lemma HoldsBucket<K(!new), V>(func: (K, int) -> int, L: array<Node?<K, V>>, n: nat, sh: Shape<K, V>, m: map<K, V>,
                                i: nat)
    requires Holds(func, L, n, sh, m) && i < n
    ensures L.Length == n && n == |sh.spines| == |sh.buckets|
    ensures LinkedAt(L[i], i, sh.spines[i], sh.buckets[i]) && BucketFor(func, n, i, sh.buckets[i], m)
  {
    hide LinkedAt;
    hide BucketFor;
  }

  /** Lines 270-286: a table with newM buckets, fewer or more than before, that represents the same map. */
  method Rehash<K(!new), V>(func: (K, int) -> int, L: array<Node?<K, V>>, n: nat, newM: nat,
                            ghost sh: Shape<K, V>, ghost m: map<K, V>)
    returns (tmp: array<Node?<K, V>>, ghost sh': Shape<K, V>)
    requires HashOk(func) && n > 0 && newM > 0 && Holds(func, L, n, sh, m)
    ensures fresh(tmp) && fresh(sh'.repr) && Holds(func, tmp, newM, sh', m)
  {
    hide *;
    HoldsParts(func, L, n, sh, m);
    tmp, sh' := EmptyTable(func, newM);
    ghost var moved: map<K, V> := map[];
    MovedNothing(func, n, sh.buckets[0], m);
    var i := 0;
    while i < n
      invariant 0 <= i <= n && Holds(func, L, n, sh, m)
      invariant Holds(func, tmp, newM, sh', moved) && fresh(sh'.repr)
      invariant Moved(func, n, if i < n then sh.buckets[i] else [], i, 0, m, moved)
    {
      ghost var next := if i + 1 < n then sh.buckets[i + 1] else [];
      HoldsBucket(func, L, n, sh, m, i);
      sh', moved := MoveBucket(func, L[i], tmp, newM, n, i, sh.spines[i], sh.buckets[i], m, sh', moved);
      MovedBucket(func, n, sh.buckets[i], i, m, moved, next);
      i := i + 1;
    }
    MovedAll(func, n, [], m, moved);
  }

  lemma HashInRange<K(!new)>(func: (K, int) -> int, x: K, n: int)
    requires HashOk(func) && n > 0
    ensures 0 <= func(x, n) < n
  {
  }

  lemma PrimesPositive()
    ensures forall p: nat :: p < |PRIMES| ==> PRIMES[p] > 0
  {
  }

  // ---------------------------------------------------------------- the table

  class HashTable<K(==, !new), V> {
    /** `func`. */
    const func: (K, int) -> int
    var M: int
    var N: int
    var prime: nat
    var L: array<Node?<K, V>>
    ghost var shape: Shape<K, V>
    /** The map the table stands for. */
    ghost var contents: map<K, V>

    ghost predicate Valid()
      reads this, L, shape.repr
    {
      && HashOk(func) && prime < |PRIMES| && M == PRIMES[prime] > 0
      && Holds(func, L, M, shape, contents)
    }

    constructor (hash: (K, int) -> int)
      requires HashOk(hash)
      ensures Valid() && contents == map[] && func == hash && fresh(L) && fresh(shape.repr)
    {
      func := hash;
      N, prime, M := 0, 0, PRIMES[0];
      contents := map[];
      var table;
      ghost var sh;
      table, sh := EmptyTable(hash, PRIMES[0]);
      L, shape := table, sh;
    }

    /** find. */
    method Find(x: K, hashValue: nat) returns (dp: Node?<K, V>, ghost at: nat)
      requires Valid() && hashValue == func(x, M)
      ensures hashValue < M == L.Length && M == |shape.spines| == |shape.buckets|
      ensures at <= |shape.spines[hashValue]| == |shape.buckets[hashValue]|
      ensures dp == if at < |shape.spines[hashValue]| then shape.spines[hashValue][at] else null
      ensures dp != null <==> x in contents
      ensures dp != null ==> dp in shape.repr && dp.key == x && dp.value == contents[x]
      ensures at < |shape.buckets[hashValue]| ==> shape.buckets[hashValue][at].0 == x
    {
      ghost var spine, items := shape.spines[hashValue], shape.buckets[hashValue];
      assert LinkedAt(L[hashValue], hashValue, spine, items);
      ItemsOf(L[hashValue], hashValue, spine, items);
      FindDecides(func, M, shape.buckets, contents, x);
      dp, at := FindIn(L[hashValue], spine, x);
    }

    /** A pointer to the data of x, if x is a key. */
    method Lookup(x: K) returns (dp: Node?<K, V>)
      requires Valid()
      ensures dp != null <==> x in contents
      ensures dp != null ==> dp in shape.repr && dp.key == x && dp.value == contents[x]
    {
      ghost var at;
      dp, at := Find(x, func(x, M));
    }

    /** insert: afterwards x is mapped to init, and the pointer returned is to its data. */
    method Insert(x: K, init: V) returns (dp: Node<K, V>)
      requires Valid()
      modifies this, L, shape.repr`value
      ensures Valid() && fresh(shape.repr - old(shape.repr)) && (L == old(L) || fresh(L))
      ensures contents == old(contents)[x := init]
      ensures N == old(N) + if x in old(contents) then 0 else 1
      ensures dp in shape.repr && dp.key == x && dp.value == init
    {
      hide Linked, LinkedAt, Represents, BucketFor, HashOk;
      HashInRange(func, x, M);
      var h := func(x, M);
      var found;
      ghost var at;
      found, at := Find(x, h);
      if found == null {
        dp := InsertNew(h, x, init);
      } else {
        dp := found;
        InsertOld(h, found, init, at);
      }
    }

    /** Line 299: the key is there, its data is overwritten in place. */
    method InsertOld(h: nat, dp: Node<K, V>, init: V, ghost at: nat)
      requires Valid() && h == func(dp.key, M) && h < M == |shape.spines| == |shape.buckets|
      requires at < |shape.spines[h]| == |shape.buckets[h]| && dp == shape.spines[h][at] && dp in shape.repr
      requires shape.buckets[h][at].0 == dp.key
      modifies `shape, `contents, dp`value
      ensures Valid() && shape.repr == old(shape.repr)
      ensures contents == old(contents)[dp.key := init] && dp.value == init
    {
      hide Linked, LinkedAt, Represents, BucketFor, HashOk;
      HoldsParts(func, L, M, shape, contents);
      HashInRange(func, dp.key, M);
      OverwriteInTable(func, M, shape.buckets, contents, dp.key, at, init);
      ghost var sh := Overwrite(L, h, dp, init, at, M, shape);
      shape, contents := sh, contents[dp.key := init];
    }

    /** Lines 269-294: more buckets, if the old ones have become too full and a prime is left. */
    method MaybeGrow() returns (grew: bool)
      requires Valid()
      modifies this
      ensures Valid() && contents == old(contents) && N == old(N)
      ensures grew <==> N > 2 * old(M) && old(prime) + 1 < |PRIMES|
      ensures prime == old(prime) + if grew then 1 else 0
      ensures if grew then fresh(L) && fresh(shape.repr) else L == old(L) && shape == old(shape)
    {
      grew := 2 * M < N && prime + 1 < |PRIMES|;
      if grew {
        hide Linked, LinkedAt, Represents, BucketFor, HashOk;
        PrimesPositive();
        var newM := PRIMES[prime + 1];
        var tmp;
        ghost var sh;
        tmp, sh := Rehash(func, L, M, newM, shape, contents);
        L, shape, M, prime := tmp, sh, newM, prime + 1;
      }
    }

    /** Lines 267-297: a new item at the head of its bucket; then its data is looked up again if the table grew. */
    method InsertNew(h: nat, x: K, init: V) returns (dp: Node<K, V>)
      requires Valid() && h == func(x, M) && x !in contents
      modifies this, L
      ensures Valid() && fresh(shape.repr - old(shape.repr)) && (L == old(L) || fresh(L))
      ensures contents == old(contents)[x := init] && N == old(N) + 1
      ensures dp in shape.repr && dp.key == x && dp.value == init
    {
      hide Linked, LinkedAt, Represents, BucketFor, HashOk;
      ghost var sh;
      sh, dp := Put(func, L, M, x, init, shape, contents);
      shape, contents := sh, contents[x := init];
      N := N + 1;
      var grew := MaybeGrow();
      if grew {
        dp := Lookup(x);
      }
    }

    /** remove. The source reads the first item of the bucket without a test; ok is whether there is one. */
    method Remove(x: K) returns (ok: bool)
      requires Valid()
      modifies this, L, shape.repr`next
      ensures Valid() && M == old(M) && N == old(N) && L == old(L) && shape.repr == old(shape.repr)
      ensures ok <==> SharesBucket(func, M, old(contents), x)
      ensures contents == old(contents) - {x}
    {
      var h := func(x, M);
      hide Linked, LinkedAt, Represents, BucketFor, HashOk, FirstAt, Without, SharesBucket;
      HoldsParts(func, L, M, shape, contents);
      HashInRange(func, x, M);
      ghost var before := shape;
      ghost var sh, at;
      ok, sh, at := Unlink(L, h, x, M, shape);
      NonEmptyDecides(func, M, before.buckets, contents, x);
      RemoveDecides(func, M, before.buckets, contents, x, at);
      shape, contents := sh, contents - {x};
    }
  }
}
