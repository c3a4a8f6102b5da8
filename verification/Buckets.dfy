/** The buckets of a chained hash table as sequences of items, and the map they stand for. */
module Buckets {
  /** `primes[]` of src/hash.cc; the thirteenth is smaller than the twelfth. */
  const PRIMES: seq<int> := [
    23, 47, 101, 211, 431, 863, 1733, 3467, 6949, 13901, 27803, 55609,
    11239, 22481, 44963, 89939, 199999, 400009, 800029, 1600061,
    16000627, 160006271]

  /** Growing means more buckets, but for one step. */
  lemma OneStepShrinks(p: nat)
    requires p + 1 < |PRIMES|
    ensures PRIMES[p + 1] < PRIMES[p] <==> p == 11
    ensures PRIMES[p] >= 23
  {
  }

  /** s without its element at a, if there is one. */
  function Without<T>(s: seq<T>, a: nat): (r: seq<T>)
    ensures forall x :: x in r ==> x in s
    ensures |r| == (if a < |s| then |s| - 1 else |s|)
    ensures forall i: nat :: i < |r| ==> r[i] == if i < a then s[i] else s[i + 1]
  {
    if a < |s| then s[..a] + s[a + 1..] else s
  }

  lemma WithoutIs<T>(s: seq<T>, a: nat)
    requires a < |s|
    ensures |Without(s, a)| == |s| - 1
    ensures forall j: nat :: j < |s| - 1 ==> Without(s, a)[j] == if j < a then s[j] else s[j + 1]
  {
  }

  lemma WithoutAt<T>(s: seq<T>, a: nat, j: nat)
    requires a < |s| && j < |s| - 1
    ensures |Without(s, a)| == |s| - 1 && Without(s, a)[j] == s[if j < a then j else j + 1]
  {
  }

  /** A hash function stays within the number of buckets. */
  ghost predicate HashOk<K(!new)>(func: (K, int) -> int) {
    forall x: K, m: int :: m > 0 ==> 0 <= func(x, m) < m
  }

  predicate HasKey<K(==), V>(b: seq<(K, V)>, x: K) {
    exists a: nat :: a < |b| && b[a].0 == x
  }

  /** at is where x first occurs as a key, or the length if it does not. */
  ghost predicate FirstAt<K, V>(b: seq<(K, V)>, at: nat, x: K) {
    && at <= |b| && (at < |b| ==> b[at].0 == x)
    && forall c: nat :: c < at ==> b[c].0 != x
  }

  /** b lists the entries of m that belong in bucket i of n, each once. */
  ghost predicate BucketFor<K(!new), V>(func: (K, int) -> int, n: int, i: int, b: seq<(K, V)>, m: map<K, V>) {
    && (forall a: nat :: a < |b| ==> func(b[a].0, n) == i && b[a].0 in m && m[b[a].0] == b[a].1)
    && (forall a: nat, c: nat :: a < c < |b| ==> b[a].0 != b[c].0)
    && (forall k: K :: k in m && func(k, n) == i ==> HasKey(b, k))
  }

  ghost predicate Represents<K(!new), V>(func: (K, int) -> int, n: int, buckets: seq<seq<(K, V)>>, m: map<K, V>) {
    && |buckets| == n
    && forall i: nat :: i < n ==> BucketFor(func, n, i, buckets[i], m)
  }

  lemma EmptyBuckets<K(!new), V>(func: (K, int) -> int, n: int, buckets: seq<seq<(K, V)>>)
    requires |buckets| == n && forall i: nat :: i < n ==> buckets[i] == []
    ensures Represents(func, n, buckets, map[])
  {
  }

  /** Searching one bucket decides membership in the map. */
  lemma FindDecides<K(!new), V>(func: (K, int) -> int, n: int, buckets: seq<seq<(K, V)>>, m: map<K, V>, x: K)
    requires Represents(func, n, buckets, m) && 0 <= func(x, n) < n
    ensures HasKey(buckets[func(x, n)], x) <==> x in m
    ensures forall a: nat :: a < |buckets[func(x, n)]| && buckets[func(x, n)][a].0 == x ==> m[x] == buckets[func(x, n)][a].1
  {
    var b := buckets[func(x, n)];
    assert BucketFor(func, n, func(x, n), b, m);
  }

  /** Some key of the map belongs in the bucket of x. */
  ghost predicate SharesBucket<K(!new), V>(func: (K, int) -> int, n: int, m: map<K, V>, x: K) {
    exists k: K :: k in m && func(k, n) == func(x, n)
  }

  /** The bucket of x has a first item exactly if a key of the map, x or another, belongs there. */
  lemma NonEmptyDecides<K(!new), V>(func: (K, int) -> int, n: int, buckets: seq<seq<(K, V)>>, m: map<K, V>, x: K)
    requires Represents(func, n, buckets, m) && 0 <= func(x, n) < n
    ensures buckets[func(x, n)] != [] <==> SharesBucket(func, n, m, x)
  {
    var b := buckets[func(x, n)];
    assert BucketFor(func, n, func(x, n), b, m);
    if b != [] {
      assert b[0].0 in m && func(b[0].0, n) == func(x, n);
    }
    if k: K :| k in m && func(k, n) == func(x, n) {
      assert HasKey(b, k);
    }
  }

  /** A key is in its own bucket; in an empty table nothing is. */
  lemma SharesOwn<K(!new), V>(func: (K, int) -> int, n: int, m: map<K, V>, x: K)
    ensures x in m ==> SharesBucket(func, n, m, x)
    ensures m == map[] ==> !SharesBucket(func, n, m, x)
  {
  }

  lemma ConsBucket<K(!new), V>(func: (K, int) -> int, n: int, i: int, b: seq<(K, V)>, m: map<K, V>, x: K, v: V)
    requires BucketFor(func, n, i, b, m) && x !in m && func(x, n) == i
    ensures BucketFor(func, n, i, [(x, v)] + b, m[x := v])
  {
    var b', m' := [(x, v)] + b, m[x := v];
    assert b'[0] == (x, v) && forall a: nat :: 0 < a < |b'| ==> b'[a] == b[a - 1];
    forall k: K | k in m' && func(k, n) == i
      ensures HasKey(b', k)
    {
      if k == x {
        assert b'[0].0 == x;
      } else {
        assert HasKey(b, k);
        var a: nat :| a < |b| && b[a].0 == k;
        assert b'[a + 1].0 == k;
      }
    }
  }

  lemma OtherBucket<K(!new), V>(func: (K, int) -> int, n: int, i: int, b: seq<(K, V)>, m: map<K, V>, x: K, v: V)
    requires BucketFor(func, n, i, b, m) && func(x, n) != i
    ensures BucketFor(func, n, i, b, m[x := v])
    ensures BucketFor(func, n, i, b, m - {x})
  {
  }

  lemma OverwriteBucket<K(!new), V>(func: (K, int) -> int, n: int, i: int, b: seq<(K, V)>, m: map<K, V>, a: nat, v: V)
    requires BucketFor(func, n, i, b, m) && a < |b|
    ensures BucketFor(func, n, i, b[a := (b[a].0, v)], m[b[a].0 := v])
  {
    var x := b[a].0;
    var b', m' := b[a := (x, v)], m[x := v];
    assert forall c: nat :: c < |b| ==> b'[c].0 == b[c].0;
    forall k: K | k in m' && func(k, n) == i
      ensures HasKey(b', k)
    {
      assert k in m && HasKey(b, k);
      var c: nat :| c < |b| && b[c].0 == k;
      assert b'[c].0 == k;
    }
  }

  lemma RemoveFromBucket<K(!new), V>(func: (K, int) -> int, n: int, i: int, b: seq<(K, V)>, m: map<K, V>, a: nat)
    requires BucketFor(func, n, i, b, m) && a < |b|
    ensures BucketFor(func, n, i, Without(b, a), m - {b[a].0})
  {
    var x := b[a].0;
    var b', m' := Without(b, a), m - {x};
    hide Without;
    WithoutIs(b, a);
    forall c: nat | c < |b'|
      ensures b'[c] == b[if c < a then c else c + 1] && b'[c].0 != x
    {
      WithoutAt(b, a, c);
    }
    forall k: K | k in m' && func(k, n) == i
      ensures HasKey(b', k)
    {
      assert HasKey(b, k);
      var c: nat :| c < |b| && b[c].0 == k;
      if c < a {
        assert b'[c].0 == k;
      } else {
        assert b'[c - 1].0 == k;
      }
    }
  }

  // ---------------------------------------------------------------- the whole table

  lemma ConsInTable<K(!new), V>(func: (K, int) -> int, n: int, buckets: seq<seq<(K, V)>>, m: map<K, V>, x: K, v: V)
    requires Represents(func, n, buckets, m) && x !in m && 0 <= func(x, n) < n
    ensures var h := func(x, n); Represents(func, n, buckets[h := [(x, v)] + buckets[h]], m[x := v])
  {
    hide BucketFor;
    var h := func(x, n);
    var updated := buckets[h := [(x, v)] + buckets[h]];
    forall i: nat | i < n
      ensures BucketFor(func, n, i, updated[i], m[x := v])
    {
      if i == h {
        ConsBucket(func, n, i, buckets[i], m, x, v);
      } else {
        OtherBucket(func, n, i, buckets[i], m, x, v);
      }
    }
  }

  lemma OverwriteInTable<K(!new), V>(func: (K, int) -> int, n: int, buckets: seq<seq<(K, V)>>, m: map<K, V>,
                                     x: K, a: nat, v: V)
    requires Represents(func, n, buckets, m) && 0 <= func(x, n) < n
    requires a < |buckets[func(x, n)]| && buckets[func(x, n)][a].0 == x
    ensures var h := func(x, n); Represents(func, n, buckets[h := buckets[h][a := (x, v)]], m[x := v])
  {
    hide BucketFor;
    var h := func(x, n);
    var updated := buckets[h := buckets[h][a := (x, v)]];
    forall i: nat | i < n
      ensures BucketFor(func, n, i, updated[i], m[x := v])
    {
      if i == h {
        OverwriteBucket(func, n, i, buckets[i], m, a, v);
      } else {
        OtherBucket(func, n, i, buckets[i], m, x, v);
      }
    }
  }

  lemma RemoveInTable<K(!new), V>(func: (K, int) -> int, n: int, buckets: seq<seq<(K, V)>>, m: map<K, V>, x: K, a: nat)
    requires Represents(func, n, buckets, m) && 0 <= func(x, n) < n
    requires a < |buckets[func(x, n)]| && buckets[func(x, n)][a].0 == x
    ensures var h := func(x, n);
            Represents(func, n, buckets[h := Without(buckets[h], a)], m - {x})
  {
    hide BucketFor;
    var h := func(x, n);
    var updated := buckets[h := Without(buckets[h], a)];
    forall i: nat | i < n
      ensures BucketFor(func, n, i, updated[i], m - {x})
    {
      if i == h {
        RemoveFromBucket(func, n, i, buckets[i], m, a);
      } else {
        OtherBucket(func, n, i, buckets[i], m, x, buckets[h][a].1);
      }
    }
  }

  /** Taking the first item with key x out of its bucket, or nothing if there is none, removes x from the map. */
  lemma RemoveDecides<K(!new), V>(func: (K, int) -> int, n: int, buckets: seq<seq<(K, V)>>, m: map<K, V>, x: K, a: nat)
    requires Represents(func, n, buckets, m) && 0 <= func(x, n) < n
    requires FirstAt(buckets[func(x, n)], a, x)
    ensures var h := func(x, n);
            Represents(func, n, buckets[h := Without(buckets[h], a)], m - {x})
  {
    var h := func(x, n);
    if a < |buckets[h]| {
      RemoveInTable(func, n, buckets, m, x, a);
    } else {
      FindDecides(func, n, buckets, m, x);
      assert m - {x} == m && buckets[h := buckets[h]] == buckets;
    }
  }

  // ---------------------------------------------------------------- moving to another number of buckets

  /** m' holds the entries of m in the buckets before i, and in the first a items of bucket i, which is b. */
  ghost predicate Moved<K(!new), V>(func: (K, int) -> int, n: int, b: seq<(K, V)>, i: int, a: nat,
                                    m: map<K, V>, m': map<K, V>)
    requires a <= |b|
  {
    && (forall k: K :: k in m' <==> k in m && (func(k, n) < i || (func(k, n) == i && HasKey(b[..a], k))))
    && (forall k: K :: k in m' ==> k in m && m'[k] == m[k])
  }

  lemma MovedNothing<K(!new), V>(func: (K, int) -> int, n: int, b: seq<(K, V)>, m: map<K, V>)
    requires HashOk(func) && n > 0
    ensures Moved(func, n, b, 0, 0, m, map[])
  {
    assert forall k: K :: func(k, n) >= 0;
  }

  /** The next item's key has not been moved, and moving it keeps the account. */
  lemma MovedItem<K(!new), V>(func: (K, int) -> int, n: int, b: seq<(K, V)>, i: int, a: nat, m: map<K, V>, m': map<K, V>)
    requires BucketFor(func, n, i, b, m) && a < |b| && Moved(func, n, b, i, a, m, m')
    ensures b[a].0 !in m' && Moved(func, n, b, i, a + 1, m, m'[b[a].0 := b[a].1])
  {
    var x := b[a].0;
    assert forall c: nat :: c < a ==> b[..a][c] == b[c];
    assert !HasKey(b[..a], x);
    forall k: K
      ensures HasKey(b[..a + 1], k) <==> HasKey(b[..a], k) || k == x
    {
      assert b[..a + 1][a] == b[a];
      if HasKey(b[..a], k) {
        var c: nat :| c < a && b[..a][c].0 == k;
        assert b[..a + 1][c].0 == k;
      }
      if HasKey(b[..a + 1], k) && k != x {
        var c: nat :| c < a + 1 && b[..a + 1][c].0 == k;
        assert b[..a][c].0 == k;
      }
    }
  }

  lemma MovedBucket<K(!new), V>(func: (K, int) -> int, n: int, b: seq<(K, V)>, i: int, m: map<K, V>, m': map<K, V>,
                                next: seq<(K, V)>)
    requires BucketFor(func, n, i, b, m) && Moved(func, n, b, i, |b|, m, m')
    ensures Moved(func, n, next, i + 1, 0, m, m')
  {
    assert b[..|b|] == b;
    assert forall k: K :: !HasKey(next[..0], k);
  }

  lemma MovedAll<K(!new), V>(func: (K, int) -> int, n: int, b: seq<(K, V)>, m: map<K, V>, m': map<K, V>)
    requires HashOk(func) && n > 0 && Moved(func, n, b, n, 0, m, m')
    ensures m' == m
  {
    assert forall k: K :: func(k, n) < n;
  }
}
