/** The in-memory LRU cache: bounded, counting evictions, with invalidation by path and recovery
    from a poisoned mutex. */
module LruCache {
  import opened Text

  datatype CacheKey = CacheKey(path: string, modified: nat, mode: nat)

  // ----- The LRU list, most recently used first -----

  type Entries<V> = seq<(CacheKey, V)>

  function Keys<V>(es: Entries<V>): (ks: seq<CacheKey>)
    ensures |ks| == |es|
    ensures forall i :: 0 <= i < |es| ==> ks[i] == es[i].0
  {
    seq(|es|, i requires 0 <= i < |es| => es[i].0)
  }

  function Lookup<V>(es: Entries<V>, k: CacheKey): Option<V> {
    if es == [] then None else if es[0].0 == k then Some(es[0].1) else Lookup(es[1..], k)
  }

  function Remove<V>(es: Entries<V>, k: CacheKey): (r: Entries<V>)
    ensures |r| <= |es|
  {
    if es == [] then [] else if es[0].0 == k then Remove(es[1..], k) else [es[0]] + Remove(es[1..], k)
  }

  /** `LruCache::push`: the entry replaced under the same key, or the one evicted to make room. */
  function Push<V>(es: Entries<V>, capacity: nat, k: CacheKey, v: V): (r: (Entries<V>, Option<(CacheKey, V)>))
    requires capacity >= 1
  {
    var previous := Lookup(es, k);
    if previous.Some? then ([(k, v)] + Remove(es, k), Some((k, previous.value)))
    else if |es| >= capacity then ([(k, v)] + es[..|es| - 1], Some(es[|es| - 1]))
    else ([(k, v)] + es, None)
  }

  /** `LruCache::get`: a hit becomes the most recently used entry. */
  function Touch<V>(es: Entries<V>, k: CacheKey): Entries<V> {
    var hit := Lookup(es, k);
    if hit.Some? then [(k, hit.value)] + Remove(es, k) else es
  }

  /** The entries of other files. */
  function WithoutPath<V>(es: Entries<V>, path: string): (r: Entries<V>)
    ensures |r| <= |es|
  {
    if es == [] then []
    else if es[0].0.path == path then WithoutPath(es[1..], path)
    else [es[0]] + WithoutPath(es[1..], path)
  }

  // ----- The cache as a state machine -----

  datatype Cache<V> = Cache(entries: Entries<V>, evictions: nat, poisoned: bool)

  datatype Op<V> = Put(key: CacheKey, value: V) | Get(key: CacheKey) | Invalidate(path: string) | Poison

  /** `lock_or_recover`: the poison flag is never cleared, so every later call starts over empty. */
  function Locked<V>(c: Cache<V>): Cache<V> {
    if c.poisoned then c.(entries := []) else c
  }

  function Apply<V>(capacity: nat, c: Cache<V>, op: Op<V>): Cache<V>
    requires capacity >= 1
  {
    var g := Locked(c);
    match op
    case Put(k, v) =>
      var (es, out) := Push(g.entries, capacity, k, v);
      g.(entries := es, evictions := if out.Some? && out.value.0 != k then g.evictions + 1 else g.evictions)
    case Get(k) => g.(entries := Touch(g.entries, k))
    case Invalidate(path) => g.(entries := WithoutPath(g.entries, path))
    case Poison => c.(poisoned := true)
  }

  /** What a `get` returns in state `c`. */
  function Hit<V>(c: Cache<V>, k: CacheKey): Option<V> {
    Lookup(Locked(c).entries, k)
  }

  /** The state after a sequence of operations on a new cache. */
  function After<V>(capacity: nat, ops: seq<Op<V>>): Cache<V>
    requires capacity >= 1
  {
    if ops == [] then Cache([], 0, false)
    else Apply(capacity, After(capacity, ops[..|ops| - 1]), ops[|ops| - 1])
  }

  // ----- Facts about the list -----

  ghost predicate Distinct(ks: seq<CacheKey>) {
    forall i, j :: 0 <= i < j < |ks| ==> ks[i] != ks[j]
  }

  function Without(ks: seq<CacheKey>, k: CacheKey): (r: seq<CacheKey>)
    ensures |r| <= |ks|
  {
    if ks == [] then [] else if ks[0] == k then Without(ks[1..], k) else [ks[0]] + Without(ks[1..], k)
  }

  function DropPath(ks: seq<CacheKey>, path: string): seq<CacheKey> {
    if ks == [] then []
    else if ks[0].path == path then DropPath(ks[1..], path)
    else [ks[0]] + DropPath(ks[1..], path)
  }

  lemma {:induction false} WithoutFacts(ks: seq<CacheKey>, k: CacheKey)
    requires Distinct(ks)
    ensures Distinct(Without(ks, k))
    ensures forall x :: x in Without(ks, k) <==> x in ks && x != k
    ensures k !in ks ==> Without(ks, k) == ks
    ensures k in ks ==> |Without(ks, k)| == |ks| - 1
  {
    if ks != [] {
      var tail := ks[1..];
      WithoutFacts(tail, k);
      HeadNotInTail(ks);
      var r := Without(tail, k);
      if ks[0] != k {
        assert Without(ks, k) == [ks[0]] + r;
        assert ks[0] !in r;
        ConsDistinct(ks[0], r);
      }
    }
  }

  lemma HeadNotInTail(ks: seq<CacheKey>)
    requires Distinct(ks) && ks != []
    ensures ks[0] !in ks[1..] && Distinct(ks[1..]) && ks == [ks[0]] + ks[1..]
  {
  }

  lemma ConsDistinct(k: CacheKey, ks: seq<CacheKey>)
    requires Distinct(ks) && k !in ks
    ensures Distinct([k] + ks)
  {
  }

  lemma {:induction false} DropPathFacts(ks: seq<CacheKey>, path: string)
    requires Distinct(ks)
    ensures Distinct(DropPath(ks, path))
    ensures forall x :: x in DropPath(ks, path) <==> x in ks && x.path != path
  {
    if ks != [] {
      DropPathFacts(ks[1..], path);
      var r := DropPath(ks[1..], path);
      assert forall i :: 0 <= i < |r| ==> r[i] in ks[1..];
    }
  }

  lemma KeysCons<V>(e: (CacheKey, V), es: Entries<V>)
    ensures Keys([e] + es) == [e.0] + Keys(es)
  {
  }

  lemma {:induction false} KeysRemove<V>(es: Entries<V>, k: CacheKey)
    ensures Keys(Remove(es, k)) == Without(Keys(es), k)
  {
    if es != [] {
      KeysRemove(es[1..], k);
      assert Keys(es)[1..] == Keys(es[1..]);
      KeysCons(es[0], Remove(es[1..], k));
    }
  }

  lemma {:induction false} KeysWithoutPath<V>(es: Entries<V>, path: string)
    ensures Keys(WithoutPath(es, path)) == DropPath(Keys(es), path)
  {
    if es != [] {
      KeysWithoutPath(es[1..], path);
      assert Keys(es)[1..] == Keys(es[1..]);
      KeysCons(es[0], WithoutPath(es[1..], path));
    }
  }

  lemma {:induction false} LookupIffKey<V>(es: Entries<V>, k: CacheKey)
    ensures Lookup(es, k).Some? <==> k in Keys(es)
  {
    if es != [] {
      LookupIffKey(es[1..], k);
      assert Keys(es) == [es[0].0] + Keys(es[1..]);
    }
  }

  lemma {:induction false} LookupRemove<V>(es: Entries<V>, k: CacheKey, x: CacheKey)
    ensures Lookup(Remove(es, k), x) == if x == k then None else Lookup(es, x)
  {
    if es != [] {
      LookupRemove(es[1..], k, x);
    }
  }

  lemma {:induction false} LookupWithoutPath<V>(es: Entries<V>, path: string, x: CacheKey)
    ensures Lookup(WithoutPath(es, path), x) == if x.path == path then None else Lookup(es, x)
  {
    if es != [] {
      LookupWithoutPath(es[1..], path, x);
    }
  }

  lemma {:induction false} LookupPrefix<V>(es: Entries<V>, n: nat, x: CacheKey)
    requires n <= |es|
    ensures Lookup(es[..n], x).Some? ==> Lookup(es[..n], x) == Lookup(es, x)
  {
    if n > 0 {
      assert es[..n][1..] == es[1..][..n - 1];
      LookupPrefix(es[1..], n - 1, x);
    }
  }

  // ----- Bounds and freshness over whole runs -----

  /** The value a `get` of `k` may return after `ops`: the last one put under `k`, unless its file was
      invalidated since; nothing at all once the mutex has been poisoned. */
  function LastLive<V>(ops: seq<Op<V>>, k: CacheKey): Option<V> {
    if ops == [] then None
    else
      var before := ops[..|ops| - 1];
      match ops[|ops| - 1]
      case Put(key, value) => if HasPoison(before) then None else if key == k then Some(value) else LastLive(before, k)
      case Get(_) => LastLive(before, k)
      case Invalidate(path) => if k.path == path then None else LastLive(before, k)
      case Poison => None
  }

  predicate HasPoison<V>(ops: seq<Op<V>>) {
    exists i :: 0 <= i < |ops| && ops[i].Poison?
  }

  ghost predicate Sound<V>(capacity: nat, ops: seq<Op<V>>, c: Cache<V>) {
    && |c.entries| <= capacity && Distinct(Keys(c.entries))
    && c.poisoned == HasPoison(ops)
    && (!c.poisoned ==> forall k :: Lookup(c.entries, k).Some? ==> LastLive(ops, k) == Lookup(c.entries, k))
  }

  lemma HasPoisonSnoc<V>(ops: seq<Op<V>>)
    requires ops != []
    ensures HasPoison(ops) <==> HasPoison(ops[..|ops| - 1]) || ops[|ops| - 1].Poison?
  {
    var before := ops[..|ops| - 1];
    if i :| 0 <= i < |ops| && ops[i].Poison? {
      assert i < |before| ==> before[i].Poison?;
    }
    if i :| 0 <= i < |before| && before[i].Poison? {
      assert ops[i].Poison?;
    }
  }

  lemma MoveToFront<V>(es: Entries<V>, k: CacheKey, v: V)
    requires Distinct(Keys(es))
    ensures var r := [(k, v)] + Remove(es, k);
      && Distinct(Keys(r))
      && |r| == |es| + (if Lookup(es, k).None? then 1 else 0)
      && (forall x :: Lookup(r, x) == if x == k then Some(v) else Lookup(es, x))
  {
    hide Remove, Without;
    var rest := Remove(es, k);
    var r := [(k, v)] + rest;
    KeysRemove(es, k);
    KeysCons((k, v), rest);
    WithoutFacts(Keys(es), k);
    LookupIffKey(es, k);
    ConsDistinct(k, Keys(rest));
    forall x ensures Lookup(r, x) == if x == k then Some(v) else Lookup(es, x) {
      LookupRemove(es, k, x);
      assert r[1..] == rest;
    }
  }

  lemma PushFacts<V>(es: Entries<V>, capacity: nat, k: CacheKey, v: V)
    requires capacity >= 1 && Distinct(Keys(es)) && |es| <= capacity
    ensures var (r, out) := Push(es, capacity, k, v);
      && |r| <= capacity && Distinct(Keys(r))
      && (forall x :: Lookup(r, x).Some? ==> Lookup(r, x) == if x == k then Some(v) else Lookup(es, x))
      && |r| + (if out.Some? && out.value.0 != k then 1 else 0) == |es| + (if Lookup(es, k).None? then 1 else 0)
  {
    hide Remove, Lookup;
    LookupIffKey(es, k);
    if Lookup(es, k).Some? {
      MoveToFront(es, k, v);
    } else if |es| >= capacity {
      PushNew(es, |es| - 1, k, v);
      assert Keys(es)[|es| - 1] in Keys(es);
    } else {
      PushNew(es, |es|, k, v);
      assert es[..|es|] == es;
    }
  }

  /** A new key in front of the first `n` entries. */
  lemma PushNew<V>(es: Entries<V>, n: nat, k: CacheKey, v: V)
    requires n <= |es| && Distinct(Keys(es)) && Lookup(es, k).None?
    ensures var r := [(k, v)] + es[..n];
      && Distinct(Keys(r))
      && (forall x :: Lookup(r, x).Some? ==> Lookup(r, x) == if x == k then Some(v) else Lookup(es, x))
  {
    var kept := es[..n];
    var r := [(k, v)] + kept;
    LookupIffKey(es, k);
    KeysCons((k, v), kept);
    assert Keys(kept) == Keys(es)[..n];
    ConsDistinct(k, Keys(kept));
    forall x ensures Lookup(r, x).Some? ==> Lookup(r, x) == if x == k then Some(v) else Lookup(es, x) {
      assert r[1..] == kept;
      LookupPrefix(es, n, x);
    }
  }

  lemma TouchFacts<V>(es: Entries<V>, k: CacheKey)
    requires Distinct(Keys(es))
    ensures var r := Touch(es, k);
      |r| == |es| && Distinct(Keys(r)) && forall x :: Lookup(r, x) == Lookup(es, x)
  {
    var hit := Lookup(es, k);
    if hit.Some? {
      MoveToFront(es, k, hit.value);
    }
  }

  lemma {:induction false} RunIsSound<V>(capacity: nat, ops: seq<Op<V>>)
    requires capacity >= 1
    ensures Sound(capacity, ops, After(capacity, ops))
  {
    hide Push, Touch, WithoutPath, HasPoison;
    if ops == [] {
      assert !HasPoison(ops) by { NoPoisonInEmpty(ops); }
    } else {
      var before, op := ops[..|ops| - 1], ops[|ops| - 1];
      RunIsSound(capacity, before);
      HasPoisonSnoc(ops);
      var g := Locked(After(capacity, before));
      match op
      case Put(k, v) => PushFacts(g.entries, capacity, k, v);
      case Get(k) => TouchFacts(g.entries, k);
      case Invalidate(path) =>
        KeysWithoutPath(g.entries, path);
        DropPathFacts(Keys(g.entries), path);
        forall x { LookupWithoutPath(g.entries, path, x); }
      case Poison =>
    }
  }

  lemma NoPoisonInEmpty<V>(ops: seq<Op<V>>)
    requires ops == []
    ensures !HasPoison(ops)
  {
  }

  /** A hit is never stale: it is the last value put under that key since its file was last
      invalidated; and the cache never holds more than `capacity` entries or one key twice. */
  lemma HitIsLastPut<V>(capacity: nat, ops: seq<Op<V>>, k: CacheKey)
    requires capacity >= 1
    ensures var c := After(capacity, ops);
      && |c.entries| <= capacity && Distinct(Keys(c.entries))
      && (Hit(c, k).Some? ==> Hit(c, k) == LastLive(ops, k))
  {
    hide After, LastLive;
    RunIsSound(capacity, ops);
  }

  /** Once the mutex is poisoned, every later `get` misses: recovery empties the cache on each call. */
  lemma PoisonedNeverHits<V>(capacity: nat, ops: seq<Op<V>>, k: CacheKey)
    requires capacity >= 1 && HasPoison(ops)
    ensures Hit(After(capacity, ops), k) == None
  {
    RunIsSound(capacity, ops);
  }

  /** The exact condition under which the cache works: a `get` right after a `put` returns the value put
      if and only if the mutex was never poisoned, and nothing otherwise. */
  lemma PutHitsIffNotPoisoned<V>(capacity: nat, ops: seq<Op<V>>, k: CacheKey, v: V)
    requires capacity >= 1
    ensures Hit(After(capacity, ops + [Op.Put(k, v)]), k) == if HasPoison(ops) then None else Some(v)
  {
    hide HasPoison, Push;
    var all := ops + [Op.Put(k, v)];
    assert all[..|all| - 1] == ops && all[|all| - 1] == Op.Put(k, v);
    RunIsSound(capacity, ops);
    PushHits(Locked(After(capacity, ops)).entries, capacity, k, v);
  }

  lemma PushHits<V>(es: Entries<V>, capacity: nat, k: CacheKey, v: V)
    requires capacity >= 1
    ensures var r := Push(es, capacity, k, v).0; r != [] && r[0] == (k, v) && Lookup(r, k) == Some(v)
  {
    hide Remove;
  }

  // ----- A hit guarantee that survives invalidation -----

  /** The other keys touched since the last touch of `k`. */
  function OthersSince<V>(capacity: nat, ops: seq<Op<V>>, k: CacheKey): set<CacheKey>
    requires capacity >= 1
  {
    if ops == [] then {}
    else
      var before := ops[..|ops| - 1];
      var others := OthersSince(capacity, before, k);
      match ops[|ops| - 1]
      case Put(x, _) => if x == k then {} else others + {x}
      case Get(x) =>
        if Hit(After(capacity, before), x).None? then others else if x == k then {} else others + {x}
      case _ => others
  }

  /** `k` is in the list, and every key in front of it is one of `others`. */
  predicate Behind(ks: seq<CacheKey>, k: CacheKey, others: set<CacheKey>) {
    ks != [] && (ks[0] == k || (ks[0] in others && Behind(ks[1..], k, others)))
  }

  lemma {:induction false} BehindIsIn(ks: seq<CacheKey>, k: CacheKey, others: set<CacheKey>)
    requires Behind(ks, k, others)
    ensures k in ks
  {
    if ks[0] != k {
      BehindIsIn(ks[1..], k, others);
    }
  }

  lemma {:induction false} BehindMore(ks: seq<CacheKey>, k: CacheKey, others: set<CacheKey>, more: set<CacheKey>)
    requires Behind(ks, k, others)
    requires forall x :: x in others && x in ks ==> x in more
    ensures Behind(ks, k, more)
  {
    if ks[0] != k {
      BehindMore(ks[1..], k, others, more);
    }
  }

  lemma {:induction false} BehindWithout(ks: seq<CacheKey>, k: CacheKey, others: set<CacheKey>, x: CacheKey)
    requires Behind(ks, k, others) && x != k
    ensures Behind(Without(ks, x), k, others)
  {
    if ks[0] != k {
      BehindWithout(ks[1..], k, others, x);
      if ks[0] != x {
        assert Without(ks, x)[1..] == Without(ks[1..], x);
      }
    }
  }

  lemma {:induction false} BehindDropPath(ks: seq<CacheKey>, k: CacheKey, others: set<CacheKey>, path: string)
    requires Behind(ks, k, others) && k.path != path
    ensures Behind(DropPath(ks, path), k, others)
  {
    if ks[0] != k {
      BehindDropPath(ks[1..], k, others, path);
      if ks[0].path != path {
        assert DropPath(ks, path)[1..] == DropPath(ks[1..], path);
      }
    }
  }

  /** Fewer than `n` others: `k` is among the first `n`. */
  lemma {:induction false} BehindPrefix(ks: seq<CacheKey>, k: CacheKey, others: set<CacheKey>, n: nat)
    requires Distinct(ks) && Behind(ks, k, others) && |others| < n
    ensures Behind(if n < |ks| then ks[..n] else ks, k, others)
  {
    if ks[0] != k {
      var x, tail := ks[0], ks[1..];
      HeadNotInTail(ks);
      BehindMore(tail, k, others, others - {x});
      BehindPrefix(tail, k, others - {x}, n - 1);
      var kept := if n - 1 < |tail| then tail[..n - 1] else tail;
      BehindMore(kept, k, others - {x}, others);
      var all := if n < |ks| then ks[..n] else ks;
      assert all[1..] == kept;
    }
  }

  lemma BehindCons(x: CacheKey, ks: seq<CacheKey>, k: CacheKey, others: set<CacheKey>)
    requires x != k && Behind(ks, k, others)
    ensures Behind([x] + ks, k, others + {x})
  {
    BehindMore(ks, k, others, others + {x});
    assert ([x] + ks)[1..] == ks;
  }

  /** A push of another key leaves `k` in the list as long as there are fewer than `capacity` others. */
  lemma PushKeepsBehind<V>(
      es: Entries<V>, capacity: nat, x: CacheKey, v: V, k: CacheKey, others: set<CacheKey>)
    requires capacity >= 1 && Distinct(Keys(es)) && |es| <= capacity && x != k
    requires Behind(Keys(es), k, others) && |others + {x}| < capacity
    ensures Behind(Keys(Push(es, capacity, x, v).0), k, others + {x})
  {
    hide Behind, Remove, Lookup, Without;
    var ks := Keys(es);
    LookupIffKey(es, x);
    if Lookup(es, x).Some? {
      KeysRemove(es, x);
      KeysCons((x, v), Remove(es, x));
      BehindWithout(ks, k, others, x);
      BehindCons(x, Without(ks, x), k, others);
    } else if |es| >= capacity {
      var n := |es| - 1;
      BehindMore(ks, k, others, others - {x});
      assert others + {x} == (others - {x}) + {x};
      BehindPrefix(ks, k, others - {x}, n);
      assert Keys(es[..n]) == ks[..n];
      KeysCons((x, v), es[..n]);
      BehindCons(x, ks[..n], k, others - {x});
    } else {
      KeysCons((x, v), es);
      BehindCons(x, ks, k, others);
    }
  }

  lemma TouchKeepsBehind<V>(es: Entries<V>, x: CacheKey, k: CacheKey, others: set<CacheKey>)
    requires x != k && Behind(Keys(es), k, others) && Lookup(es, x).Some?
    ensures Behind(Keys(Touch(es, x)), k, others + {x})
  {
    hide Behind, Remove, Lookup, Without;
    TouchHit(es, x);
    KeysRemove(es, x);
    KeysCons((x, Lookup(es, x).value), Remove(es, x));
    BehindWithout(Keys(es), k, others, x);
    BehindCons(x, Without(Keys(es), x), k, others);
  }

  lemma FrontIsBehind(ks: seq<CacheKey>, k: CacheKey, others: set<CacheKey>)
    requires ks != [] && ks[0] == k
    ensures Behind(ks, k, others)
  {
  }

  /** While fewer than `capacity` others have been touched since, only others stand in front of a live key. */
  lemma {:induction false} LiveIsBehind<V>(capacity: nat, ops: seq<Op<V>>, k: CacheKey)
    requires capacity >= 1 && !HasPoison(ops)
    requires LastLive(ops, k).Some? && |OthersSince(capacity, ops, k)| < capacity
    ensures Behind(Keys(After(capacity, ops).entries), k, OthersSince(capacity, ops, k))
  {
    hide Push, Touch, WithoutPath, HasPoison, Behind, Lookup, Keys, DropPath;
    var before, op := ops[..|ops| - 1], ops[|ops| - 1];
    HasPoisonSnoc(ops);
    RunIsSound(capacity, before);
    var es, others := After(capacity, before).entries, OthersSince(capacity, before, k);
    if (op.Put? || (op.Get? && Lookup(es, op.key).Some?)) && op.key == k {
      MovedToFront(es, capacity, op);
      FrontIsBehind(Keys(After(capacity, ops).entries), k, {});
    } else {
      assert others <= OthersSince(capacity, ops, k);
      SubsetSize(others, OthersSince(capacity, ops, k));
      LiveIsBehind(capacity, before, k);
      match op
      case Put(x, v) => PushKeepsBehind(es, capacity, x, v, k, others);
      case Get(x) =>
        if Lookup(es, x).Some? {
          TouchKeepsBehind(es, x, k, others);
        } else {
          TouchMiss(es, x);
        }
      case Invalidate(path) =>
        KeysWithoutPath(es, path);
        BehindDropPath(Keys(es), k, others, path);
      case Poison => assert false;
    }
  }

  /** A put, or a get that hits, moves its key to the front. */
  lemma MovedToFront<V>(es: Entries<V>, capacity: nat, op: Op<V>)
    requires capacity >= 1 && (op.Put? || (op.Get? && Lookup(es, op.key).Some?))
    ensures var r := if op.Put? then Push(es, capacity, op.key, op.value).0 else Touch(es, op.key);
      r != [] && Keys(r)[0] == op.key
  {
    hide Lookup, Remove;
  }

  lemma SubsetSize<T>(a: set<T>, b: set<T>)
    requires a <= b
    ensures |a| <= |b|
  {
    assert b == a + (b - a);
  }

  /** A live value is found again, whatever was invalidated: without poisoning, a `get` returns the last
      live value as long as fewer than `capacity` other keys were touched since its key was. */
  lemma LiveValueHits<V>(capacity: nat, ops: seq<Op<V>>, k: CacheKey)
    requires capacity >= 1 && !HasPoison(ops)
    requires LastLive(ops, k).Some? && |OthersSince(capacity, ops, k)| < capacity
    ensures Hit(After(capacity, ops), k) == LastLive(ops, k)
  {
    hide Behind, Keys, LastLive, HasPoison, Lookup, OthersSince;
    var es := After(capacity, ops).entries;
    LiveIsBehind(capacity, ops, k);
    BehindIsIn(Keys(es), k, OthersSince(capacity, ops, k));
    LookupIffKey(es, k);
    RunIsSound(capacity, ops);
  }

  // ----- Conservation -----

  /** Puts of keys that were not resident at the time. */
  function AbsentPuts<V>(capacity: nat, ops: seq<Op<V>>): nat
    requires capacity >= 1
  {
    if ops == [] then 0
    else
      var before, op := ops[..|ops| - 1], ops[|ops| - 1];
      AbsentPuts(capacity, before) +
      (if op.Put? && Hit(After(capacity, before), op.key).None? then 1 else 0)
  }

  /** Entries removed by invalidation. */
  function Invalidated<V>(capacity: nat, ops: seq<Op<V>>): nat
    requires capacity >= 1
  {
    if ops == [] then 0
    else
      var before, op := ops[..|ops| - 1], ops[|ops| - 1];
      var es := Locked(After(capacity, before)).entries;
      Invalidated(capacity, before) + (if op.Invalidate? then |es| - |WithoutPath(es, op.path)| else 0)
  }

  /** Without poisoning, every entry ever inserted is resident, evicted or invalidated. */
  lemma {:induction false} EntriesConserved<V>(capacity: nat, ops: seq<Op<V>>)
    requires capacity >= 1 && !HasPoison(ops)
    ensures AbsentPuts(capacity, ops) ==
      |After(capacity, ops).entries| + After(capacity, ops).evictions + Invalidated(capacity, ops)
  {
    hide Push, Touch, WithoutPath, HasPoison;
    if ops != [] {
      var before, op := ops[..|ops| - 1], ops[|ops| - 1];
      HasPoisonSnoc(ops);
      EntriesConserved(capacity, before);
      RunIsSound(capacity, before);
      var es := After(capacity, before).entries;
      match op
      case Put(k, v) => PushFacts(es, capacity, k, v);
      case Get(k) => TouchFacts(es, k);
      case Invalidate(path) =>
      case Poison =>
    }
  }

  // ----- Recency -----

  /** The distinct keys of a trace, most recently touched first. */
  function Recent(trace: seq<CacheKey>): seq<CacheKey> {
    if trace == [] then []
    else [trace[|trace| - 1]] + Without(Recent(trace[..|trace| - 1]), trace[|trace| - 1])
  }

  /** The keys touched by a run: every put, and every get that hits. */
  function Touched<V>(capacity: nat, ops: seq<Op<V>>): seq<CacheKey>
    requires capacity >= 1
  {
    if ops == [] then []
    else
      var before, op := ops[..|ops| - 1], ops[|ops| - 1];
      Touched(capacity, before) +
      (match op
       case Put(k, _) => [k]
       case Get(k) => if Hit(After(capacity, before), k).Some? then [k] else []
       case _ => [])
  }

  function Take<T>(s: seq<T>, n: nat): seq<T> {
    if |s| <= n then s else s[..n]
  }

  lemma TakeAll(ks: seq<CacheKey>, n: nat)
    requires |ks| <= n
    ensures Take(ks, n) == ks
  {
  }

  predicate PutsAndGets<V>(ops: seq<Op<V>>) {
    forall i :: 0 <= i < |ops| ==> ops[i].Put? || ops[i].Get?
  }

  lemma {:induction false} RecentFacts(trace: seq<CacheKey>)
    ensures Distinct(Recent(trace))
    ensures forall x :: x in Recent(trace) <==> x in trace
  {
    hide Without;
    if trace != [] {
      var k, before := trace[|trace| - 1], trace[..|trace| - 1];
      RecentFacts(before);
      WithoutFacts(Recent(before), k);
      var r := Without(Recent(before), k);
      assert forall i :: 0 <= i < |r| ==> r[i] in r;
      assert trace == before + [k];
    }
  }

  lemma WithoutHead(ks: seq<CacheKey>, k: CacheKey)
    requires ks != []
    ensures Without(ks, k) == (if ks[0] == k then [] else [ks[0]]) + Without(ks[1..], k)
  {
  }

  lemma TakeTail(ks: seq<CacheKey>, n: nat)
    requires ks != [] && n >= 1
    ensures Take(ks, n) != [] && Take(ks, n)[0] == ks[0] && Take(ks, n)[1..] == Take(ks[1..], n - 1)
    ensures forall k :: k in Take(ks, n) ==> k == ks[0] || k in Take(ks[1..], n - 1)
  {
    var t := Take(ks, n);
    assert t == [t[0]] + t[1..];
  }

  lemma AbsentUnchanged(ks: seq<CacheKey>, k: CacheKey, n: nat)
    requires Distinct(ks) && k !in ks
    ensures Without(ks, k) == ks && Without(Take(ks, n), k) == Take(ks, n)
  {
    WithoutFacts(ks, k);
    WithoutFacts(Take(ks, n), k);
  }

  /** Moving a key to the front of the first `n` is taking the first `n` after moving it to the front. */
  lemma {:induction false} TakeWithoutPresent(ks: seq<CacheKey>, k: CacheKey, n: nat)
    requires Distinct(ks) && n >= 1 && k in Take(ks, n)
    ensures Without(Take(ks, n), k) == Take(Without(ks, k), n - 1)
  {
    hide Without, Take;
    assert ks != [] by { TakeAll([], n); }
    HeadNotInTail(ks);
    TakeTail(ks, n);
    WithoutHead(ks, k);
    WithoutHead(Take(ks, n), k);
    if ks[0] == k {
      AbsentUnchanged(ks[1..], k, n - 1);
      assert Without(ks, k) == ks[1..];
      assert Without(Take(ks, n), k) == Take(ks[1..], n - 1);
    } else {
      assert n > 1 by { TakeNothing(ks[1..]); }
      TakeWithoutPresent(ks[1..], k, n - 1);
      TakeCons(ks[0], Without(ks[1..], k), n - 1);
    }
  }

  lemma TakeNothing(ks: seq<CacheKey>)
    ensures Take(ks, 0) == []
  {
  }

  lemma TakeCons(x: CacheKey, ks: seq<CacheKey>, n: nat)
    requires n >= 1
    ensures Take([x] + ks, n) == [x] + Take(ks, n - 1)
  {
  }

  lemma {:induction false} PrefixWithout(ks: seq<CacheKey>, k: CacheKey, n: nat)
    requires n <= |ks| && k !in ks[..n]
    ensures n <= |Without(ks, k)| && Without(ks, k)[..n] == ks[..n]
  {
    if n > 0 {
      assert ks[0] == ks[..n][0];
      assert ks[..n][1..] == ks[1..][..n - 1];
      PrefixWithout(ks[1..], k, n - 1);
    }
  }

  lemma PushKeys<V>(es: Entries<V>, capacity: nat, k: CacheKey, v: V, recent: seq<CacheKey>)
    requires capacity >= 1 && Distinct(recent) && Keys(es) == Take(recent, capacity)
    ensures Keys(Push(es, capacity, k, v).0) == Take([k] + Without(recent, k), capacity)
  {
    hide Remove, Lookup, Without;
    LookupIffKey(es, k);
    var ks := Keys(es);
    if Lookup(es, k).Some? {
      TouchedKeys(es, capacity, k, v, recent);
    } else if |es| >= capacity {
      assert recent[..capacity - 1] == ks[..capacity - 1];
      PrefixWithout(recent, k, capacity - 1);
      assert Keys([(k, v)] + es[..|es| - 1]) == [k] + ks[..capacity - 1];
    } else {
      WithoutFacts(recent, k);
      KeysCons((k, v), es);
    }
  }

  lemma TouchedKeys<V>(es: Entries<V>, capacity: nat, k: CacheKey, v: V, recent: seq<CacheKey>)
    requires capacity >= 1 && Distinct(recent) && Keys(es) == Take(recent, capacity) && Lookup(es, k).Some?
    ensures Keys([(k, v)] + Remove(es, k)) == Take([k] + Without(recent, k), capacity)
  {
    hide Remove, Lookup, Without;
    LookupIffKey(es, k);
    KeysRemove(es, k);
    TakeWithoutPresent(recent, k, capacity);
    KeysCons((k, v), Remove(es, k));
  }

  /** Least recently used, over whole runs: without invalidation or poisoning the resident keys, most
      recent first, are the last `capacity` distinct keys touched. */
  lemma {:induction false} ResidentAreMostRecent<V>(capacity: nat, ops: seq<Op<V>>)
    requires capacity >= 1 && PutsAndGets(ops)
    ensures !After(capacity, ops).poisoned
    ensures Keys(After(capacity, ops).entries) == Take(Recent(Touched(capacity, ops)), capacity)
  {
    hide Push, Touch, Lookup, Without, Remove, Take;
    if ops == [] {
      TakeAll([], capacity);
    } else {
      var before, op := ops[..|ops| - 1], ops[|ops| - 1];
      ResidentAreMostRecent(capacity, before);
      var c, trace := After(capacity, before), Touched(capacity, before);
      RecentFacts(trace);
      match op
      case Put(k, v) =>
        assert (trace + [k])[..|trace|] == trace;
        PushKeys(c.entries, capacity, k, v, Recent(trace));
      case Get(k) =>
        if Lookup(c.entries, k).Some? {
          assert (trace + [k])[..|trace|] == trace;
          TouchHit(c.entries, k);
          TouchedKeys(c.entries, capacity, k, Lookup(c.entries, k).value, Recent(trace));
        } else {
          TouchMiss(c.entries, k);
          assert trace + [] == trace;
        }
      case _ => assert false;
    }
  }

  lemma TouchHit<V>(es: Entries<V>, k: CacheKey)
    requires Lookup(es, k).Some?
    ensures Touch(es, k) == [(k, Lookup(es, k).value)] + Remove(es, k)
  {
  }

  lemma TouchMiss<V>(es: Entries<V>, k: CacheKey)
    requires Lookup(es, k).None?
    ensures Touch(es, k) == es
  {
  }

  /** Position of the last occurrence. */
  function LastIndex(trace: seq<CacheKey>, k: CacheKey): nat
    requires k in trace
  {
    if trace[|trace| - 1] == k then |trace| - 1 else LastIndex(trace[..|trace| - 1], k)
  }

  ghost predicate ByLastTouch(trace: seq<CacheKey>, r: seq<CacheKey>) {
    && (forall i :: 0 <= i < |r| ==> r[i] in trace)
    && (forall i, j :: 0 <= i < j < |r| ==> LastIndex(trace, r[i]) > LastIndex(trace, r[j]))
  }

  /** `Recent` lists every touched key once, in decreasing order of its last touch. */
  lemma {:induction false} RecentIsByLastTouch(trace: seq<CacheKey>)
    ensures Distinct(Recent(trace))
    ensures forall x :: x in Recent(trace) <==> x in trace
    ensures ByLastTouch(trace, Recent(trace))
  {
    hide Without, LastIndex;
    RecentFacts(trace);
    if trace != [] {
      var k, before := trace[|trace| - 1], trace[..|trace| - 1];
      RecentIsByLastTouch(before);
      TouchAgain(trace, Recent(before));
    }
  }

  lemma TouchAgain(trace: seq<CacheKey>, r: seq<CacheKey>)
    requires trace != [] && Distinct(r)
    requires ByLastTouch(trace[..|trace| - 1], r)
    ensures var k := trace[|trace| - 1]; ByLastTouch(trace, [k] + Without(r, k))
  {
    hide Without;
    var k, before := trace[|trace| - 1], trace[..|trace| - 1];
    var rest := Without(r, k);
    WithoutFacts(r, k);
    assert trace == before + [k];
    forall i | 0 <= i < |rest|
      ensures rest[i] in trace && rest[i] in before && rest[i] != k
      ensures LastIndex(trace, rest[i]) == LastIndex(before, rest[i])
    {
      assert rest[i] in rest;
    }
    forall i, j | 0 <= i < j < |rest|
      ensures LastIndex(trace, rest[i]) > LastIndex(trace, rest[j])
    {
      var a, b := WithoutKeepsOrder(r, k, i, j);
    }
    LastIndexBound(trace, k);
    forall j | 0 <= j < |rest| ensures LastIndex(trace, rest[j]) < |trace| - 1 {
      LastIndexBound(before, rest[j]);
    }
  }

  lemma {:induction false} LastIndexBound(trace: seq<CacheKey>, k: CacheKey)
    requires k in trace
    ensures LastIndex(trace, k) < |trace| && trace[LastIndex(trace, k)] == k
  {
    if trace[|trace| - 1] != k {
      LastIndexBound(trace[..|trace| - 1], k);
    }
  }

  /** Removing a key keeps the order of the others. */
  lemma {:induction false} WithoutKeepsOrder(ks: seq<CacheKey>, k: CacheKey, i: nat, j: nat) returns (a: nat, b: nat)
    requires i < j < |Without(ks, k)|
    ensures a < b < |ks| && ks[a] == Without(ks, k)[i] && ks[b] == Without(ks, k)[j]
  {
    var d := if ks[0] == k then 0 else 1;
    if i >= d {
      a, b := WithoutKeepsOrder(ks[1..], k, i - d, j - d);
      a, b := a + 1, b + 1;
    } else {
      b := WithoutIndex(ks[1..], k, j - 1);
      a, b := 0, b + 1;
    }
  }

  lemma {:induction false} WithoutIndex(ks: seq<CacheKey>, k: CacheKey, j: nat) returns (b: nat)
    requires j < |Without(ks, k)|
    ensures b < |ks| && ks[b] == Without(ks, k)[j]
  {
    if ks[0] == k {
      b := WithoutIndex(ks[1..], k, j);
      b := b + 1;
    } else if j == 0 {
      b := 0;
    } else {
      b := WithoutIndex(ks[1..], k, j - 1);
      b := b + 1;
    }
  }

  // ----- The cache object -----

  /** `AnalysisCache` (and `AnalysisLruCache`): an LRU list behind a mutex, with an eviction counter. */
  class AnalysisCache<V(==)> {
    const capacity: nat
    var entries: Entries<V>
    var evictionCount: nat
    var poisoned: bool

    ghost predicate Valid()
      reads this
    {
      capacity >= 1 && |entries| <= capacity && Distinct(Keys(entries))
    }

    ghost function State(): Cache<V>
      reads this
    {
      Cache(entries, evictionCount, poisoned)
    }

    /** The requested capacity is clamped to at least one. */
    constructor (requested: nat)
      ensures Valid() && capacity == (if requested == 0 then 1 else requested)
      ensures State() == After(capacity, [])
    {
      capacity := if requested == 0 then 1 else requested;
      entries, evictionCount, poisoned := [], 0, false;
    }

    /** `lock_or_recover`, up to the point where the guarded closure runs. */
    method LockOrRecover()
      requires Valid()
      modifies this`entries
      ensures Valid() && State() == Locked(old(State()))
      ensures entries == if poisoned then [] else old(entries)
    {
      if poisoned {
        entries := [];
      }
    }

    method Get(key: CacheKey) returns (value: Option<V>)
      requires Valid()
      modifies this`entries
      ensures Valid()
      ensures value == Hit(old(State()), key)
      ensures State() == Apply(capacity, old(State()), Op.Get(key))
      ensures poisoned ==> value == None && entries == []
      ensures !poisoned ==> value == Lookup(old(entries), key)
      ensures value.Some? ==> entries != [] && entries[0] == (key, value.value)
      ensures !poisoned ==> forall k :: Lookup(entries, k) == Lookup(old(entries), k)
    {
      LockOrRecover();
      value := Lookup(entries, key);
      TouchFacts(entries, key);
      entries := Touch(entries, key);
    }

    method Put(key: CacheKey, value: V)
      requires Valid()
      modifies this`entries, this`evictionCount
      ensures Valid()
      ensures State() == Apply(capacity, old(State()), Op.Put(key, value))
      ensures entries != [] && entries[0] == (key, value) && Lookup(entries, key) == Some(value)
      ensures forall k :: k != key && Lookup(entries, k).Some? ==>
        !poisoned && Lookup(entries, k) == Lookup(old(entries), k)
      ensures !poisoned ==>
        |entries| + evictionCount - old(evictionCount) == |old(entries)| + (if Lookup(old(entries), key).None? then 1 else 0)
    {
      LockOrRecover();
      PushFacts(entries, capacity, key, value);
      PushHits(entries, capacity, key, value);
      var (es, pushed) := Push(entries, capacity, key, value);
      entries := es;
      if pushed.Some? && pushed.value.0 != key {
        evictionCount := evictionCount + 1;
      }
    }

    /** The keys of the file are gathered first and then popped one by one. */
    method InvalidateFile(path: string)
      requires Valid()
      modifies this`entries
      ensures Valid()
      ensures State() == Apply(capacity, old(State()), Invalidate(path))
      ensures forall k ::
        Lookup(entries, k) == (if poisoned || k.path == path then None else Lookup(old(entries), k))
    {
      hide Remove, WithoutPath, DropPath, Distinct, Keys, RemoveAll, KeysOfPath;
      LockOrRecover();
      RemoveNothing(entries);
      ghost var before := entries;
      var keys := KeysOfPath(entries, path);
      for i := 0 to |keys|
        invariant entries == RemoveAll(before, keys[..i])
      {
        entries := Remove(entries, keys[i]);
        RemoveAllSnoc(before, keys[..i], keys[i]);
        assert keys[..i + 1] == keys[..i] + [keys[i]];
      }
      assert keys[..|keys|] == keys;
      PopEachIsWithoutPath(before, path);
      forall k { LookupWithoutPath(before, path, k); }
      KeysWithoutPath(before, path);
      DropPathFacts(Keys(before), path);
    }

    /** A thread panics while it holds the mutex. */
    method PanicWhileLocked()
      requires Valid()
      modifies this`poisoned
      ensures Valid()
      ensures State() == Apply(capacity, old(State()), Poison)
    {
      poisoned := true;
    }
  }

  /** One call on a cache object. */
  method Perform<V>(cache: AnalysisCache<V>, op: Op<V>)
    requires cache.Valid()
    modifies cache
    ensures cache.Valid() && cache.State() == Apply(cache.capacity, old(cache.State()), op)
  {
    match op
    case Put(k, v) => cache.Put(k, v);
    case Get(k) => var _ := cache.Get(k);
    case Invalidate(path) => cache.InvalidateFile(path);
    case Poison => cache.PanicWhileLocked();
  }

  /** The laws of runs are laws of cache objects: any sequence of calls on a new cache leads to `After`. */
  method PerformAll<V>(requested: nat, ops: seq<Op<V>>) returns (cache: AnalysisCache<V>)
    ensures fresh(cache) && cache.Valid() && cache.State() == After(cache.capacity, ops)
  {
    cache := new AnalysisCache(requested);
    for i := 0 to |ops|
      invariant fresh(cache) && cache.Valid() && cache.State() == After(cache.capacity, ops[..i])
    {
      Perform(cache, ops[i]);
      assert ops[..i + 1][..i] == ops[..i];
    }
    assert ops[..|ops|] == ops;
  }

  function KeysOfPath<V>(es: Entries<V>, path: string): seq<CacheKey> {
    if es == [] then []
    else (if es[0].0.path == path then [es[0].0] else []) + KeysOfPath(es[1..], path)
  }

  function RemoveAll<V>(es: Entries<V>, keys: seq<CacheKey>): Entries<V>
    decreases |keys|
  {
    if keys == [] then es else RemoveAll(Remove(es, keys[0]), keys[1..])
  }

  lemma {:induction false} RemoveAllSnoc<V>(es: Entries<V>, keys: seq<CacheKey>, k: CacheKey)
    ensures RemoveAll(es, keys + [k]) == Remove(RemoveAll(es, keys), k)
    decreases |keys|
  {
    if keys != [] {
      assert (keys + [k])[1..] == keys[1..] + [k];
      RemoveAllSnoc(Remove(es, keys[0]), keys[1..], k);
    }
  }

  lemma {:induction false} RemoveAllCons<V>(e: (CacheKey, V), es: Entries<V>, keys: seq<CacheKey>)
    requires e.0 !in keys
    ensures RemoveAll([e] + es, keys) == [e] + RemoveAll(es, keys)
    decreases |keys|
  {
    if keys != [] {
      assert ([e] + es)[1..] == es;
      RemoveAllCons(e, Remove(es, keys[0]), keys[1..]);
    }
  }

  lemma {:induction false} RemoveAbsent<V>(es: Entries<V>, k: CacheKey)
    requires k !in Keys(es)
    ensures Remove(es, k) == es
  {
    if es != [] {
      assert Keys(es) == [es[0].0] + Keys(es[1..]);
      RemoveAbsent(es[1..], k);
    }
  }

  lemma {:induction false} KeysOfPathPaths<V>(es: Entries<V>, path: string)
    ensures forall k :: k in KeysOfPath(es, path) ==> k.path == path
  {
    if es != [] {
      KeysOfPathPaths(es[1..], path);
    }
  }

  lemma RemoveNothing<V>(es: Entries<V>)
    ensures RemoveAll(es, []) == es
  {
  }

  lemma RemoveHeadFirst<V>(e: (CacheKey, V), rest: Entries<V>, keys: seq<CacheKey>)
    requires e.0 !in Keys(rest)
    ensures RemoveAll([e] + rest, [e.0] + keys) == RemoveAll(rest, keys)
  {
    RemoveAbsent(rest, e.0);
    assert ([e] + rest)[1..] == rest;
    assert ([e.0] + keys)[1..] == keys;
  }

  /** Popping the gathered keys removes exactly the entries of the file. */
  lemma {:induction false} PopEachIsWithoutPath<V>(es: Entries<V>, path: string)
    requires Distinct(Keys(es))
    ensures RemoveAll(es, KeysOfPath(es, path)) == WithoutPath(es, path)
  {
    hide RemoveAll, Remove, Distinct;
    if es == [] {
      RemoveNothing(es);
    } else {
      var e, rest := es[0], es[1..];
      KeysCons(e, rest);
      HeadNotInTail(Keys(es));
      assert es == [e] + rest;
      assert Keys(es)[1..] == Keys(rest);
      PopEachIsWithoutPath(rest, path);
      KeysOfPathPaths(rest, path);
      if e.0.path == path {
        RemoveHeadFirst(e, rest, KeysOfPath(rest, path));
      } else {
        assert KeysOfPath(es, path) == KeysOfPath(rest, path);
        RemoveAllCons(e, rest, KeysOfPath(rest, path));
      }
    }
  }
}
