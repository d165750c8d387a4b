/** `CacheKey`: a locale source, a translation key and the kind of content,
    reduced to the two hash codes and a flag. */
module CacheKeys {
  import JavaLang
  import Keys

  /** A locale source. Its class defines no `equals`, so two sources are the
      same only when they are the same object: `id` stands for that object
      and `identityHash` for its `hashCode`. */
  datatype LocaleSource = LocaleSource(id: nat, identityHash: int)

  datatype CacheKey = CacheKey(localeHash: int, keyHash: int, isMessage: bool)

  /** `new CacheKey(localeSource, translationKey, isMessage)`: only the hash
      codes are kept. */
  function MakeKey(source: LocaleSource, key: Keys.AnyKey, isMessage: bool): (r: CacheKey)
    ensures r.isMessage == isMessage
  {
    CacheKey(source.identityHash, Keys.KeyHash(key), isMessage)
  }

  /** `equals`: all three fields agree. */
  predicate Equals(a: CacheKey, b: CacheKey) {
    a.localeHash == b.localeHash && a.keyHash == b.keyHash && a.isMessage == b.isMessage
  }

  /** `hashCode`, in 32-bit arithmetic; wrapping each step gives the same
      value as wrapping the exact result once. */
  function Hash(k: CacheKey): (r: int)
    ensures JavaLang.MinInt32 <= r <= JavaLang.MaxInt32
  {
    JavaLang.Wrap32((k.localeHash * 31 + k.keyHash) * 31 + (if k.isMessage then 1 else 0))
  }

  /** Equality is equality of the three fields, and equal keys hash alike. */
  lemma EqualsConsistent(a: CacheKey, b: CacheKey)
    ensures Equals(a, b) <==> a == b
    ensures Equals(a, b) ==> Hash(a) == Hash(b)
  {
  }

  /** Two cache keys for the same kind of content coincide exactly when the
      hash codes of their sources and of their keys do. */
  lemma SameKeyIffSameHashes(s1: LocaleSource, k1: Keys.AnyKey, s2: LocaleSource, k2: Keys.AnyKey, isMessage: bool)
    ensures MakeKey(s1, k1, isMessage) == MakeKey(s2, k2, isMessage)
            <==> s1.identityHash == s2.identityHash && Keys.KeyHash(k1) == Keys.KeyHash(k2)
  {
  }

  /** Consequently a basic key and a default key with the same ordinal share
      a cache slot, although the keys themselves are never equal. */
  lemma DistinctKeysShareSlot(s: LocaleSource, ordinal: int, isMessage: bool)
    ensures var b := Keys.Basic(Keys.BasicKey("A", ordinal));
            var d := Keys.Default(Keys.DefaultKey(ordinal));
            !Keys.KeyEquals(b, d) && MakeKey(s, b, isMessage) == MakeKey(s, d, isMessage)
  {
  }

  lemma WrapStep(x: int)
    ensures JavaLang.Wrap32(x + 1) != JavaLang.Wrap32(x)
  {
    var a := JavaLang.Wrap32(x);
    var b := JavaLang.Wrap32(x + 1);
    assert (a - x) % JavaLang.TwoTo32 == 0;
    assert (b - (x + 1)) % JavaLang.TwoTo32 == 0;
  }

  /** The text key and the message key of one (source, key) pair are
      different keys with different hash codes. */
  lemma TextAndMessageDiffer(s: LocaleSource, k: Keys.AnyKey)
    ensures MakeKey(s, k, false) != MakeKey(s, k, true)
    ensures Hash(MakeKey(s, k, false)) != Hash(MakeKey(s, k, true))
  {
    var x := (s.identityHash * 31 + Keys.KeyHash(k)) * 31;
    WrapStep(x);
  }
}

/** `TranslationCache`: a bounded cache of texts and messages with a recency
    queue. `cache` holds the values, `inQueue` marks the queued keys and
    `queue` runs from least to most recently used. */
module TranslationCache {
  import opened Wrappers
  import opened CacheKeys
  import Content

  datatype CacheValue = TextValue(text: Content.Text) | MessageValue(message: Content.Message)

  type Values = map<CacheKey, CacheValue>

  datatype Cache = Cache(
    maxSize: int,
    cache: Values,
    inQueue: set<CacheKey>,
    queue: seq<CacheKey>,
    hits: nat,
    misses: nat)

  predicate NoDup(q: seq<CacheKey>) {
    forall i, j :: 0 <= i < j < |q| ==> q[i] != q[j]
  }

  /** The three structures describe the same keys, each queued once. */
  ghost predicate Tracks(m: Values, marked: set<CacheKey>, q: seq<CacheKey>) {
    NoDup(q) && (forall k :: k in q <==> k in m) && (forall k :: k in marked <==> k in m)
  }

  ghost predicate Coherent(c: Cache) {
    Tracks(c.cache, c.inQueue, c.queue)
  }

  /** Every key holds the kind of content its flag names. */
  ghost predicate KindsMatch(m: Values) {
    forall k :: k in m ==> (m[k].MessageValue? <==> k.isMessage)
  }

  /** Coherent, within the bound, and every value of the right kind. */
  ghost predicate Valid(c: Cache) {
    Coherent(c) && 0 < c.maxSize && |c.cache| <= c.maxSize && KindsMatch(c.cache)
  }

  /** `a` keeps some of the entries of `b`, unchanged. */
  ghost predicate Submap(a: Values, b: Values) {
    forall k :: k in a ==> k in b && a[k] == b[k]
  }

  lemma SubmapTrans(a: Values, b: Values, c: Values)
    requires Submap(a, b) && Submap(b, c)
    ensures Submap(a, c)
  {
  }

  lemma SubmapKinds(a: Values, b: Values)
    requires Submap(a, b) && KindsMatch(b)
    ensures KindsMatch(a)
  {
  }

  function Elems(q: seq<CacheKey>): set<CacheKey> {
    set k | k in q
  }

  lemma {:induction false} NoDupSize(q: seq<CacheKey>)
    requires NoDup(q)
    ensures |Elems(q)| == |q|
  {
    if |q| > 0 {
      NoDupSize(q[1..]);
      assert Elems(q) == {q[0]} + Elems(q[1..]);
      assert q[0] !in Elems(q[1..]);
    }
  }

  /** The map holds as many values as the queue holds keys. */
  lemma TracksSize(m: Values, marked: set<CacheKey>, q: seq<CacheKey>)
    requires Tracks(m, marked, q)
    ensures |m| == |q|
  {
    NoDupSize(q);
    assert m.Keys == Elems(q);
  }

  /** `validateCacheSize` and the constructor. */
  function NewCache(maxSize: int): (r: Result<Cache, Exception>)
    ensures r.Success? <==> maxSize > 0
    ensures r.Failure? ==> r.error == InvalidCacheSize
    ensures r.Success? ==> Valid(r.value) && r.value.maxSize == maxSize && |r.value.cache| == 0
  {
    if maxSize <= 0 then Failure(InvalidCacheSize)
    else Success(Cache(maxSize, map[], {}, [], 0, 0))
  }

  /** `calculateDefaultCacheSize` after the memory estimate: the estimate
      clamped into [100, 50000]. */
  function ClampSize(size: int): (r: int)
    ensures 100 <= r <= 50000
    ensures 100 <= size <= 50000 ==> r == size
    ensures size < 100 ==> r == 100
    ensures size > 50000 ==> r == 50000
  {
    if size < 100 then 100 else if size > 50000 then 50000 else size
  }

  /** `lruQueue.remove(key)`: drops the first occurrence. */
  function RemoveFirst(q: seq<CacheKey>, k: CacheKey): (r: seq<CacheKey>)
    ensures k !in q ==> r == q
    ensures k in q ==> |r| == |q| - 1
    ensures forall x :: x in r ==> x in q
  {
    if |q| == 0 then q
    else if q[0] == k then q[1..]
    else [q[0]] + RemoveFirst(q[1..], k)
  }

  /** Removing a key from a queue without repeats leaves a queue without
      repeats holding every other key. */
  lemma {:induction false} RemoveFirstNoDup(q: seq<CacheKey>, k: CacheKey)
    requires NoDup(q)
    ensures NoDup(RemoveFirst(q, k))
    ensures forall x :: x in RemoveFirst(q, k) <==> x in q && x != k
  {
    if |q| > 0 && q[0] != k {
      var rest := RemoveFirst(q[1..], k);
      RemoveFirstNoDup(q[1..], k);
      assert q[0] !in q[1..];
      assert forall x :: x in q <==> x == q[0] || x in q[1..];
    } else if |q| > 0 {
      assert forall x :: x in q <==> x == q[0] || x in q[1..];
    }
  }

  /** The number of least recently used keys `maintainSize` evicts. */
  function Excess(q: seq<CacheKey>, maxSize: int): nat {
    if 0 < maxSize < |q| then |q| - maxSize else 0
  }

  /** The `n` most recently used keys of a queue, or all of them. */
  function Recent(q: seq<CacheKey>, n: int): (r: seq<CacheKey>)
    ensures |r| == |q| - Excess(q, n)
  {
    q[Excess(q, n)..]
  }

  /** Above the bound, the most recent keys of a queue are those of its
      tail. */
  lemma RecentTail(q: seq<CacheKey>, n: int)
    requires 0 < n < |q|
    ensures Recent(q, n) == Recent(q[1..], n)
  {
    assert q[1..][|q| - n - 1..] == q[|q| - n..];
  }

  /** Dropping the head of the queue from all three structures keeps them
      in step. */
  lemma TracksTail(m: Values, marked: set<CacheKey>, q: seq<CacheKey>)
    requires Tracks(m, marked, q) && |q| > 0
    ensures Tracks(m - {q[0]}, marked - {q[0]}, q[1..])
    ensures Submap(m - {q[0]}, m)
  {
    assert forall x :: x in q <==> x == q[0] || x in q[1..];
    assert q[0] !in q[1..];
  }

  /** The loop of `maintainSize`: polls keys from the head of the queue and
      drops them until the bound holds. */
  function Evict(m: Values, marked: set<CacheKey>, q: seq<CacheKey>, maxSize: int)
    : (r: (Values, set<CacheKey>, seq<CacheKey>))
    requires Tracks(m, marked, q)
    ensures Tracks(r.0, r.1, r.2)
    ensures r.2 == Recent(q, maxSize)
    ensures Submap(r.0, m)
    decreases |q|
  {
    TracksSize(m, marked, q);
    if |m| <= maxSize || maxSize <= 0 || |q| == 0 then (m, marked, q)
    else
      var oldest := q[0];
      TracksTail(m, marked, q);
      var r := Evict(m - {oldest}, marked - {oldest}, q[1..], maxSize);
      SubmapTrans(r.0, m - {oldest}, m);
      RecentTail(q, maxSize);
      r
  }

  /** `maintainSize`: afterwards the bound holds and the entries that remain
      are the most recently used ones. */
  function MaintainSize(c: Cache): (r: Cache)
    requires Coherent(c) && 0 < c.maxSize && KindsMatch(c.cache)
    ensures Valid(r) && r.maxSize == c.maxSize && r.hits == c.hits && r.misses == c.misses
    ensures r.queue == Recent(c.queue, c.maxSize)
    ensures Submap(r.cache, c.cache)
  {
    var (m, marked, q) := Evict(c.cache, c.inQueue, c.queue, c.maxSize);
    TracksSize(m, marked, q);
    SubmapKinds(m, c.cache);
    c.(cache := m, inQueue := marked, queue := q)
  }

  /** `setMaxSize`: rejects a size that is not positive; shrinking evicts
      least recently used entries down to the new bound and growing evicts
      nothing. */
  function SetMaxSize(c: Cache, newSize: int): (r: Result<Cache, Exception>)
    requires Valid(c)
    ensures r.Success? <==> newSize > 0
    ensures r.Failure? ==> r.error == InvalidCacheSize
    ensures r.Success? ==> Valid(r.value) && r.value.maxSize == newSize
    ensures r.Success? ==> r.value.queue == Recent(c.queue, newSize)
    ensures r.Success? ==> Submap(r.value.cache, c.cache)
    ensures r.Success? && newSize >= c.maxSize ==> r.value == c.(maxSize := newSize)
  {
    TracksSize(c.cache, c.inQueue, c.queue);
    if newSize <= 0 then Failure(InvalidCacheSize)
    else
      var d := c.(maxSize := newSize);
      Success(if newSize < c.maxSize then MaintainSize(d) else d)
  }

  /** `clear`: empties the three structures and zeroes the counters. */
  function Clear(c: Cache): (r: Cache)
    requires Valid(c)
    ensures Valid(r) && r.maxSize == c.maxSize
    ensures |r.cache| == 0 && |r.queue| == 0 && |r.inQueue| == 0 && r.hits == 0 && r.misses == 0
  {
    Cache(c.maxSize, map[], {}, [], 0, 0)
  }

  /** Puts a value under a key and makes the key most recent. */
  function Enqueue(c: Cache, k: CacheKey, v: CacheValue): (r: Cache)
    requires Coherent(c)
    ensures Coherent(r) && r.cache == c.cache[k := v] && r.queue == RemoveFirst(c.queue, k) + [k]
    ensures k !in c.cache ==> r.queue == c.queue + [k]
    ensures r.maxSize == c.maxSize && r.hits == c.hits && r.misses == c.misses
  {
    var q := RemoveFirst(c.queue, k);
    RemoveFirstNoDup(c.queue, k);
    c.(queue := q + [k], cache := c.cache[k := v], inQueue := c.inQueue + {k})
  }

  /** Moves a stored key to the most recent end of the queue. */
  function Touch(c: Cache, k: CacheKey): (r: Cache)
    requires Valid(c) && k in c.cache
    ensures Valid(r) && r.cache == c.cache && r.queue == RemoveFirst(c.queue, k) + [k]
    ensures r.maxSize == c.maxSize && r.hits == c.hits && r.misses == c.misses
  {
    var r := Enqueue(c, k, c.cache[k]);
    assert r.cache == c.cache;
    r
  }

  /** `getText` and `getMessage`: a null source or key throws; a stored
      value of the requested kind is a hit and becomes most recent; anything
      else is a miss that changes only the miss count. */
  function Get(c: Cache, source: Option<LocaleSource>, key: Option<Keys.AnyKey>, isMessage: bool)
    : (r: (Result<Option<CacheValue>, Exception>, Cache))
    requires Valid(c)
    ensures Valid(r.1) && r.1.maxSize == c.maxSize
    ensures source.None? || key.None? ==> r.0 == Failure(NullPointer) && r.1 == c
    ensures source.Some? && key.Some? ==>
              var k := MakeKey(source.value, key.value, isMessage);
              r.0.Success?
              && (k in c.cache ==>
                    r.0.value == Some(c.cache[k]) && r.1.cache == c.cache
                    && r.1.queue == RemoveFirst(c.queue, k) + [k]
                    && r.1.hits == c.hits + 1 && r.1.misses == c.misses)
              && (k !in c.cache ==> r.0.value == None && r.1 == c.(misses := c.misses + 1))
  {
    if source.None? || key.None? then (Failure(NullPointer), c)
    else
      var k := MakeKey(source.value, key.value, isMessage);
      if k in c.cache && c.cache[k].MessageValue? == isMessage then
        var t := Touch(c, k);
        (Success(Some(c.cache[k])), t.(hits := c.hits + 1))
      else
        (Success(None), c.(misses := c.misses + 1))
  }

  /** Every lookup that gets past the null checks counts exactly one hit or
      one miss. */
  lemma GetCountsOnce(c: Cache, source: LocaleSource, key: Keys.AnyKey, isMessage: bool)
    requires Valid(c)
    ensures var r := Get(c, Some(source), Some(key), isMessage).1;
            r.hits + r.misses == c.hits + c.misses + 1
  {
  }

  /** The common part of `putText` and `putMessage`: the new value is kept
      and most recent, the queue keeps its most recent keys up to the bound,
      and only entries whose keys left the queue leave the map. */
  function Store(c: Cache, k: CacheKey, v: CacheValue): (r: Cache)
    requires Valid(c) && (v.MessageValue? <==> k.isMessage)
    ensures Valid(r) && r.maxSize == c.maxSize && r.hits == c.hits && r.misses == c.misses
    ensures k in r.cache && r.cache[k] == v && r.queue[|r.queue| - 1] == k
    ensures r.queue == Recent(RemoveFirst(c.queue, k) + [k], c.maxSize)
    ensures Submap(r.cache, c.cache[k := v])
  {
    var d := Enqueue(c, k, v);
    var r := MaintainSize(d);
    assert Excess(d.queue, d.maxSize) < |d.queue|;
    assert r.queue[|r.queue| - 1] == k;
    r
  }

  /** Putting a key already present evicts nothing: the key just moves to
      the most recent end. */
  lemma StorePresent(c: Cache, k: CacheKey, v: CacheValue)
    requires Valid(c) && (v.MessageValue? <==> k.isMessage) && k in c.cache
    ensures Store(c, k, v).queue == RemoveFirst(c.queue, k) + [k]
  {
    TracksSize(c.cache, c.inQueue, c.queue);
    var q := RemoveFirst(c.queue, k) + [k];
    assert Excess(q, c.maxSize) == 0;
    assert q[0..] == q;
  }

  /** Putting a new key into a cache with room evicts nothing. */
  lemma StoreWithRoom(c: Cache, k: CacheKey, v: CacheValue)
    requires Valid(c) && (v.MessageValue? <==> k.isMessage) && k !in c.cache && |c.cache| < c.maxSize
    ensures Store(c, k, v).queue == c.queue + [k]
  {
    TracksSize(c.cache, c.inQueue, c.queue);
    var q := RemoveFirst(c.queue, k) + [k];
    assert q == c.queue + [k];
    assert Excess(q, c.maxSize) == 0;
    assert q[0..] == q;
  }

  /** Putting a new key into a full cache evicts exactly the head of the
      queue, the least recently used key. */
  lemma StoreWhenFull(c: Cache, k: CacheKey, v: CacheValue)
    requires Valid(c) && (v.MessageValue? <==> k.isMessage) && k !in c.cache && |c.cache| == c.maxSize
    ensures Store(c, k, v).queue == c.queue[1..] + [k]
  {
    TracksSize(c.cache, c.inQueue, c.queue);
    assert RemoveFirst(c.queue, k) == c.queue;
    RecentOfFull(c.queue, k, c.maxSize);
  }

  lemma RecentOfFull(q: seq<CacheKey>, k: CacheKey, n: int)
    requires 0 < n == |q|
    ensures Recent(q + [k], n) == q[1..] + [k]
  {
    assert (q + [k])[1..] == q[1..] + [k];
  }

  /** `putText`: null checks, then store under the text key. */
  function PutText(c: Cache, source: Option<LocaleSource>, key: Option<Keys.AnyKey>, text: Option<Content.Text>)
    : (r: (Result<(), Exception>, Cache))
    requires Valid(c)
    ensures Valid(r.1)
    ensures source.None? || key.None? || text.None? ==> r.0 == Failure(NullPointer) && r.1 == c
    ensures source.Some? && key.Some? && text.Some? ==>
              r.0.Success? && r.1 == Store(c, MakeKey(source.value, key.value, false), TextValue(text.value))
  {
    if source.None? || key.None? || text.None? then (Failure(NullPointer), c)
    else (Success(()), Store(c, MakeKey(source.value, key.value, false), TextValue(text.value)))
  }

  /** `putMessage`: null checks, then store under the message key. */
  function PutMessage(c: Cache, source: Option<LocaleSource>, key: Option<Keys.AnyKey>, message: Option<Content.Message>)
    : (r: (Result<(), Exception>, Cache))
    requires Valid(c)
    ensures Valid(r.1)
    ensures source.None? || key.None? || message.None? ==> r.0 == Failure(NullPointer) && r.1 == c
    ensures source.Some? && key.Some? && message.Some? ==>
              r.0.Success? && r.1 == Store(c, MakeKey(source.value, key.value, true), MessageValue(message.value))
  {
    if source.None? || key.None? || message.None? then (Failure(NullPointer), c)
    else (Success(()), Store(c, MakeKey(source.value, key.value, true), MessageValue(message.value)))
  }

  /** A text just put is found by the next lookup of that text. */
  lemma PutThenGet(c: Cache, source: LocaleSource, key: Keys.AnyKey, text: Content.Text)
    requires Valid(c)
    ensures var c1 := PutText(c, Some(source), Some(key), Some(text)).1;
            var (v, _) := Get(c1, Some(source), Some(key), false);
            v.Success? && v.value == Some(TextValue(text))
  {
  }

  /** When a new key arrives at a full cache, the least recently used key is
      the one that leaves, and the size stays at the bound. */
  lemma FullCacheEvictsOldest(c: Cache, k: CacheKey, v: CacheValue)
    requires Valid(c) && (v.MessageValue? <==> k.isMessage)
    requires k !in c.cache && |c.cache| == c.maxSize
    ensures var r := Store(c, k, v);
            c.queue[0] !in r.cache && |r.cache| == |c.cache|
  {
    var r := Store(c, k, v);
    StoreWhenFull(c, k, v);
    TracksSize(c.cache, c.inQueue, c.queue);
    TracksSize(r.cache, r.inQueue, r.queue);
    HeadNotInTail(c.queue);
    assert c.queue[0] in c.cache;
    assert c.queue[0] !in r.queue;
  }

  lemma HeadNotInTail(q: seq<CacheKey>)
    requires NoDup(q) && |q| > 0
    ensures q[0] !in q[1..]
  {
    forall j | 0 <= j < |q| - 1
      ensures q[1..][j] != q[0]
    {
      assert q[1..][j] == q[j + 1];
    }
  }
}
