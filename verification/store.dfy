/** `BasicLocaleTranslations`: the texts and messages of one locale, each
    map fronted by a small cache that evicts a tenth of its entries at a
    time. */
module LocaleStore {
  import opened Wrappers
  import opened Keys
  import CacheKeys
  import Content

  /** A `TranslationKeyProvider` argument: `None` for a null provider,
      `Some(None)` for a provider whose key is null. */
  type Provider = Option<Option<AnyKey>>

  /** The inner `TranslationCache<T>`. */
  datatype InnerCache<T> = InnerCache(maxSize: int, entries: map<KeyIdentity, T>)

  datatype Translations = Translations(
    source: CacheKeys.LocaleSource,
    messages: map<KeyIdentity, Content.Message>,
    texts: map<KeyIdentity, Content.Text>,
    messageCache: InnerCache<Content.Message>,
    textCache: InnerCache<Content.Text>)

  function Max(a: int, b: int): int {
    if a < b then b else a
  }

  function Min(a: int, b: int): int {
    if a < b then a else b
  }

  /** The most entries an inner cache can hold: its bound, but at least one. */
  ghost predicate CacheBounded<T>(c: InnerCache<T>) {
    0 <= c.maxSize && |c.entries| <= Max(1, c.maxSize)
  }

  /** `a` holds some of the entries of `b`, unchanged. */
  ghost predicate Submap<T>(a: map<KeyIdentity, T>, b: map<KeyIdentity, T>) {
    forall k :: k in a ==> k in b && a[k] == b[k]
  }

  /** The caches are bounded and only hold what the maps hold. */
  ghost predicate Valid(s: Translations) {
    CacheBounded(s.messageCache) && CacheBounded(s.textCache)
    && s.messageCache.maxSize == s.textCache.maxSize
    && Submap(s.messageCache.entries, s.messages) && Submap(s.textCache.entries, s.texts)
  }

  /** The order in which the key set of a map is walked: every key once. */
  ghost predicate IterationOrder<T>(order: seq<KeyIdentity>, m: map<KeyIdentity, T>) {
    (forall i, j :: 0 <= i < j < |order| ==> order[i] != order[j])
    && forall k :: k in order <==> k in m
  }

  /** The constructors: a null source throws, and so does a negative cache
      size, which the backing `ConcurrentHashMap` refuses as a capacity. */
  function NewTranslations(source: Option<CacheKeys.LocaleSource>, messages: map<KeyIdentity, Content.Message>,
                           texts: map<KeyIdentity, Content.Text>, cacheSize: int)
    : (r: Result<Translations, Exception>)
    ensures r.Success? <==> source.Some? && cacheSize >= 0
    ensures source.None? ==> r == Failure(NullPointer)
    ensures source.Some? && cacheSize < 0 ==> r == Failure(IllegalArgument)
    ensures r.Success? ==> Valid(r.value) && r.value.messages == messages && r.value.texts == texts
                           && r.value.source == source.value
  {
    if source.None? then Failure(NullPointer)
    else if cacheSize < 0 then Failure(IllegalArgument)
    else Success(Translations(source.value, messages, texts,
                              InnerCache(cacheSize, map[]), InnerCache(cacheSize, map[])))
  }

  /** The default cache size of the shorter constructors. */
  const DefaultCacheSize: int := 1000

  /** Removes the given keys one by one. */
  function RemoveKeys<T>(m: map<KeyIdentity, T>, ks: seq<KeyIdentity>): (r: map<KeyIdentity, T>)
    ensures forall k :: k in r <==> k in m && k !in ks
    ensures Submap(r, m)
  {
    if |ks| == 0 then m else RemoveKeys(m - {ks[0]}, ks[1..])
  }

  lemma {:induction false} RemoveKeysSize<T>(m: map<KeyIdentity, T>, ks: seq<KeyIdentity>)
    requires forall i, j :: 0 <= i < j < |ks| ==> ks[i] != ks[j]
    requires forall i :: 0 <= i < |ks| ==> ks[i] in m
    ensures |RemoveKeys(m, ks)| == |m| - |ks|
  {
    if |ks| > 0 {
      var m' := m - {ks[0]};
      assert m'.Keys == m.Keys - {ks[0]};
      assert |m'| == |m'.Keys| && |m| == |m.Keys|;
      assert forall i :: 0 <= i < |ks[1..]| ==> ks[1..][i] == ks[i + 1] && ks[i + 1] != ks[0];
      RemoveKeysSize(m', ks[1..]);
    }
  }

  /** The eviction step of the inner cache's `put`: removes the first
      `count` keys in iteration order, at least one when there is one. */
  function EvictFirst<T>(m: map<KeyIdentity, T>, count: int, order: seq<KeyIdentity>): (r: map<KeyIdentity, T>)
    requires IterationOrder(order, m) && count >= 1
    ensures Submap(r, m)
    ensures |m| > 0 ==> |r| < |m|
  {
    var evicted := order[..Min(count, |order|)];
    RemoveKeysSize(m, evicted);
    OrderCoversMap(order, m);
    RemoveKeys(m, evicted)
  }

  lemma OrderCoversMap<T>(order: seq<KeyIdentity>, m: map<KeyIdentity, T>)
    requires IterationOrder(order, m)
    ensures |m| > 0 ==> |order| > 0
  {
    if |m| > 0 {
      var k :| k in m;
      assert k in order;
    }
  }

  /** The inner cache's `put`: when full it first removes
      `max(1, maxSize / 10)` keys in iteration order, then stores. */
  function InnerPut<T>(c: InnerCache<T>, key: KeyIdentity, value: T, order: seq<KeyIdentity>): (r: InnerCache<T>)
    requires CacheBounded(c) && IterationOrder(order, c.entries)
    ensures CacheBounded(r) && r.maxSize == c.maxSize
    ensures key in r.entries && r.entries[key] == value
    ensures forall k :: k in r.entries && k != key ==> k in c.entries && r.entries[k] == c.entries[k]
    ensures |c.entries| < c.maxSize ==> r.entries == c.entries[key := value]
  {
    if |c.entries| >= c.maxSize then
      var kept := EvictFirst(c.entries, Max(1, c.maxSize / 10), order);
      InnerCache(c.maxSize, kept[key := value])
    else
      InnerCache(c.maxSize, c.entries[key := value])
  }

  /** `getTranslationKey` on a provider, with both null checks. */
  function KeyOf(provider: Provider): (r: Result<AnyKey, Exception>)
    ensures r.Success? <==> provider.Some? && provider.value.Some?
    ensures r.Failure? ==> r.error == NullPointer
    ensures r.Success? ==> r.value == provider.value.value
  {
    if provider.None? || provider.value.None? then Failure(NullPointer)
    else Success(provider.value.value)
  }

  /** What `findTextOrNull` answers with the inner cache left out: the
      null checks, then what the text map holds for the key. */
  function TextAnswer(s: Translations, provider: Provider): Result<Option<Content.Text>, Exception> {
    match KeyOf(provider)
    case Failure(e) => Failure(e)
    case Success(key) =>
      var id := Identity(key);
      Success(if id in s.texts then Some(s.texts[id]) else None)
  }

  /** What `findMessageOrNull` answers with the inner cache left out. */
  function MessageAnswer(s: Translations, provider: Provider, keyExists: bool): Result<Option<Content.Message>, Exception> {
    match KeyOf(provider)
    case Failure(e) => Failure(e)
    case Success(key) =>
      if !keyExists then Failure(TranslationKeyNotFound)
      else
        var id := Identity(key);
        Success(if id in s.messages then Some(s.messages[id]) else None)
  }

  /** `findTextOrNull`: the cache first, then the map, copying a found text
      into the cache. The answer is always what the map holds. */
  function FindText(s: Translations, provider: Provider, order: seq<KeyIdentity>)
    : (r: (Result<Option<Content.Text>, Exception>, Translations))
    requires Valid(s) && IterationOrder(order, s.textCache.entries)
    ensures Valid(r.1)
    ensures r.1.texts == s.texts && r.1.messages == s.messages && r.1.messageCache == s.messageCache
    ensures r.0.Failure? <==> provider.None? || provider.value.None?
    ensures r.0.Failure? ==> r.0.error == NullPointer && r.1 == s
    ensures r.0 == TextAnswer(s, provider)
  {
    match KeyOf(provider)
    case Failure(e) => (Failure(e), s)
    case Success(key) =>
      var id := Identity(key);
      if id in s.textCache.entries then (Success(Some(s.textCache.entries[id])), s)
      else if id in s.texts then
        var text := s.texts[id];
        (Success(Some(text)), s.(textCache := InnerPut(s.textCache, id, text, order)))
      else (Success(None), s)
  }

  /** `findMessageOrNull`: like `findTextOrNull`, but a key that the key
      registry does not know (`keyExists` false) throws
      TranslationKeyNotFoundException before any lookup. */
  function FindMessage(s: Translations, provider: Provider, keyExists: bool, order: seq<KeyIdentity>)
    : (r: (Result<Option<Content.Message>, Exception>, Translations))
    requires Valid(s) && IterationOrder(order, s.messageCache.entries)
    ensures Valid(r.1)
    ensures r.1.texts == s.texts && r.1.messages == s.messages && r.1.textCache == s.textCache
    ensures r.0.Failure? <==> provider.None? || provider.value.None? || !keyExists
    ensures r.0.Failure? ==> r.1 == s
    ensures provider.None? || provider.value.None? ==> r.0 == Failure(NullPointer)
    ensures provider.Some? && provider.value.Some? && !keyExists ==> r.0 == Failure(TranslationKeyNotFound)
    ensures r.0 == MessageAnswer(s, provider, keyExists)
  {
    match KeyOf(provider)
    case Failure(e) => (Failure(e), s)
    case Success(key) =>
      if !keyExists then (Failure(TranslationKeyNotFound), s)
      else
        var id := Identity(key);
        if id in s.messageCache.entries then (Success(Some(s.messageCache.entries[id])), s)
        else if id in s.messages then
          var message := s.messages[id];
          (Success(Some(message)), s.(messageCache := InnerPut(s.messageCache, id, message, order)))
        else (Success(None), s)
  }

  /** `getNumberOfMessages` and `getNumberOfTexts`. */
  function NumberOfMessages(s: Translations): nat {
    |s.messages|
  }

  function NumberOfTexts(s: Translations): nat {
    |s.texts|
  }

  /** `clear`: both maps and both caches become empty. */
  function Clear(s: Translations): (r: Translations)
    requires Valid(s)
    ensures Valid(r) && r.source == s.source
    ensures NumberOfMessages(r) == 0 && NumberOfTexts(r) == 0
    ensures |r.messageCache.entries| == 0 && |r.textCache.entries| == 0
  {
    s.(messages := map[], texts := map[],
       messageCache := s.messageCache.(entries := map[]), textCache := s.textCache.(entries := map[]))
  }
}
