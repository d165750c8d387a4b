/** `DefaultTranslationService`: the stores of the loaded locales, a default
    locale, and one `TranslationCache` in front of the stores. */
module DefaultService {
  import opened Wrappers
  import opened CacheKeys
  import Keys
  import Content
  import LocaleStore
  import TranslationCache
  import opened Loading

  /** `CacheSizeMode`. */
  datatype CacheSizeMode = Automatic | Manual | DefaultSize

  datatype Service = Service(
    stores: Stores,
    defaultSource: Option<LocaleSource>,
    defaultTranslations: Option<LocaleStore.Translations>,
    cache: TranslationCache.Cache,
    mode: CacheSizeMode,
    manualSize: int)

  ghost predicate Valid(s: Service) {
    TranslationCache.Valid(s.cache)
  }

  /** The capacity a mode asks for. `estimate` stands for the figure
      `calculateDefaultCacheSize` derives from the JVM's maximum memory
      before clamping it. */
  function Capacity(mode: CacheSizeMode, manualSize: int, estimate: int): int {
    match mode
    case Automatic => TranslationCache.ClampSize(estimate)
    case Manual => manualSize
    case DefaultSize => 1000
  }

  /** A service with no locales and an empty cache of the given capacity. */
  function Empty(defaultSource: Option<LocaleSource>, capacity: int, mode: CacheSizeMode, manualSize: int)
    : (r: Service)
    requires capacity > 0
    ensures Valid(r) && r.cache.maxSize == capacity && |r.cache.cache| == 0
  {
    Service(map[], defaultSource, None, TranslationCache.NewCache(capacity).value, mode, manualSize)
  }

  /** `DefaultTranslationService(localeSource, cacheSize)`; the one-argument
      form passes 1000. A null source throws NullPointerException and a size
      the cache refuses InvalidCacheSizeException; the mode becomes MANUAL. */
  function NewWithSource(source: Option<LocaleSource>, cacheSize: int): (r: Result<Service, Exception>)
    ensures r.Success? <==> source.Some? && cacheSize > 0
    ensures source.None? ==> r == Failure(NullPointer)
    ensures source.Some? && cacheSize <= 0 ==> r == Failure(InvalidCacheSize)
    ensures r.Success? ==> Valid(r.value) && r.value.defaultSource == source
                           && r.value.stores == map[] && r.value.defaultTranslations.None?
                           && r.value.cache.maxSize == cacheSize && |r.value.cache.cache| == 0
                           && r.value.mode == Manual && r.value.manualSize == cacheSize
  {
    if source.None? then Failure(NullPointer)
    else if cacheSize <= 0 then Failure(InvalidCacheSize)
    else Success(Empty(source, cacheSize, Manual, cacheSize))
  }

  /** `DefaultTranslationService(cacheSizeMode)`: the cache is built for the
      mode while the manual size still holds its initial 1000. */
  function NewWithMode(mode: Option<CacheSizeMode>, estimate: int): (r: Result<Service, Exception>)
    ensures r.Success? <==> mode.Some?
    ensures mode.None? ==> r == Failure(NullPointer)
    ensures r.Success? ==> Valid(r.value) && r.value.defaultSource.None? && r.value.stores == map[]
                           && r.value.mode == mode.value && r.value.manualSize == 1000
                           && r.value.cache.maxSize == Capacity(mode.value, 1000, estimate)
                           && 100 <= r.value.cache.maxSize <= 50000
  {
    if mode.None? then Failure(NullPointer)
    else Success(Empty(None, Capacity(mode.value, 1000, estimate), mode.value, 1000))
  }

  /** `DefaultTranslationService(cacheSizeMode, manualCacheSize)`: MANUAL
      needs a positive size; the size is recorded whatever the mode. */
  function NewWithModeAndSize(mode: Option<CacheSizeMode>, manualSize: int, estimate: int)
    : (r: Result<Service, Exception>)
    ensures r.Success? <==> mode.Some? && (mode.value == Manual ==> manualSize > 0)
    ensures mode.None? ==> r == Failure(NullPointer)
    ensures mode == Some(Manual) && manualSize <= 0 ==> r == Failure(InvalidCacheSize)
    ensures r.Success? ==> Valid(r.value) && r.value.defaultSource.None? && r.value.stores == map[]
                           && r.value.mode == mode.value && r.value.manualSize == manualSize
                           && r.value.cache.maxSize == Capacity(mode.value, manualSize, estimate)
  {
    if mode.None? then Failure(NullPointer)
    else if mode.value == Manual && manualSize <= 0 then Failure(InvalidCacheSize)
    else Success(Empty(None, Capacity(mode.value, manualSize, estimate), mode.value, manualSize))
  }

  /** `reconfigureCache(mode, manualCacheSize)`: after the same checks as the
      constructor the cache is resized in place, keeping its most recent
      entries; nothing but the cache and the two mode fields changes. */
  function Reconfigure(s: Service, mode: Option<CacheSizeMode>, manualSize: int, estimate: int)
    : (r: (Result<(), Exception>, Service))
    requires Valid(s)
    ensures Valid(r.1)
    ensures r.0.Success? <==> mode.Some? && (mode.value == Manual ==> manualSize > 0)
    ensures mode.None? ==> r.0 == Failure(NullPointer)
    ensures mode == Some(Manual) && manualSize <= 0 ==> r.0 == Failure(InvalidCacheSize)
    ensures r.0.Failure? ==> r.1 == s
    ensures r.0.Success? ==>
              var size := Capacity(mode.value, manualSize, estimate);
              r.1 == s.(cache := r.1.cache, mode := mode.value, manualSize := manualSize)
              && r.1.cache.maxSize == size
              && r.1.cache.queue == TranslationCache.Recent(s.cache.queue, size)
              && TranslationCache.Submap(r.1.cache.cache, s.cache.cache)
              && (size >= s.cache.maxSize ==> r.1.cache == s.cache.(maxSize := size))
  {
    if mode.None? then (Failure(NullPointer), s)
    else if mode.value == Manual && manualSize <= 0 then (Failure(InvalidCacheSize), s)
    else
      var size := Capacity(mode.value, manualSize, estimate);
      var c := TranslationCache.SetMaxSize(s.cache, size).value;
      (Success(()), s.(cache := c, mode := mode.value, manualSize := manualSize))
  }

  /** `reconfigureCache(mode)`: the stored manual size is reused. */
  function ReconfigureMode(s: Service, mode: Option<CacheSizeMode>, estimate: int)
    : (r: (Result<(), Exception>, Service))
    requires Valid(s)
    ensures Valid(r.1)
    ensures mode == Some(Manual) && s.manualSize <= 0 ==> r.0 == Failure(InvalidCacheSize) && r.1 == s
    ensures r.0.Success? ==> mode.Some? && r.1.manualSize == s.manualSize
                             && r.1.cache.maxSize == Capacity(mode.value, s.manualSize, estimate)
  {
    Reconfigure(s, mode, s.manualSize, estimate)
  }

  /** `checkLocaleSource`. */
  function CheckSource(provider: SourceProvider): (r: Result<LocaleSource, Exception>)
    ensures r.Success? <==> provider.Some? && provider.value.Some?
    ensures provider.None? ==> r == Failure(NullPointer)
    ensures provider.Some? && provider.value.None? ==> r == Failure(LocaleNotSupported)
    ensures r.Success? ==> r.value == provider.value.value
  {
    if provider.None? then Failure(NullPointer)
    else if provider.value.None? then Failure(LocaleNotSupported)
    else Success(provider.value.value)
  }

  /** Both providers pass their checks. */
  predicate ValidProviders(sp: SourceProvider, kp: LocaleStore.Provider) {
    sp.Some? && sp.value.Some? && kp.Some? && kp.value.Some?
  }

  /** The error of the first failing provider check: the locale source is
      checked first, then the key. */
  function ProviderError(sp: SourceProvider, kp: LocaleStore.Provider): Exception {
    if sp.None? then NullPointer
    else if sp.value.None? then LocaleNotSupported
    else NullPointer
  }

  /** The text of a cache hit; a message value never stands under a text key. */
  function CachedText(v: Option<TranslationCache.CacheValue>): Option<Content.Text> {
    if v.Some? && v.value.TextValue? then Some(v.value.text) else None
  }

  function CachedMessage(v: Option<TranslationCache.CacheValue>): Option<Content.Message> {
    if v.Some? && v.value.MessageValue? then Some(v.value.message) else None
  }

  /** `findTextOrNull`: both providers are checked before the cache is
      consulted; a cache hit is returned; otherwise a locale without a store
      answers null, and a store's text is returned and cached. */
  function FindTextOrNull(s: Service, sp: SourceProvider, kp: LocaleStore.Provider)
    : (r: (Result<Option<Content.Text>, Exception>, Service))
    requires Valid(s)
    ensures Valid(r.1) && r.1 == s.(cache := r.1.cache)
    ensures r.0.Failure? <==> !ValidProviders(sp, kp)
    ensures r.0.Failure? ==> r.0.error == ProviderError(sp, kp) && r.1 == s
    ensures r.0.Success? ==>
              var source := sp.value.value;
              var k := MakeKey(source, kp.value.value, false);
              (k in s.cache.cache ==>
                 r.0.value.Some? && s.cache.cache[k] == TranslationCache.TextValue(r.0.value.value))
              && (k !in s.cache.cache && source !in s.stores ==> r.0.value.None?)
              && (k !in s.cache.cache && source in s.stores ==>
                    r.0 == LocaleStore.TextAnswer(s.stores[source], kp))
              && (r.0.value.Some? ==>
                    k in r.1.cache.cache && r.1.cache.cache[k] == TranslationCache.TextValue(r.0.value.value))
  {
    match CheckSource(sp)
    case Failure(e) => (Failure(e), s)
    case Success(source) =>
      match LocaleStore.KeyOf(kp)
      case Failure(e) => (Failure(e), s)
      case Success(key) =>
        var (hit, c1) := TranslationCache.Get(s.cache, Some(source), Some(key), false);
        var cached := CachedText(hit.value);
        if cached.Some? then (Success(cached), s.(cache := c1))
        else if source !in s.stores then (Success(None), s.(cache := c1))
        else
          var answer := LocaleStore.TextAnswer(s.stores[source], kp).value;
          if answer.None? then (Success(None), s.(cache := c1))
          else
            var c2 := TranslationCache.PutText(c1, Some(source), Some(key), answer).1;
            (Success(answer), s.(cache := c2))
  }

  /** `findMessageOrNull`: as `findTextOrNull`, except that on a cache miss
      the store refuses a key the key registry does not know (`keyExists`
      false) with TranslationKeyNotFoundException, after the miss has been
      counted. */
  function FindMessageOrNull(s: Service, sp: SourceProvider, kp: LocaleStore.Provider, keyExists: bool)
    : (r: (Result<Option<Content.Message>, Exception>, Service))
    requires Valid(s)
    ensures Valid(r.1) && r.1 == s.(cache := r.1.cache)
    ensures !ValidProviders(sp, kp) ==> r.0 == Failure(ProviderError(sp, kp)) && r.1 == s
    ensures ValidProviders(sp, kp) ==>
              var source := sp.value.value;
              var k := MakeKey(source, kp.value.value, true);
              (k in s.cache.cache ==>
                 r.0.Success? && r.0.value.Some?
                 && s.cache.cache[k] == TranslationCache.MessageValue(r.0.value.value))
              && (k !in s.cache.cache && source !in s.stores ==> r.0 == Success(None))
              && (k !in s.cache.cache && source in s.stores ==>
                    r.0 == LocaleStore.MessageAnswer(s.stores[source], kp, keyExists))
              && (r.0.Success? && r.0.value.Some? ==>
                    k in r.1.cache.cache && r.1.cache.cache[k] == TranslationCache.MessageValue(r.0.value.value))
  {
    match CheckSource(sp)
    case Failure(e) => (Failure(e), s)
    case Success(source) =>
      match LocaleStore.KeyOf(kp)
      case Failure(e) => (Failure(e), s)
      case Success(key) =>
        var (hit, c1) := TranslationCache.Get(s.cache, Some(source), Some(key), true);
        var cached := CachedMessage(hit.value);
        if cached.Some? then (Success(cached), s.(cache := c1))
        else if source !in s.stores then (Success(None), s.(cache := c1))
        else
          match LocaleStore.MessageAnswer(s.stores[source], kp, keyExists)
          case Failure(e) => (Failure(e), s.(cache := c1))
          case Success(answer) =>
            if answer.None? then (Success(None), s.(cache := c1))
            else
              var c2 := TranslationCache.PutMessage(c1, Some(source), Some(key), answer).1;
              (Success(answer), s.(cache := c2))
  }

  /** A text lookup answers the same when it is repeated at once: whatever
      the first lookup found, from the cache or from a store, the second
      finds in the cache. */
  lemma TextLookupStable(s: Service, source: LocaleSource, key: Keys.AnyKey)
    requires Valid(s)
    ensures var (a1, s1) := FindTextOrNull(s, Some(Some(source)), Some(Some(key)));
            var (a2, _) := FindTextOrNull(s1, Some(Some(source)), Some(Some(key)));
            a1.Success? && a2 == a1
  {
    var sp: SourceProvider := Some(Some(source));
    var kp: LocaleStore.Provider := Some(Some(key));
    var k := MakeKey(source, key, false);
    var (a1, s1) := FindTextOrNull(s, sp, kp);
    var (a2, s2) := FindTextOrNull(s1, sp, kp);
    if a1.value.None? {
      assert k !in s.cache.cache;
      assert k !in s1.cache.cache by {
        var (_, c1) := TranslationCache.Get(s.cache, Some(source), Some(key), false);
        assert s1.cache == c1;
      }
    }
  }

  /** With nothing cached, a text lookup answers what the store of the
      locale holds, or null when the locale has none. */
  lemma EmptyCacheReadsStores(s: Service, source: LocaleSource, kp: LocaleStore.Provider)
    requires Valid(s) && |s.cache.cache| == 0 && kp.Some? && kp.value.Some?
    ensures var a := FindTextOrNull(s, Some(Some(source)), kp).0;
            a == (if source in s.stores then LocaleStore.TextAnswer(s.stores[source], kp) else Success(None))
  {
    assert MakeKey(source, kp.value.value, false) !in s.cache.cache;
  }

  /** `updateTranslations` as written. A null collection throws. The map is
      emptied first. With no default source every entry is loaded and the
      method returns without clearing the cache. With a default source the
      loop above runs; if no entry matched, LocaleNotSupportedException is
      thrown, again before the cache is cleared. */
  function UpdateTranslationsAsWritten(s: Service, entries: Option<Entries>)
    : (r: (Result<(), Exception>, Service))
    requires Valid(s)
    ensures Valid(r.1) && r.1.mode == s.mode && r.1.manualSize == s.manualSize
    ensures entries.None? ==> r.0 == Failure(NullPointer) && r.1 == s
    ensures entries.Some? && s.defaultSource.None? ==>
              r.0.Success? && r.1 == s.(stores := LoadAll(entries.value))
    ensures entries.Some? && s.defaultSource.Some? ==>
              var p := SweepAll(Sweep(map[], s.defaultSource.value, s.defaultTranslations, false), entries.value);
              r.1.stores == p.stores && r.1.defaultSource == Some(p.defaultSource)
              && r.1.defaultTranslations == p.defaultTranslations
              && (r.0.Success? <==> p.found)
              && (r.0.Failure? ==> r.0.error == LocaleNotSupported && r.1.cache == s.cache)
              && (r.0.Success? ==> r.1.cache == TranslationCache.Clear(s.cache))
  {
    if entries.None? then (Failure(NullPointer), s)
    else if s.defaultSource.None? then (Success(()), s.(stores := LoadAll(entries.value)))
    else
      var p := SweepAll(Sweep(map[], s.defaultSource.value, s.defaultTranslations, false), entries.value);
      var s1 := s.(stores := p.stores, defaultSource := Some(p.defaultSource),
                   defaultTranslations := p.defaultTranslations);
      if !p.found then (Failure(LocaleNotSupported), s1)
      else (Success(()), s1.(cache := TranslationCache.Clear(s.cache)))
  }

  /** With a default source set, loading its store followed by another
      locale's keeps only the default's store in the map and makes the other
      locale the default, although its store is loaded nowhere else. */
  lemma OtherLocaleBecomesDefault(s: Service, d: LocaleStore.Translations, e: LocaleStore.Translations)
    requires Valid(s) && s.defaultSource == Some(d.source) && e.source != d.source
    ensures var (r, s1) := UpdateTranslationsAsWritten(s, Some([Some(d), Some(e)]));
            r.Success? && s1.stores == map[d.source := d]
            && s1.defaultSource == Some(e.source) && s1.defaultTranslations == Some(e)
  {
    var xs: Entries := [Some(d), Some(e)];
    var init := Sweep(map[], d.source, s.defaultTranslations, false);
    assert xs[..1] == [Some(d)] && xs[..1][..0] == [];
    var p1 := SweepAll(init, xs[..1]);
    assert p1 == init.(stores := map[d.source := d], found := true);
    assert SweepAll(init, xs) == p1.(defaultSource := e.source, defaultTranslations := Some(e));
  }

  /** `updateTranslations` as documented: whenever the stores are replaced
      the cache is cleared, on every path. */
  function UpdateTranslations(s: Service, entries: Option<Entries>)
    : (r: (Result<(), Exception>, Service))
    requires Valid(s)
    ensures Valid(r.1)
    ensures var (w, t) := UpdateTranslationsAsWritten(s, entries);
            r.0 == w && r.1 == t.(cache := r.1.cache)
    ensures entries.None? ==> r.1 == s
    ensures entries.Some? ==> |r.1.cache.cache| == 0 && r.1.cache.maxSize == s.cache.maxSize
  {
    var (w, t) := UpdateTranslationsAsWritten(s, entries);
    if entries.None? then (w, t) else (w, t.(cache := TranslationCache.Clear(t.cache)))
  }

  /** After the documented update every text lookup reads the new stores. */
  lemma UpdatedLookupsAreFresh(s: Service, entries: Entries, source: LocaleSource, kp: LocaleStore.Provider)
    requires Valid(s) && kp.Some? && kp.value.Some?
    ensures var t := UpdateTranslations(s, Some(entries)).1;
            var a := FindTextOrNull(t, Some(Some(source)), kp).0;
            a == (if source in t.stores then LocaleStore.TextAnswer(t.stores[source], kp) else Success(None))
  {
    var t := UpdateTranslations(s, Some(entries)).1;
    EmptyCacheReadsStores(t, source, kp);
  }

  /** As written, with no default source, a text cached before an update
      is still returned after it, although no store for its locale is
      loaded any more. */
  lemma StaleLookupAfterUpdate(s: Service, entries: Entries, source: LocaleSource, key: Keys.AnyKey,
                               text: Content.Text)
    requires Valid(s) && s.defaultSource.None?
    requires var k := MakeKey(source, key, false);
             k in s.cache.cache && s.cache.cache[k] == TranslationCache.TextValue(text)
    requires LastFor(entries, source).None?
    ensures var t := UpdateTranslationsAsWritten(s, Some(entries)).1;
            source !in t.stores
            && FindTextOrNull(t, Some(Some(source)), Some(Some(key))).0 == Success(Some(text))
  {
  }

  /** `updateDefaultLocaleSource`: only the default source changes. */
  function UpdateDefaultSource(s: Service, sp: SourceProvider): (r: (Result<(), Exception>, Service))
    ensures r.0.Success? <==> sp.Some? && sp.value.Some?
    ensures r.0.Failure? ==> r.0 == Failure(CheckSource(sp).error) && r.1 == s
    ensures r.0.Success? ==> r.1 == s.(defaultSource := sp.value)
  {
    match CheckSource(sp)
    case Failure(e) => (Failure(e), s)
    case Success(source) => (Success(()), s.(defaultSource := Some(source)))
  }

  /** `updateDefaultLocaleTranslations`: the store of the default source
      moves from the map into the default field. */
  function UpdateDefaultTranslations(s: Service): (r: (Result<(), Exception>, Service))
    ensures r.0.Success? <==> s.defaultSource.Some? && s.defaultSource.value in s.stores
    ensures r.0.Failure? ==> r.0.error == LocaleNotSupported && r.1 == s
    ensures r.0.Success? ==>
              var d := s.defaultSource.value;
              r.1 == s.(stores := s.stores - {d}, defaultTranslations := Some(s.stores[d]))
  {
    if s.defaultSource.None? || s.defaultSource.value !in s.stores then (Failure(LocaleNotSupported), s)
    else
      var d := s.defaultSource.value;
      (Success(()), s.(stores := s.stores - {d}, defaultTranslations := Some(s.stores[d])))
  }

  /** `findLocaleTranslationsOrNull`. */
  function FindLocaleTranslationsOrNull(s: Service, sp: SourceProvider)
    : (r: Result<Option<LocaleStore.Translations>, Exception>)
    ensures r.Failure? <==> sp.None? || sp.value.None?
    ensures r.Failure? ==> r.error == CheckSource(sp).error
    ensures r.Success? ==> (r.value.Some? <==> sp.value.value in s.stores)
    ensures r.Success? && r.value.Some? ==> r.value.value == s.stores[sp.value.value]
  {
    match CheckSource(sp)
    case Failure(e) => Failure(e)
    case Success(source) => Success(if source in s.stores then Some(s.stores[source]) else None)
  }

  /** `findLocaleTranslationsOrDefault`: the locale's own store, else the
      default translations, loading them from the map first when only the
      default source is set. */
  function FindLocaleTranslationsOrDefault(s: Service, sp: SourceProvider)
    : (r: (Result<LocaleStore.Translations, Exception>, Service))
    ensures r.0.Failure? ==> r.1 == s
    ensures r.0.Failure? && sp.Some? && sp.value.Some? ==> r.0.error == LocaleNotSupported
    ensures r.0.Success? ==>
              sp.Some? && sp.value.Some?
              && ((sp.value.value in s.stores && r.0.value == s.stores[sp.value.value] && r.1 == s)
                  || r.1.defaultTranslations == Some(r.0.value))
    ensures r.1 == s || (s.defaultTranslations.None? && r.1 == UpdateDefaultTranslations(s).1)
  {
    match FindLocaleTranslationsOrNull(s, sp)
    case Failure(e) => (Failure(e), s)
    case Success(found) =>
      if found.Some? then (Success(found.value), s)
      else if s.defaultTranslations.Some? then (Success(s.defaultTranslations.value), s)
      else if s.defaultSource.None? then (Failure(LocaleNotSupported), s)
      else
        var (res, s1) := UpdateDefaultTranslations(s);
        if res.Failure? then (Failure(res.error), s1)
        else (Success(s1.defaultTranslations.value), s1)
  }

  /** The fallback extends the plain lookup: where the locale has a store
      both agree and nothing changes; a bad provider fails both alike; and
      otherwise the fallback is the default translations, which exist
      exactly when a default source is set and, if they were not loaded
      yet, its store is in the map. */
  lemma FallbackExtendsLookup(s: Service, sp: SourceProvider)
    ensures var plain := FindLocaleTranslationsOrNull(s, sp);
            var (r, s1) := FindLocaleTranslationsOrDefault(s, sp);
            (plain.Failure? ==> r == Failure(plain.error) && s1 == s)
            && (plain.Success? && plain.value.Some? ==> r == Success(plain.value.value) && s1 == s)
            && (plain.Success? && plain.value.None? ==>
                  (r.Success? <==> s.defaultTranslations.Some?
                                   || (s.defaultSource.Some? && s.defaultSource.value in s.stores))
                  && (r.Success? ==> s1.defaultTranslations == Some(r.value)))
  {
  }

  /** `findTextOrDefault`: the store chosen by the fallback answers; an
      absent text throws TranslationKeyNotFoundException. The service cache
      is not used. */
  function FindTextOrDefault(s: Service, sp: SourceProvider, kp: LocaleStore.Provider)
    : (r: (Result<Content.Text, Exception>, Service))
    ensures r.1 == FindLocaleTranslationsOrDefault(s, sp).1
    ensures r.0.Success? ==>
              var store := FindLocaleTranslationsOrDefault(s, sp).0;
              store.Success? && LocaleStore.TextAnswer(store.value, kp) == Success(Some(r.0.value))
    ensures FindLocaleTranslationsOrDefault(s, sp).0.Failure? ==>
              r.0 == Failure(FindLocaleTranslationsOrDefault(s, sp).0.error)
    ensures FindLocaleTranslationsOrDefault(s, sp).0.Success? && (kp.None? || kp.value.None?) ==>
              r.0 == Failure(NullPointer)
    ensures FindLocaleTranslationsOrDefault(s, sp).0.Success? && kp.Some? && kp.value.Some? ==>
              (r.0.Failure? <==> LocaleStore.TextAnswer(FindLocaleTranslationsOrDefault(s, sp).0.value, kp) == Success(None))
              && (r.0.Failure? ==> r.0.error == TranslationKeyNotFound)
  {
    var (found, s1) := FindLocaleTranslationsOrDefault(s, sp);
    if found.Failure? then (Failure(found.error), s1)
    else
      match LocaleStore.TextAnswer(found.value, kp)
      case Failure(e) => (Failure(e), s1)
      case Success(text) =>
        if text.None? then (Failure(TranslationKeyNotFound), s1) else (Success(text.value), s1)
  }

  /** `findMessageOrDefault`: the store chosen by the fallback answers; an
      unknown key or an absent message throws
      TranslationKeyNotFoundException. The service cache is not used. */
  function FindMessageOrDefault(s: Service, sp: SourceProvider, kp: LocaleStore.Provider, keyExists: bool)
    : (r: (Result<Content.Message, Exception>, Service))
    ensures r.1 == FindLocaleTranslationsOrDefault(s, sp).1
    ensures r.0.Success? ==>
              var store := FindLocaleTranslationsOrDefault(s, sp).0;
              store.Success? && LocaleStore.MessageAnswer(store.value, kp, keyExists) == Success(Some(r.0.value))
    ensures FindLocaleTranslationsOrDefault(s, sp).0.Success? && kp.Some? && kp.value.Some? ==>
              (r.0.Failure? <==> !keyExists || LocaleStore.MessageAnswer(FindLocaleTranslationsOrDefault(s, sp).0.value, kp, true) == Success(None))
              && (r.0.Failure? ==> r.0.error == TranslationKeyNotFound)
    ensures FindLocaleTranslationsOrDefault(s, sp).0.Failure? ==>
              r.0 == Failure(FindLocaleTranslationsOrDefault(s, sp).0.error)
    ensures FindLocaleTranslationsOrDefault(s, sp).0.Success? && (kp.None? || kp.value.None?) ==>
              r.0 == Failure(NullPointer)
  {
    var (found, s1) := FindLocaleTranslationsOrDefault(s, sp);
    if found.Failure? then (Failure(found.error), s1)
    else
      match LocaleStore.MessageAnswer(found.value, kp, keyExists)
      case Failure(e) => (Failure(e), s1)
      case Success(message) =>
        if message.None? then (Failure(TranslationKeyNotFound), s1) else (Success(message.value), s1)
  }

  /** `getNumberOfLocales` as written: the map's size, plus one when a
      default source is set. */
  function NumberOfLocalesAsWritten(s: Service): nat {
    |s.stores| + if s.defaultSource.Some? then 1 else 0
  }

  /** The distinct locales the service knows: those with a store and the
      default. */
  function KnownLocales(s: Service): set<LocaleSource> {
    s.stores.Keys + if s.defaultSource.Some? then {s.defaultSource.value} else {}
  }

  /** `getNumberOfLocales` as documented: the number of distinct locales. */
  function NumberOfLocales(s: Service): (r: nat)
    ensures r == |KnownLocales(s)|
    ensures r <= NumberOfLocalesAsWritten(s)
  {
    DistinctAndWrittenCounts(s);
    |KnownLocales(s)|
  }

  /** The two counts differ exactly when the default's store is also in the
      map, where it is counted twice. */
  lemma DistinctAndWrittenCounts(s: Service)
    ensures NumberOfLocalesAsWritten(s) == |KnownLocales(s)|
            + if s.defaultSource.Some? && s.defaultSource.value in s.stores then 1 else 0
  {
    if s.defaultSource.Some? {
      var d := s.defaultSource.value;
      if d in s.stores {
        assert KnownLocales(s) == s.stores.Keys;
      } else {
        assert KnownLocales(s) == s.stores.Keys + {d};
        assert |s.stores.Keys + {d}| == |s.stores.Keys| + 1;
      }
    } else {
      assert KnownLocales(s) == s.stores.Keys;
    }
    assert |s.stores| == |s.stores.Keys|;
  }

  /** After loading the default locale alone, the written count reports two
      locales; the distinct count reports one. */
  lemma DefaultCountedTwice(s: Service, t: LocaleStore.Translations)
    requires Valid(s) && s.defaultSource == Some(t.source)
    ensures var s1 := UpdateTranslationsAsWritten(s, Some([Some(t)])).1;
            NumberOfLocalesAsWritten(s1) == 2 && NumberOfLocales(s1) == 1
  {
    var xs: Entries := [Some(t)];
    assert xs[..0] == [];
    var s1 := UpdateTranslationsAsWritten(s, Some(xs)).1;
    assert s1.stores == map[t.source := t];
    DistinctAndWrittenCounts(s1);
    assert KnownLocales(s1) == {t.source};
  }

  /** Moving the default's store out of the map keeps the distinct count,
      and the written count drops by one. */
  lemma MovingDefaultKeepsCount(s: Service)
    requires s.defaultSource.Some? && s.defaultSource.value in s.stores
    ensures var s1 := UpdateDefaultTranslations(s).1;
            NumberOfLocales(s1) == NumberOfLocales(s)
            && NumberOfLocalesAsWritten(s1) == NumberOfLocalesAsWritten(s) - 1
  {
    var d := s.defaultSource.value;
    var s1 := UpdateDefaultTranslations(s).1;
    assert KnownLocales(s1) == KnownLocales(s);
    assert |s1.stores| == |s.stores| - 1 by {
      assert s1.stores.Keys == s.stores.Keys - {d};
      assert |s1.stores| == |s1.stores.Keys| && |s.stores| == |s.stores.Keys|;
    }
  }

  /** `getNumberOfMessages`: the default store's count, else the count of
      the first store in iteration order, else 0. */
  function NumberOfMessages(s: Service, order: seq<LocaleSource>): (r: nat)
    requires forall source :: source in order <==> source in s.stores
    ensures s.defaultTranslations.Some? ==> r == LocaleStore.NumberOfMessages(s.defaultTranslations.value)
    ensures s.defaultTranslations.None? && |s.stores| == 0 ==> r == 0
    ensures s.defaultTranslations.None? && |s.stores| > 0 ==>
              exists source :: source in s.stores && r == LocaleStore.NumberOfMessages(s.stores[source])
  {
    if s.defaultTranslations.Some? then LocaleStore.NumberOfMessages(s.defaultTranslations.value)
    else if |order| == 0 then
      assert s.stores.Keys == {};
      0
    else
      assert order[0] in s.stores;
      LocaleStore.NumberOfMessages(s.stores[order[0]])
  }

  /** `getNumberOfTexts`, likewise. */
  function NumberOfTexts(s: Service, order: seq<LocaleSource>): (r: nat)
    requires forall source :: source in order <==> source in s.stores
    ensures s.defaultTranslations.Some? ==> r == LocaleStore.NumberOfTexts(s.defaultTranslations.value)
    ensures s.defaultTranslations.None? && |s.stores| == 0 ==> r == 0
    ensures s.defaultTranslations.None? && |s.stores| > 0 ==>
              exists source :: source in s.stores && r == LocaleStore.NumberOfTexts(s.stores[source])
  {
    if s.defaultTranslations.Some? then LocaleStore.NumberOfTexts(s.defaultTranslations.value)
    else if |order| == 0 then
      assert s.stores.Keys == {};
      0
    else
      assert order[0] in s.stores;
      LocaleStore.NumberOfTexts(s.stores[order[0]])
  }

  /** `clear`: no stores, no default, an empty cache. */
  function Clear(s: Service): (r: Service)
    requires Valid(s)
    ensures Valid(r) && r.cache.maxSize == s.cache.maxSize && r.mode == s.mode && r.manualSize == s.manualSize
    ensures r.stores == map[] && r.defaultSource.None? && r.defaultTranslations.None?
  {
    s.(stores := map[], defaultSource := None, defaultTranslations := None,
       cache := TranslationCache.Clear(s.cache))
  }

  /** After `clear` the service knows no locale, finds no text and has no
      fallback. */
  lemma ClearForgetsEverything(s: Service, source: LocaleSource, key: Keys.AnyKey)
    requires Valid(s)
    ensures var c := Clear(s);
            NumberOfLocalesAsWritten(c) == 0
            && FindTextOrNull(c, Some(Some(source)), Some(Some(key))).0 == Success(None)
            && FindLocaleTranslationsOrDefault(c, Some(Some(source))).0 == Failure(LocaleNotSupported)
  {
    var c := Clear(s);
    EmptyCacheReadsStores(c, source, Some(Some(key)));
  }
}
