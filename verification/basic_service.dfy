/** `BasicTranslationService`: the older service, with a locale map and a
    default locale but no cache. */
module BasicService {
  import opened Wrappers
  import opened CacheKeys
  import Content
  import LocaleStore
  import opened Loading

  datatype Service = Service(
    stores: Stores,
    defaultSource: Option<LocaleSource>,
    defaultTranslations: Option<LocaleStore.Translations>)

  /** The constructors: the source, which may be null, becomes the default. */
  function New(source: Option<LocaleSource>): Service {
    Service(map[], source, None)
  }

  /** `updateTranslations`. The map is emptied first; a null collection then
      throws NullPointerException, and so does the first null entry, which
      the loop dereferences, leaving the entries before it loaded. With no
      default source every entry goes into the map under its own source;
      with one, the with-default loop runs and nothing else throws. */
  function UpdateTranslations(s: Service, entries: Option<Entries>): (r: (Result<(), Exception>, Service))
    ensures entries.None? ==> r.0 == Failure(NullPointer) && r.1 == s.(stores := map[])
    ensures entries.Some? ==>
              (r.0.Success? <==> forall i :: 0 <= i < |entries.value| ==> entries.value[i].Some?)
    ensures r.0.Failure? ==> r.0.error == NullPointer
    ensures entries.Some? && s.defaultSource.None? ==>
              r.1 == s.(stores := LoadAll(UpToNull(entries.value)))
    ensures entries.Some? && s.defaultSource.Some? ==>
              var p := SweepAll(Sweep(map[], s.defaultSource.value, s.defaultTranslations, false),
                                UpToNull(entries.value));
              r.1 == Service(p.stores, Some(p.defaultSource), p.defaultTranslations)
  {
    if entries.None? then (Failure(NullPointer), s.(stores := map[]))
    else
      var xs := UpToNull(entries.value);
      var result := if |xs| < |entries.value| then Failure(NullPointer) else Success(());
      if s.defaultSource.None? then (result, s.(stores := LoadAll(xs)))
      else
        var p := SweepAll(Sweep(map[], s.defaultSource.value, s.defaultTranslations, false), xs);
        (result, Service(p.stores, Some(p.defaultSource), p.defaultTranslations))
  }

  /** With no default source and no null entry, the map holds exactly the
      supplied stores, the last one for each source. */
  lemma UpdateWithoutDefaultLoadsAll(s: Service, xs: Entries)
    requires s.defaultSource.None?
    requires forall i :: 0 <= i < |xs| ==> xs[i].Some?
    ensures var (r, s1) := UpdateTranslations(s, Some(xs));
            r.Success?
            && (forall i :: 0 <= i < |xs| ==> xs[i].value.source in s1.stores)
            && (forall source :: source in s1.stores ==> Some(s1.stores[source]) == LastFor(xs, source))
  {
    assert UpToNull(xs) == xs;
    forall i | 0 <= i < |xs|
      ensures LastFor(xs, xs[i].value.source).Some?
    {
      LastForFinds(xs, i);
    }
  }

  /** An entry for a source makes the last entry for it exist. */
  lemma {:induction false} LastForFinds(xs: Entries, i: int)
    requires 0 <= i < |xs| && xs[i].Some?
    ensures LastFor(xs, xs[i].value.source).Some?
    decreases |xs|
  {
    if i < |xs| - 1 {
      var last := xs[|xs| - 1];
      if !(last.Some? && last.value.source == xs[i].value.source) {
        assert xs[..|xs| - 1][i] == xs[i];
        LastForFinds(xs[..|xs| - 1], i);
      }
    }
  }

  /** With a default source set, an update never leaves the default source
      unset, and the default source afterwards is the source of the last
      non-null entry, whether it matched the default or not. */
  lemma UpdateWithDefaultFollowsLastEntry(s: Service, xs: Entries)
    requires s.defaultSource.Some?
    requires forall i :: 0 <= i < |xs| ==> xs[i].Some?
    requires |xs| > 0
    ensures var (r, s1) := UpdateTranslations(s, Some(xs));
            r.Success? && s1.defaultSource == Some(xs[|xs| - 1].value.source)
  {
    assert UpToNull(xs) == xs;
  }

  /** `checkLocaleSource`: a null provider throws NullPointerException, a
      null locale source a plain RuntimeException. */
  function CheckSource(sp: SourceProvider): (r: Result<LocaleSource, Exception>)
    ensures r.Success? <==> sp.Some? && sp.value.Some?
    ensures sp.None? ==> r == Failure(NullPointer)
    ensures sp.Some? && sp.value.None? ==> r == Failure(Runtime)
    ensures r.Success? ==> r.value == sp.value.value
  {
    if sp.None? then Failure(NullPointer)
    else if sp.value.None? then Failure(Runtime)
    else Success(sp.value.value)
  }

  /** `updateDefaultLocaleSource`. */
  function UpdateDefaultSource(s: Service, sp: SourceProvider): (r: (Result<(), Exception>, Service))
    ensures r.0.Success? <==> sp.Some? && sp.value.Some?
    ensures r.0.Failure? ==> r.1 == s && (r.0.error == NullPointer || r.0.error == Runtime)
    ensures r.0.Success? ==> r.1 == s.(defaultSource := sp.value)
  {
    match CheckSource(sp)
    case Failure(e) => (Failure(e), s)
    case Success(source) => (Success(()), s.(defaultSource := Some(source)))
  }

  /** `updateDefaultLocaleTranslations`: throws iff no default source is
      set, and changes nothing either way. */
  function UpdateDefaultTranslations(s: Service): (r: Result<(), Exception>)
    ensures r.Failure? <==> s.defaultSource.None?
    ensures r.Failure? ==> r.error == Runtime
  {
    if s.defaultSource.None? then Failure(Runtime) else Success(())
  }

  /** `findLocaleTranslationsOrNull`. */
  function FindLocaleTranslationsOrNull(s: Service, sp: SourceProvider)
    : (r: Result<Option<LocaleStore.Translations>, Exception>)
    ensures r.Failure? <==> sp.None? || sp.value.None?
    ensures r.Success? ==> (r.value.Some? <==> sp.value.value in s.stores)
    ensures r.Success? && r.value.Some? ==> r.value.value == s.stores[sp.value.value]
  {
    match CheckSource(sp)
    case Failure(e) => Failure(e)
    case Success(source) => Success(if source in s.stores then Some(s.stores[source]) else None)
  }

  /** `findTextOrNull`: a locale without a store answers null before the
      key provider is looked at; otherwise the key is checked and the store
      answers. */
  function FindTextOrNull(s: Service, sp: SourceProvider, kp: LocaleStore.Provider)
    : (r: Result<Option<Content.Text>, Exception>)
    ensures FindLocaleTranslationsOrNull(s, sp).Failure? ==> r == Failure(FindLocaleTranslationsOrNull(s, sp).error)
    ensures sp.Some? && sp.value.Some? && sp.value.value !in s.stores ==> r == Success(None)
    ensures sp.Some? && sp.value.Some? && sp.value.value in s.stores ==>
              r == LocaleStore.TextAnswer(s.stores[sp.value.value], kp)
  {
    match FindLocaleTranslationsOrNull(s, sp)
    case Failure(e) => Failure(e)
    case Success(store) =>
      if store.None? then Success(None)
      else
        match LocaleStore.KeyOf(kp)
        case Failure(e) => Failure(e)
        case Success(key) => LocaleStore.TextAnswer(store.value, Some(Some(key)))
  }

  /** `findMessageOrNull`, likewise. */
  function FindMessageOrNull(s: Service, sp: SourceProvider, kp: LocaleStore.Provider, keyExists: bool)
    : (r: Result<Option<Content.Message>, Exception>)
    ensures FindLocaleTranslationsOrNull(s, sp).Failure? ==> r == Failure(FindLocaleTranslationsOrNull(s, sp).error)
    ensures sp.Some? && sp.value.Some? && sp.value.value !in s.stores ==> r == Success(None)
    ensures sp.Some? && sp.value.Some? && sp.value.value in s.stores ==>
              r == LocaleStore.MessageAnswer(s.stores[sp.value.value], kp, keyExists)
  {
    match FindLocaleTranslationsOrNull(s, sp)
    case Failure(e) => Failure(e)
    case Success(store) =>
      if store.None? then Success(None)
      else
        match LocaleStore.KeyOf(kp)
        case Failure(e) => Failure(e)
        case Success(key) => LocaleStore.MessageAnswer(store.value, Some(Some(key)), keyExists)
  }

  /** A null key provider goes unnoticed when the locale has no store. */
  lemma UnknownLocaleSkipsKeyCheck(s: Service, source: LocaleSource)
    requires source !in s.stores
    ensures FindTextOrNull(s, Some(Some(source)), None) == Success(None)
    ensures FindMessageOrNull(s, Some(Some(source)), None, false) == Success(None)
  {
  }

  /** `findLocaleTranslationsOrDefault`: the locale's own store, else the
      default translations; TranslationException only when neither default
      field is set; null when only the default source is. */
  function FindLocaleTranslationsOrDefault(s: Service, sp: SourceProvider)
    : (r: Result<Option<LocaleStore.Translations>, Exception>)
    ensures FindLocaleTranslationsOrNull(s, sp).Failure? ==> r == FindLocaleTranslationsOrNull(s, sp)
    ensures FindLocaleTranslationsOrNull(s, sp) == Success(None) ==>
              if s.defaultTranslations.None? && s.defaultSource.None? then r == Failure(TranslationFailure)
              else r == Success(s.defaultTranslations)
  {
    match FindLocaleTranslationsOrNull(s, sp)
    case Failure(e) => Failure(e)
    case Success(found) =>
      if found.Some? then Success(found)
      else if s.defaultTranslations.Some? then Success(s.defaultTranslations)
      else if s.defaultSource.None? then Failure(TranslationFailure)
      else
        match UpdateDefaultTranslations(s)
        case Failure(e) => Failure(e)
        case Success(_) => Success(s.defaultTranslations)
  }

  /** The fallback answers null exactly when the locale has no store, no
      default translations are loaded and only the default source is set. */
  lemma FallbackNullIff(s: Service, source: LocaleSource)
    ensures FindLocaleTranslationsOrDefault(s, Some(Some(source))) == Success(None)
            <==> source !in s.stores && s.defaultTranslations.None? && s.defaultSource.Some?
  {
  }

  /** `findTextOrDefault`: a null from the fallback is dereferenced
      (NullPointerException); otherwise the chosen store answers, null
      included. */
  function FindTextOrDefault(s: Service, sp: SourceProvider, kp: LocaleStore.Provider)
    : (r: Result<Option<Content.Text>, Exception>)
    ensures FindLocaleTranslationsOrDefault(s, sp) == Success(None) ==> r == Failure(NullPointer)
    ensures FindLocaleTranslationsOrDefault(s, sp).Success? && FindLocaleTranslationsOrDefault(s, sp).value.Some? ==>
              r == LocaleStore.TextAnswer(FindLocaleTranslationsOrDefault(s, sp).value.value, kp)
    ensures FindLocaleTranslationsOrDefault(s, sp).Failure? ==> r.Failure?
  {
    match FindLocaleTranslationsOrDefault(s, sp)
    case Failure(e) => Failure(e)
    case Success(store) =>
      if store.None? then Failure(NullPointer) else LocaleStore.TextAnswer(store.value, kp)
  }

  /** `findMessageOrDefault`, likewise. */
  function FindMessageOrDefault(s: Service, sp: SourceProvider, kp: LocaleStore.Provider, keyExists: bool)
    : (r: Result<Option<Content.Message>, Exception>)
    ensures FindLocaleTranslationsOrDefault(s, sp) == Success(None) ==> r == Failure(NullPointer)
    ensures FindLocaleTranslationsOrDefault(s, sp).Success? && FindLocaleTranslationsOrDefault(s, sp).value.Some? ==>
              r == LocaleStore.MessageAnswer(FindLocaleTranslationsOrDefault(s, sp).value.value, kp, keyExists)
    ensures FindLocaleTranslationsOrDefault(s, sp).Failure? ==> r.Failure?
  {
    match FindLocaleTranslationsOrDefault(s, sp)
    case Failure(e) => Failure(e)
    case Success(store) =>
      if store.None? then Failure(NullPointer) else LocaleStore.MessageAnswer(store.value, kp, keyExists)
  }

  /** `getNumberOfLocales`: the map's size, plus one for a default source. */
  function NumberOfLocales(s: Service): nat {
    |s.stores| + if s.defaultSource.Some? then 1 else 0
  }

  /** `getNumberOfMessages` and `getNumberOfTexts` both return the size of
      the map. */
  function NumberOfMessages(s: Service): nat {
    |s.stores|
  }

  function NumberOfTexts(s: Service): nat {
    |s.stores|
  }

  /** The message and text counts are counts of locales: replacing a
      locale's store by any other store changes neither, and both fall
      short of the locale count by exactly the default source. */
  lemma CountsIgnoreContents(s: Service, source: LocaleSource, t: LocaleStore.Translations)
    requires source in s.stores
    ensures var s1 := s.(stores := s.stores[source := t]);
            NumberOfMessages(s1) == NumberOfMessages(s) && NumberOfTexts(s1) == NumberOfTexts(s)
    ensures NumberOfMessages(s) == NumberOfTexts(s)
            == NumberOfLocales(s) - (if s.defaultSource.Some? then 1 else 0)
  {
    assert s.stores[source := t].Keys == s.stores.Keys;
    assert |s.stores[source := t]| == |s.stores[source := t].Keys|;
    assert |s.stores| == |s.stores.Keys|;
  }

  /** `clear`: no stores and no default. */
  function Clear(s: Service): (r: Service)
    ensures NumberOfLocales(r) == 0 && NumberOfMessages(r) == 0 && NumberOfTexts(r) == 0
    ensures forall sp :: FindLocaleTranslationsOrDefault(r, sp).Failure?
  {
    Service(map[], None, None)
  }
}
