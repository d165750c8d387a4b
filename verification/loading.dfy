/** The loops both services run over the collection handed to
    `updateTranslations`, and the provider shapes they share. */
module Loading {
  import opened Wrappers
  import opened CacheKeys
  import LocaleStore

  /** A `LocaleSourceProvider` argument: `None` for a null provider,
      `Some(None)` for a provider whose locale source is null. */
  type SourceProvider = Option<Option<LocaleSource>>

  /** The collection handed to `updateTranslations`; `None` elements are
      null entries. */
  type Entries = seq<Option<LocaleStore.Translations>>

  type Stores = map<LocaleSource, LocaleStore.Translations>

  /** The stores the no-default branch of `updateTranslations` builds from
      the first entries: every non-null entry under its own source. */
  function LoadAll(xs: Entries): (r: Stores)
    ensures forall source :: source in r <==> LastFor(xs, source).Some?
    ensures forall source :: source in r ==> Some(r[source]) == LastFor(xs, source)
    decreases |xs|
  {
    if |xs| == 0 then map[]
    else
      var loaded := LoadAll(xs[..|xs| - 1]);
      var x := xs[|xs| - 1];
      if x.None? then loaded else loaded[x.value.source := x.value]
  }

  /** The last non-null entry for a source: the one a later `put` leaves in
      the map. */
  function LastFor(xs: Entries, source: LocaleSource): (r: Option<LocaleStore.Translations>)
    ensures r.Some? ==> r.value.source == source && r in xs
    decreases |xs|
  {
    if |xs| == 0 then None
    else if xs[|xs| - 1].Some? && xs[|xs| - 1].value.source == source then xs[|xs| - 1]
    else LastFor(xs[..|xs| - 1], source)
  }

  /** The state of the with-default loop of `updateTranslations`. */
  datatype Sweep = Sweep(
    stores: Stores,
    defaultSource: LocaleSource,
    defaultTranslations: Option<LocaleStore.Translations>,
    found: bool)

  /** The with-default loop over the first entries: an entry for the
      current default source goes into the map; any other entry becomes the
      default translations and its source the default source. */
  function SweepAll(init: Sweep, xs: Entries): (r: Sweep)
    ensures !r.found ==> !init.found && r.stores == init.stores
    ensures forall source :: source in r.stores ==> source in init.stores || LastFor(xs, source).Some?
    ensures LastEntry(xs).Some? ==> r.defaultSource == LastEntry(xs).value.source
    ensures LastEntry(xs).None? ==> r == init
    decreases |xs|
  {
    if |xs| == 0 then init
    else
      var p := SweepAll(init, xs[..|xs| - 1]);
      var x := xs[|xs| - 1];
      if x.None? then p
      else if x.value.source == p.defaultSource then
        p.(stores := p.stores[x.value.source := x.value], found := true)
      else p.(defaultSource := x.value.source, defaultTranslations := x)
  }

  /** The last non-null entry. */
  function LastEntry(xs: Entries): (r: Option<LocaleStore.Translations>)
    ensures r.Some? ==> r in xs
    decreases |xs|
  {
    if |xs| == 0 then None
    else if xs[|xs| - 1].Some? then xs[|xs| - 1]
    else LastEntry(xs[..|xs| - 1])
  }

  /** The entries before the first null one: how far a loop gets that
      dereferences every entry. */
  function UpToNull(xs: Entries): (r: Entries)
    ensures |r| <= |xs| && r == xs[..|r|]
    ensures forall i :: 0 <= i < |r| ==> r[i].Some?
    ensures |r| < |xs| ==> xs[|r|].None?
  {
    if |xs| == 0 || xs[0].None? then []
    else [xs[0]] + UpToNull(xs[1..])
  }
}
