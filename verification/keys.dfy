/** The two translation-key registries. Each maps a normalised key name to
    its key and hands out ordinals from a counter; here both are explicit
    state threaded through the calls. Keys compare and hash by ordinal, and
    only within their own class. */
module Keys {
  import opened Wrappers
  import JavaLang

  /** `BasicTranslationKey`: a name and an ordinal. */
  datatype BasicKey = BasicKey(name: string, ordinal: int)

  /** `DefaultTranslationKey`: an ordinal only. */
  datatype DefaultKey = DefaultKey(ordinal: int)

  /** A key of either class, as `equals(Object)` sees it. */
  datatype AnyKey = Basic(basic: BasicKey) | Default(default: DefaultKey)

  /** The name both registries look a key up by: `trim`, then upper case
      with the English locale. */
  function Normalize(content: string): string {
    JavaLang.ToUpper(JavaLang.Trim(content))
  }

  /** Normalizing a normalized name changes nothing. */
  lemma NormalizeIdempotent(content: string)
    ensures Normalize(Normalize(content)) == Normalize(content)
  {
    var t := JavaLang.Trim(content);
    JavaLang.TrimIdempotent(content);
    JavaLang.TrimUpperCommute(t);
    assert JavaLang.Trim(JavaLang.ToUpper(t)) == JavaLang.ToUpper(t);
    JavaLang.ToUpperIdempotent(t);
  }

  /** The checks both `of` methods make before normalizing. */
  function CheckContent(content: Option<string>): (r: Result<string, Exception>)
    ensures r.Success? <==> content.Some? && |content.value| > 0
    ensures r.Success? ==> r.value == content.value
    ensures r.Failure? ==> r.error == (if content.None? then NullPointer else IllegalArgument)
  {
    if content.None? then Failure(NullPointer)
    else if |content.value| == 0 then Failure(IllegalArgument)
    else Success(content.value)
  }

  /** Content of spaces only passes the checks and names the key "". */
  lemma BlankContentIsEmptyName()
    ensures CheckContent(Some("  ")).Success?
    ensures Normalize("  ") == ""
  {
    assert JavaLang.TrimStart("  ", 2) == 2;
    assert JavaLang.TrimStart("  ", 1) == 2;
  }

  // ---------------------------------------------------------------------
  // BasicTranslationKey

  datatype BasicRegistry = BasicRegistry(keys: map<string, BasicKey>, counter: int)

  /** Every registered key carries its own name and an ordinal below the
      counter, and no two registered keys share an ordinal. */
  ghost predicate ValidBasic(reg: BasicRegistry) {
    0 <= reg.counter
    && (forall n :: n in reg.keys ==> reg.keys[n].name == n && 0 <= reg.keys[n].ordinal < reg.counter)
    && (forall n, m :: n in reg.keys && m in reg.keys && n != m ==> reg.keys[n].ordinal != reg.keys[m].ordinal)
  }

  /** The empty registry the class starts with. */
  function EmptyBasic(): (r: BasicRegistry)
    ensures ValidBasic(r)
  {
    BasicRegistry(map[], 0)
  }

  /** `new BasicTranslationKey(name)`: takes the next ordinal without
      registering the key. */
  function NewBasicKey(reg: BasicRegistry, name: string): (r: (BasicKey, BasicRegistry))
    requires ValidBasic(reg)
    ensures r.0 == BasicKey(name, reg.counter)
    ensures r.1.keys == reg.keys && r.1.counter == reg.counter + 1 && ValidBasic(r.1)
  {
    (BasicKey(name, reg.counter), reg.(counter := reg.counter + 1))
  }

  /** `BasicTranslationKey.of(content, denyCreations)`. */
  function BasicOf(reg: BasicRegistry, content: Option<string>, denyCreations: bool)
    : (r: (Result<BasicKey, Exception>, BasicRegistry))
    requires ValidBasic(reg)
    ensures ValidBasic(r.1)
    ensures r.1.keys.Keys >= reg.keys.Keys
    ensures forall n :: n in reg.keys ==> r.1.keys[n] == reg.keys[n]
    ensures r.0.Failure? ==> r.1 == reg
    ensures content.None? ==> r.0 == Failure(NullPointer)
    ensures content == Some("") ==> r.0 == Failure(IllegalArgument)
    ensures content.Some? && |content.value| > 0 ==>
              var name := Normalize(content.value);
              if name in reg.keys then r.0 == Success(reg.keys[name]) && r.1 == reg
              else if denyCreations then r.0 == Failure(IllegalState)
              else r.0 == Success(BasicKey(name, reg.counter))
                   && r.1.keys == reg.keys[name := BasicKey(name, reg.counter)]
                   && r.1.counter == reg.counter + 1
  {
    match CheckContent(content)
    case Failure(e) => (Failure(e), reg)
    case Success(c) =>
      var name := Normalize(c);
      if name in reg.keys then (Success(reg.keys[name]), reg)
      else if denyCreations then (Failure(IllegalState), reg)
      else
        var key := BasicKey(name, reg.counter);
        (Success(key), BasicRegistry(reg.keys[name := key], reg.counter + 1))
  }

  /** `equals` and `hashCode` of either class: same class and same ordinal;
      the hash is the ordinal. */
  predicate KeyEquals(a: AnyKey, b: AnyKey) {
    match (a, b)
    case (Basic(x), Basic(y)) => x.ordinal == y.ordinal
    case (Default(x), Default(y)) => x.ordinal == y.ordinal
    case _ => false
  }

  function KeyHash(a: AnyKey): int {
    if a.Basic? then a.basic.ordinal else a.default.ordinal
  }

  /** What `equals` looks at: the class of the key and its ordinal. Maps
      keyed by translation keys are keyed by this. */
  datatype KeyIdentity = KeyIdentity(isBasic: bool, ordinal: int)

  function Identity(k: AnyKey): (r: KeyIdentity)
    ensures r.isBasic == k.Basic? && r.ordinal == KeyHash(k)
  {
    KeyIdentity(k.Basic?, KeyHash(k))
  }

  /** Two keys are equal exactly when their identities are. */
  lemma IdentityIsEquality(a: AnyKey, b: AnyKey)
    ensures KeyEquals(a, b) <==> Identity(a) == Identity(b)
  {
  }

  /** Keys of the two classes never compare equal, and equal keys hash
      equally. */
  lemma KeyEqualsConsistent(a: AnyKey, b: AnyKey)
    ensures KeyEquals(a, b) ==> KeyHash(a) == KeyHash(b)
    ensures a.Basic? != b.Basic? ==> !KeyEquals(a, b)
    ensures KeyEquals(a, b) == KeyEquals(b, a)
  {
  }

  /** Two lookups whose contents normalize alike give equal keys, and the
      first call settles the registry for the second. */
  lemma BasicSameName(reg: BasicRegistry, c1: string, c2: string)
    requires ValidBasic(reg)
    requires |c1| > 0 && |c2| > 0 && Normalize(c1) == Normalize(c2)
    ensures var (k1, reg1) := BasicOf(reg, Some(c1), false);
            var (k2, reg2) := BasicOf(reg1, Some(c2), false);
            k1.Success? && k2.Success? && k1.value == k2.value && reg2 == reg1
  {
  }

  /** Keys the registry holds are equal exactly when their names are. */
  lemma BasicEqualsIsSameName(reg: BasicRegistry, n: string, m: string)
    requires ValidBasic(reg) && n in reg.keys && m in reg.keys
    ensures KeyEquals(Basic(reg.keys[n]), Basic(reg.keys[m])) <==> n == m
  {
  }

  // ---------------------------------------------------------------------
  // DefaultTranslationKey

  datatype DefaultRegistry = DefaultRegistry(keys: map<string, DefaultKey>, counter: int)

  ghost predicate ValidDefault(reg: DefaultRegistry) {
    0 <= reg.counter
    && (forall n :: n in reg.keys ==> 0 <= reg.keys[n].ordinal < reg.counter)
    && (forall n, m :: n in reg.keys && m in reg.keys && n != m ==> reg.keys[n].ordinal != reg.keys[m].ordinal)
  }

  function EmptyDefault(): (r: DefaultRegistry)
    ensures ValidDefault(r)
  {
    DefaultRegistry(map[], 0)
  }

  /** `new DefaultTranslationKey()`: the next ordinal, not registered. */
  function NewDefaultKey(reg: DefaultRegistry): (r: (DefaultKey, DefaultRegistry))
    requires ValidDefault(reg)
    ensures r.0 == DefaultKey(reg.counter)
    ensures r.1.keys == reg.keys && r.1.counter == reg.counter + 1 && ValidDefault(r.1)
  {
    (DefaultKey(reg.counter), reg.(counter := reg.counter + 1))
  }

  /** `DefaultTranslationKey.of(content, denyCreations)`: with
      `denyCreations` a lookup that throws when the name is unknown;
      otherwise `computeIfAbsent`. */
  function DefaultOf(reg: DefaultRegistry, content: Option<string>, denyCreations: bool)
    : (r: (Result<DefaultKey, Exception>, DefaultRegistry))
    requires ValidDefault(reg)
    ensures ValidDefault(r.1)
    ensures r.1.keys.Keys >= reg.keys.Keys
    ensures forall n :: n in reg.keys ==> r.1.keys[n] == reg.keys[n]
    ensures r.0.Failure? ==> r.1 == reg
    ensures content.None? ==> r.0 == Failure(NullPointer)
    ensures content == Some("") ==> r.0 == Failure(IllegalArgument)
    ensures content.Some? && |content.value| > 0 ==>
              var name := Normalize(content.value);
              if name in reg.keys then r.0 == Success(reg.keys[name]) && r.1 == reg
              else if denyCreations then r.0 == Failure(IllegalState)
              else r.0 == Success(DefaultKey(reg.counter))
                   && r.1.keys == reg.keys[name := DefaultKey(reg.counter)]
                   && r.1.counter == reg.counter + 1
  {
    match CheckContent(content)
    case Failure(e) => (Failure(e), reg)
    case Success(c) =>
      var name := Normalize(c);
      if denyCreations then
        if name in reg.keys then (Success(reg.keys[name]), reg) else (Failure(IllegalState), reg)
      else ComputeIfAbsent(reg, name)
  }

  /** `KEYS.computeIfAbsent(name, k -> new DefaultTranslationKey())`. */
  function ComputeIfAbsent(reg: DefaultRegistry, name: string): (r: (Result<DefaultKey, Exception>, DefaultRegistry))
    requires ValidDefault(reg)
    ensures ValidDefault(r.1) && r.0.Success? && name in r.1.keys && r.0.value == r.1.keys[name]
    ensures name in reg.keys ==> r.1 == reg
    ensures name !in reg.keys ==> r.1.keys == reg.keys[name := DefaultKey(reg.counter)] && r.1.counter == reg.counter + 1
  {
    if name in reg.keys then (Success(reg.keys[name]), reg)
    else
      var (key, next) := NewDefaultKey(reg);
      (Success(key), next.(keys := next.keys[name := key]))
  }

  /** The registries are separate: creating a key in one leaves the other
      alone, and a key from one never equals a key from the other. */
  lemma RegistriesSeparate(b: BasicRegistry, d: DefaultRegistry, content: string)
    requires ValidBasic(b) && ValidDefault(d) && |content| > 0
    ensures var (bk, _) := BasicOf(b, Some(content), false);
            var (dk, _) := DefaultOf(d, Some(content), false);
            bk.Success? && dk.Success? && !KeyEquals(Basic(bk.value), Default(dk.value))
  {
  }

  // ---------------------------------------------------------------------
  // toString of DefaultTranslationKey

  function Digit(d: int): char
    requires 0 <= d < 10
  {
    "0123456789"[d]
  }

  /** The decimal digits of a natural number, most significant first. */
  function Digits(n: nat): (r: string)
    ensures |r| > 0 && forall k :: 0 <= k < |r| ==> '0' <= r[k] <= '9'
  {
    if n < 10 then [Digit(n)] else Digits(n / 10) + [Digit(n % 10)]
  }

  /** `String.valueOf(ordinal)`. */
  function DefaultKeyString(k: DefaultKey): (r: string)
    ensures |r| > 0
    ensures (r[0] == '-') <==> k.ordinal < 0
  {
    if k.ordinal < 0 then "-" + Digits(-k.ordinal) else Digits(k.ordinal)
  }

  /** Reads decimal digits back. */
  function DigitsValue(s: string): int
    requires forall k :: 0 <= k < |s| ==> '0' <= s[k] <= '9'
  {
    if |s| == 0 then 0 else 10 * DigitsValue(s[..|s| - 1]) + (s[|s| - 1] as int - '0' as int)
  }

  function ParseInt(s: string): int
    requires |s| > 0 && forall k :: (if s[0] == '-' then 1 else 0) <= k < |s| ==> '0' <= s[k] <= '9'
  {
    if s[0] == '-' then -DigitsValue(s[1..]) else DigitsValue(s)
  }

  lemma {:induction false} DigitsRoundTrip(n: nat)
    ensures DigitsValue(Digits(n)) == n
  {
    if n >= 10 {
      var d := Digits(n / 10) + [Digit(n % 10)];
      assert d[..|d| - 1] == Digits(n / 10);
      DigitsRoundTrip(n / 10);
    }
  }

  /** The string form of a key gives its ordinal back, so distinct ordinals
      print differently. */
  lemma KeyStringRoundTrip(k: DefaultKey)
    ensures var s := DefaultKeyString(k);
            (forall j :: (if s[0] == '-' then 1 else 0) <= j < |s| ==> '0' <= s[j] <= '9')
            && ParseInt(s) == k.ordinal
  {
    if k.ordinal < 0 {
      DigitsRoundTrip(-k.ordinal);
      assert ("-" + Digits(-k.ordinal))[1..] == Digits(-k.ordinal);
    } else {
      DigitsRoundTrip(k.ordinal);
    }
  }
}
