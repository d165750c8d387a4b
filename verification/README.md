# boujee translation core, modelled in Dafny

This project models the core of the boujee internationalisation library.
Boujee loads translation files into per-locale stores and looks up texts and
messages by translation key. It has a fallback to a default locale and a
bounded recency cache in front of the stores. Placeholders in the looked-up
content are substituted.

The model is a set of pure functions and a few methods over immutable
datatypes. Each Java object becomes a value; each mutating Java method
becomes a function from the old state to the result and the new state.
Java's `null` is `Option.None`. An exception is a `Result.Failure` carrying
the exception's class.

The modules follow the library's structure:

- `Characters` is the `char[]` replacement engine. It holds reference
  functions for the search, the count and the replacement. It also holds the
  search and count loops of the Java code, proved to compute those
  functions, and a corrected copy of the replacement loop (`FillLoop`),
  whose offsets are the intended ones rather than those of the code.
- `CharactersAsWritten` is the same `replace` exactly as the Java code
  computes it, with concrete inputs on which the two differ.
- `Strings` is the bracket detector.
- `Content` covers texts and messages: construction, defensive copies,
  equality, hashing, the cached string form and placeholder replacement.
- `ContentReplacer` and `LegacyReplacer` are the two placeholder builders.
- `Keys` covers the two translation-key registries and key equality.
- `CacheKeys` and `TranslationCache` are the service cache: its key, the
  bound, the recency queue and the hit and miss counters.
- `LocaleStore` is the per-locale store with its small inner caches.
- `Loading` holds the loops both services run when new translations arrive.
- `DefaultService` and `BasicService` are the two translation services.
- `Flatten` covers the two JSON readers, Gson and kotlinx.serialization,
  which turn a parsed document into a flat key-to-content map.
- `Locales` is the locale tag parser.
- `JavaLang` holds the JDK behaviour the code relies on: `int` wrap-around,
  `System.arraycopy`, `trim`, English upper-casing, `split("[_-]")` and
  Kotlin's `isBlank`.

Where the code and its documentation disagree, the model follows the code.
Where the code evidently does not do what was meant, the `...AsWritten`
members and the lemmas next to them show the difference, "## Findings" lists
it, and the corrected reading is modelled as well and used by the rest of
the model. One disagreement is modelled as written only, and "## Left out"
says why: the message and text counts of both services, which the interface
documents as totals across all locales.

Four dependencies are passed in as parameters rather than modelled:

- Whether a key exists in the key registry is a `keyExists` flag.
- The iteration order of a hash map is a sequence.
- The memory-based cache-size estimate is an integer.
- A locale source is an object identity with an identity hash.

## Model

| member | source | states |
|---|---|---|
| Characters.IndexOf | core/src/main/java/me/kvdpxne/boujee/replace/Characters.java:26-54 | the search answers -1 or a position at or after the offset where the whole pattern fits |
| Characters.IndexOfSpec | core/src/main/java/me/kvdpxne/boujee/replace/Characters.java:26-54 | the search returns -1 exactly when no occurrence starts at or after the offset, and otherwise the leftmost occurrence |
| Characters.IndexOfLoop | core/src/main/java/me/kvdpxne/boujee/replace/Characters.java:26-54 | the skip-then-compare loop of `_indexOf` returns exactly the leftmost occurrence from the offset |
| Characters.CountLoop | core/src/main/java/me/kvdpxne/boujee/replace/Characters.java:62-72 | `_count` returns the number of non-overlapping occurrences after the one at `first`, each search resuming past the previous match |
| Characters.CountFromBound | core/src/main/java/me/kvdpxne/boujee/replace/Characters.java:95-98 | non-overlapping occurrences each use pattern-length characters, so the count times the pattern length never exceeds the text scanned |
| Characters.ReplaceFromLength | core/src/main/java/me/kvdpxne/boujee/replace/Characters.java:100-105 | the result is longer than the text by (replacement length minus pattern length) for each occurrence rewritten, with the rewrites bounded by the limit |
| Characters.ReplaceAllLength | core/src/main/java/me/kvdpxne/boujee/replace/Characters.java:100-105 | with no limit, the result length is the source length plus count times (replacement length minus search length), the buffer size the code allocates |
| Characters.ReplaceFromIdentity | core/src/main/java/me/kvdpxne/boujee/replace/Characters.java:150-156 | replacing a pattern by itself leaves the text unchanged, under any limit |
| Characters.FillLoop | core/src/main/java/me/kvdpxne/boujee/replace/Characters.java:112-128 | the copying loop writes the gaps and replacements into the buffer so that the buffer prefix followed by the untouched tail is exactly the intended result |
| Characters.Fill | core/src/main/java/me/kvdpxne/boujee/replace/Characters.java:100-138 | the buffer phase, loop plus tail copy, yields the intended left-to-right replacement of the first `limit` occurrences |
| Characters.Replace | core/src/main/java/me/kvdpxne/boujee/replace/Characters.java:80-141 | a null argument returns the source; an empty array, a zero limit or no occurrence returns it unchanged; otherwise the first `limit` non-overlapping occurrences are replaced, all of them when the limit is -1. Three cases are the corrected reading of inputs the code fails on: a limit below -1 is read as "all"; a positive limit followed by text keeps that text, where the code's tail copy throws; and a limit below the count rewrites exactly `limit` occurrences |
| Characters.ReplaceEvery | core/src/main/java/me/kvdpxne/boujee/replace/Characters.java:150-156 | the three-argument overload replaces every non-overlapping occurrence, and a null argument returns the source |
| CharactersAsWritten.EarlyReturns | core/src/main/java/me/kvdpxne/boujee/replace/Characters.java:86-93 | on every early-return input the code as written and the intended replacement both return the source unchanged |
| CharactersAsWritten.IterateThree | core/src/main/java/me/kvdpxne/boujee/replace/Characters.java:112-128 | on three separated occurrences the loop puts the third replacement one place too far right and stops with no free room |
| CharactersAsWritten.ThirdOccurrenceMisplaced | core/src/main/java/me/kvdpxne/boujee/replace/Characters.java:112-138 | on "a{P}b{P}c{P}d" the code returns a buffer holding a `'\0'` and missing the tail, where the intended result is "aXYbXYcXYd" |
| CharactersAsWritten.AdjacentShrinkFails | core/src/main/java/me/kvdpxne/boujee/replace/Characters.java:112-128 | three adjacent occurrences replaced by a shorter string throw IndexOutOfBounds, where the intended result is "XXX" |
| CharactersAsWritten.BelowMinusOneFails | core/src/main/java/me/kvdpxne/boujee/replace/Characters.java:100-137 | with limit -2 on "a{P}b", the buffer is sized for a positive limit (18 characters) and the tail copy reads 16 characters from index 4 of the 5-character source and throws, where the intended result is "aXb" |
| CharactersAsWritten.LimitOneFails | core/src/main/java/me/kvdpxne/boujee/replace/Characters.java:117 | with limit 1 on two occurrences, the limit check runs only after the second copy, and the tail copy then throws where the intended result is "X{P}" |
| CharactersAsWritten.PositiveLimitTailFails | core/src/main/java/me/kvdpxne/boujee/replace/Characters.java:130-137 | with limit 1 on "a{P}b" the tail copy takes one character more than remains and throws, where the intended result is "aXb" |
| CharactersAsWritten.PartialLimitOversized | core/src/main/java/me/kvdpxne/boujee/replace/Characters.java:101-105 | below the count, the buffer also reserves the length of each occurrence left alone: 7 characters for "{P}{P}" with limit 1, whose result has 4 |
| Strings.ContainsBrackets | core/src/main/java/me/kvdpxne/boujee/replace/Strings.java:8-30 | the scan answers true exactly when some `}` closes a non-empty pair whose most recent `{` is not the first character; null answers false |
| Strings.LeadingPlaceholderIgnored | core/src/main/java/me/kvdpxne/boujee/replace/Strings.java:8-30 | a placeholder at the very start, such as "{name}", is not reported |
| Strings.InnerPlaceholderFound | core/src/main/java/me/kvdpxne/boujee/replace/Strings.java:8-30 | the same placeholder after one character is reported |
| Strings.EmptyPairIgnored | core/src/main/java/me/kvdpxne/boujee/replace/Strings.java:8-30 | a text whose every `}` directly follows a `{` is never reported |
| Content.NewText | core/src/main/java/me/kvdpxne/boujee/content/text/BasicTranslationText.java:52-60 | a null array throws NullPointerException, and any other array becomes the text's content |
| Content.EmptyText | core/src/main/java/me/kvdpxne/boujee/content/text/BasicTranslationText.java:67 | the no-argument text has empty content |
| Content.NewMessage | core/src/main/java/me/kvdpxne/boujee/content/message/BasicTranslationMessage.java:54-70 | a null array or a null line throws NullPointerException; otherwise the lines are kept, in order |
| Content.EmptyMessage | core/src/main/java/me/kvdpxne/boujee/content/message/BasicTranslationMessage.java:75 | the no-argument message has no lines |
| Content.TextContent | core/src/main/java/me/kvdpxne/boujee/content/text/BasicTranslationText.java:73-76 | `getContent` hands out a fresh array with the text's characters |
| Content.MessageContent | core/src/main/java/me/kvdpxne/boujee/content/message/BasicTranslationMessage.java:81-88 | `getContent` is a deep copy: a fresh array per line, no two lines sharing one |
| Content.AsString | core/src/main/java/me/kvdpxne/boujee/content/text/BasicTranslationText.java:81-97 | the lazily cached string form always equals the content, and the cache is filled after the first call |
| Content.AsStringStable | core/src/main/java/me/kvdpxne/boujee/content/message/BasicTranslationMessage.java:93-113 | a second `getContentAsString` answers the same string and changes nothing |
| Content.ArraysEquals | core/src/main/java/me/kvdpxne/boujee/content/text/BasicTranslationText.java:101-110 | the element-wise comparison is content equality, and equal arrays hash alike |
| Content.ArraysHash | core/src/main/java/me/kvdpxne/boujee/content/text/BasicTranslationText.java:113-115 | the array hash is always a Java `int` |
| Content.TextEquals | core/src/main/java/me/kvdpxne/boujee/content/text/BasicTranslationText.java:101-115 | texts are equal exactly when their characters are, and equal texts hash alike |
| Content.DeepEquals | core/src/main/java/me/kvdpxne/boujee/content/message/BasicTranslationMessage.java:117-126 | the deep comparison is equality of all lines, and equal line arrays deep-hash alike |
| Content.DeepHash | core/src/main/java/me/kvdpxne/boujee/content/message/BasicTranslationMessage.java:129-131 | the deep hash is always a Java `int` |
| Content.MessageEquals | core/src/main/java/me/kvdpxne/boujee/content/message/BasicTranslationMessage.java:117-131 | messages are equal exactly when every line is, and equal messages hash alike |
| Content.AbsentKeepsLine | core/src/main/java/me/kvdpxne/boujee/content/text/BasicReplaceableTranslationText.java:49-66 | a field that does not occur leaves the line unchanged |
| Content.ReplaceText | core/src/main/java/me/kvdpxne/boujee/content/text/BasicReplaceableTranslationText.java:49-66 | an empty field or value, or a field that does not occur, returns the text itself; otherwise every occurrence is replaced |
| Content.NoneOccursKeepsLine | core/src/main/java/me/kvdpxne/boujee/content/text/BasicReplaceableTranslationText.java:70-104 | when no key of the map occurs, applying all entries leaves the line unchanged |
| Content.ApplyEntriesAppend | core/src/main/java/me/kvdpxne/boujee/content/text/BasicReplaceableTranslationText.java:70-104 | applying two runs of entries one after the other is applying their concatenation |
| Content.NeedsReplacement | core/src/main/java/me/kvdpxne/boujee/content/text/BasicReplaceableTranslationText.java:70-104 | the pre-scan answers true exactly when some non-empty key occurs in the text |
| Content.ReplaceTextMap | core/src/main/java/me/kvdpxne/boujee/content/text/BasicReplaceableTranslationText.java:70-104 | a null map returns the text; otherwise the entries are applied in iteration order to the running content, and the text itself is returned when no key occurs |
| Content.LaterKeySeesEarlierValue | core/src/main/java/me/kvdpxne/boujee/content/text/BasicReplaceableTranslationText.java:70-104 | entries act on the running content: a later key matches what an earlier value inserted |
| Content.ChainedIsMap | core/src/main/java/me/kvdpxne/boujee/content/text/BasicReplaceableTranslationText.java:49-104 | chaining single-field replacements gives the same content as the map replacement of the same entries |
| Content.LineHolding | core/src/main/java/me/kvdpxne/boujee/content/message/BasicReplaceableTranslationMessage.java:46-75 | the pre-scan answers true exactly when some line holds the field |
| Content.ReplaceMessage | core/src/main/java/me/kvdpxne/boujee/content/message/BasicReplaceableTranslationMessage.java:46-75 | the line count is kept and each line is replaced on its own; the message itself comes back when nothing would change |
| Content.ReplaceMessageMap | core/src/main/java/me/kvdpxne/boujee/content/message/BasicReplaceableTranslationMessage.java:79-126 | every line gets all entries in iteration order, the line count is kept, a null map or a map with no occurring key returns the message |
| ContentReplacer.NewReplacer | api/src/main/java/me/kvdpxne/boujee/content/Replacer.java:37-42 | a negative initial size is refused with IllegalArgumentException; any other starts empty |
| ContentReplacer.WithChars | api/src/main/java/me/kvdpxne/boujee/content/Replacer.java:76-89 | a null placeholder or replacement throws NullPointerException, an empty placeholder IllegalArgumentException; otherwise exactly the pair given is appended |
| ContentReplacer.Normalize | api/src/main/java/me/kvdpxne/boujee/content/Replacer.java:112-115 | the stored placeholder is always braced: kept when it already is, wrapped otherwise |
| ContentReplacer.NormalizeIdempotent | api/src/main/java/me/kvdpxne/boujee/content/Replacer.java:112-115 | wrapping a wrapped placeholder changes nothing |
| ContentReplacer.WithString | api/src/main/java/me/kvdpxne/boujee/content/Replacer.java:103-125 | the same refusals as `with(char[], char[])` plus a null value; on success exactly one entry is appended: the placeholder, wrapped in braces unless it already has them, with a `char[]` value's characters or any other value's `toString` |
| ContentReplacer.WithAllChars | api/src/main/java/me/kvdpxne/boujee/content/Replacer.java:135-144 | a null map throws NullPointerException and adds nothing; otherwise the pairs are added as given, in iteration order, up to the first refused pair, which throws the exception `with` throws for it, and the entries added before it stay |
| ContentReplacer.WithAllStrings | api/src/main/java/me/kvdpxne/boujee/content/Replacer.java:156-169 | a null map throws NullPointerException and adds nothing; otherwise the entries are added in iteration order with braced keys and the characters of their values, up to the first refused entry (a null key or value, or an empty key that is not wrapped first), and the entries added before it stay |
| ContentReplacer.StringsDelegateToChars | api/src/main/java/me/kvdpxne/boujee/content/Replacer.java:103-169 | the `String` overload of `withAll` has exactly the outcome of the `char[]` overload on the pairs `with(String, Object)` converts its entries to |
| ContentReplacer.EnsureBracesIrrelevant | api/src/main/java/me/kvdpxne/boujee/content/Replacer.java:156-169 | for non-empty keys the `ensureBraces` flag makes no difference to the outcome |
| ContentReplacer.EmptyKeyDiffers | api/src/main/java/me/kvdpxne/boujee/content/Replacer.java:156-169 | an empty key is where the flag matters: wrapped first it is accepted as "{}", otherwise it is refused |
| ContentReplacer.Clear | api/src/main/java/me/kvdpxne/boujee/content/Replacer.java:201-203 | after `clear` there are no entries |
| ContentReplacer.EqualsAsWritten | api/src/main/java/me/kvdpxne/boujee/content/Replacer.java:212-242 | the written `equals` holds exactly when the sizes agree and every entry of this replacer has a content-equal entry in the other |
| ContentReplacer.EqualsNotSymmetric | api/src/main/java/me/kvdpxne/boujee/content/Replacer.java:212-242 | with a duplicated entry the written `equals` holds one way and not the other |
| ContentReplacer.HashDependsOnOrder | api/src/main/java/me/kvdpxne/boujee/content/Replacer.java:250-258 | two replacers that are equal by the written `equals` can hash differently, because the hash depends on iteration order |
| ContentReplacer.EqualsWithoutDuplicates | api/src/main/java/me/kvdpxne/boujee/content/Replacer.java:212-242 | without duplicates the written `equals` is exactly equality of the entry multisets |
| ContentReplacer.SumPermutation | api/src/main/java/me/kvdpxne/boujee/content/Replacer.java:250-258 | the sum of entry hashes does not depend on the order of the entries |
| ContentReplacer.HashIntendedConsistent | api/src/main/java/me/kvdpxne/boujee/content/Replacer.java:250-258 | replacers with the same entries, counting duplicates, get the same order-independent hash |
| ContentReplacer.EqualsIntended | api/src/main/java/me/kvdpxne/boujee/content/Replacer.java:212-258 | the corrected equality, which matches and removes entries one by one, holds exactly when both replacers hold the same entries counting duplicates, and it implies equal corrected hashes |
| LegacyReplacer.Frame | api/src/main/java/me/kvdpxne/boujee/replace/Replacer.java:92-97 | the new placeholder array is two longer than the placeholder, with braces at both ends |
| LegacyReplacer.UnbracedAlwaysFails | api/src/main/java/me/kvdpxne/boujee/replace/Replacer.java:92-104 | every non-empty unbraced placeholder makes the written `with` throw IndexOutOfBoundsException |
| LegacyReplacer.With | api/src/main/java/me/kvdpxne/boujee/replace/Replacer.java:58-108 | a null or empty placeholder or a null value returns the replacer unchanged; otherwise exactly one entry is appended: the braced placeholder with a `char[]` value as it is or any other value's `toString` |
| LegacyReplacer.AgreesWithContentReplacer | api/src/main/java/me/kvdpxne/boujee/replace/Replacer.java:79-108 | where the content builder's `with(String, Object)` accepts a call the intended legacy `with` appends the same entry, and where the content builder throws the legacy one leaves the entries unchanged |
| Keys.NormalizeIdempotent | core/src/main/java/me/kvdpxne/boujee/BasicTranslationKey.java:78-80 | normalising a normalised name changes nothing, so every registered name is a fixed point |
| Keys.CheckContent | core/src/main/java/me/kvdpxne/boujee/BasicTranslationKey.java:70-76 | null content throws NullPointerException, empty content IllegalArgumentException, anything else passes unchanged |
| Keys.BlankContentIsEmptyName | core/src/main/java/me/kvdpxne/boujee/BasicTranslationKey.java:70-80 | content of spaces only passes the checks and names the key "" |
| Keys.NewBasicKey | core/src/main/java/me/kvdpxne/boujee/BasicTranslationKey.java:41-53 | a new key takes the next ordinal and is not registered |
| Keys.BasicOf | core/src/main/java/me/kvdpxne/boujee/BasicTranslationKey.java:66-99 | a known name returns its registered key unchanged; an unknown name throws IllegalStateException when creation is denied and is registered under the next ordinal otherwise; failures leave the registry alone |
| Keys.IdentityIsEquality | core/src/main/java/me/kvdpxne/boujee/BasicTranslationKey.java:149-165 | two keys are equal exactly when their class and ordinal agree, which is what maps keyed by keys use |
| Keys.KeyEqualsConsistent | api/src/main/java/me/kvdpxne/boujee/DefaultTranslationKey.java:131-147 | key equality is symmetric, never holds across the two classes, and equal keys hash alike |
| Keys.BasicSameName | core/src/main/java/me/kvdpxne/boujee/BasicTranslationKey.java:78-98 | two lookups whose contents normalise alike return the same key, and the second leaves the registry as the first left it |
| Keys.BasicEqualsIsSameName | core/src/main/java/me/kvdpxne/boujee/BasicTranslationKey.java:82-98 | registered keys are equal exactly when their names are |
| Keys.NewDefaultKey | api/src/main/java/me/kvdpxne/boujee/DefaultTranslationKey.java:41-50 | a new key takes the next ordinal and is not registered |
| Keys.DefaultOf | api/src/main/java/me/kvdpxne/boujee/DefaultTranslationKey.java:66-91 | the same null and empty refusals; with creation denied an unknown name throws IllegalStateException, otherwise it is registered under the next ordinal |
| Keys.ComputeIfAbsent | api/src/main/java/me/kvdpxne/boujee/DefaultTranslationKey.java:87-90 | the name is registered afterwards and its key returned; an existing registration is left as it is |
| Keys.RegistriesSeparate | api/src/main/java/me/kvdpxne/boujee/DefaultTranslationKey.java:131-142 | keys created from the same content in the two registries are never equal |
| Keys.DefaultKeyString | api/src/main/java/me/kvdpxne/boujee/DefaultTranslationKey.java:150-152 | the string form is non-empty and starts with '-' exactly for a negative ordinal |
| Keys.KeyStringRoundTrip | api/src/main/java/me/kvdpxne/boujee/DefaultTranslationKey.java:150-152 | parsing the string form gives the ordinal back, so distinct keys print differently |
| CacheKeys.MakeKey | core/src/main/java/me/kvdpxne/boujee/CacheKey.java:11-20 | a cache key keeps the kind of content it was made for |
| CacheKeys.Hash | core/src/main/java/me/kvdpxne/boujee/CacheKey.java:34-37 | the hash is always a Java `int` |
| CacheKeys.EqualsConsistent | core/src/main/java/me/kvdpxne/boujee/CacheKey.java:23-37 | `equals` is equality of the three fields, and equal keys hash alike |
| CacheKeys.SameKeyIffSameHashes | core/src/main/java/me/kvdpxne/boujee/CacheKey.java:11-31 | two cache keys of one kind coincide exactly when the hash codes of their sources and of their translation keys do |
| CacheKeys.DistinctKeysShareSlot | core/src/main/java/me/kvdpxne/boujee/CacheKey.java:11-31 | a basic key and a default key with the same ordinal are unequal, yet they get the same cache key |
| CacheKeys.TextAndMessageDiffer | core/src/main/java/me/kvdpxne/boujee/CacheKey.java:34-37 | the text key and the message key of one source and key differ, in value and in hash |
| TranslationCache.NewCache | core/src/main/java/me/kvdpxne/boujee/TranslationCache.java:39-58 | a size that is not positive throws InvalidCacheSizeException; otherwise the cache starts empty and valid |
| TranslationCache.ClampSize | core/src/main/java/me/kvdpxne/boujee/TranslationCache.java:66-73 | the default size lies in [100, 50000]: the estimate itself inside that range, the nearer end outside it |
| TranslationCache.RemoveFirst | core/src/main/java/me/kvdpxne/boujee/TranslationCache.java:119-142 | removing a queued key shortens the queue by one and adds nothing; removing an absent key changes nothing |
| TranslationCache.Evict | core/src/main/java/me/kvdpxne/boujee/TranslationCache.java:119-142 | the eviction loop keeps the queue, the map and the marker set in step, and keeps exactly the most recent keys |
| TranslationCache.MaintainSize | core/src/main/java/me/kvdpxne/boujee/TranslationCache.java:119-142 | afterwards the bound holds, the surviving entries are the most recently used ones, and their values are unchanged |
| TranslationCache.SetMaxSize | core/src/main/java/me/kvdpxne/boujee/TranslationCache.java:82-92 | a size that is not positive is refused; shrinking evicts least recently used entries down to the new bound; growing evicts nothing |
| TranslationCache.Clear | core/src/main/java/me/kvdpxne/boujee/TranslationCache.java:149-155 | `clear` empties all three structures and zeroes both counters but keeps the bound |
| TranslationCache.Get | core/src/main/java/me/kvdpxne/boujee/TranslationCache.java:166-227 | a null source or key throws; a stored key is a hit that answers its value and becomes most recent; anything else is a miss that changes only the miss count |
| TranslationCache.GetCountsOnce | core/src/main/java/me/kvdpxne/boujee/TranslationCache.java:166-227 | every lookup past the null checks adds exactly one to hits plus misses |
| TranslationCache.Store | core/src/main/java/me/kvdpxne/boujee/TranslationCache.java:238-297 | a put keeps the new value as the most recent entry, keeps only the most recent keys up to the bound, and changes no surviving value |
| TranslationCache.StorePresent | core/src/main/java/me/kvdpxne/boujee/TranslationCache.java:238-297 | re-putting a present key evicts nothing; the key only moves to the recent end |
| TranslationCache.StoreWithRoom | core/src/main/java/me/kvdpxne/boujee/TranslationCache.java:238-297 | putting a new key into a cache with room evicts nothing |
| TranslationCache.StoreWhenFull | core/src/main/java/me/kvdpxne/boujee/TranslationCache.java:119-142 | putting a new key into a full cache evicts exactly the least recently used key |
| TranslationCache.PutText | core/src/main/java/me/kvdpxne/boujee/TranslationCache.java:273-297 | a null argument throws and changes nothing; otherwise the text is stored under its text key |
| TranslationCache.PutMessage | core/src/main/java/me/kvdpxne/boujee/TranslationCache.java:238-262 | a null argument throws and changes nothing; otherwise the message is stored under its message key |
| TranslationCache.PutThenGet | core/src/main/java/me/kvdpxne/boujee/TranslationCache.java:202-297 | a text just put is what the next lookup of that text finds |
| TranslationCache.FullCacheEvictsOldest | core/src/main/java/me/kvdpxne/boujee/TranslationCache.java:119-142 | when a new key reaches a full cache, the least recently used key leaves and the size stays at the bound |
| Locales.FromStringAsWritten | core/src/main/java/me/kvdpxne/boujee/locale/Locales.java:27-56 | null throws NullPointerException; an empty tag, or one with two parts or fewer after trimming and splitting, throws IllegalArgumentException; otherwise the first two parts are used |
| Locales.FromString | core/src/main/java/me/kvdpxne/boujee/locale/Locales.java:27-56 | the documented reading: a tag with at least a language and a region is accepted, and its first two parts are the locale |
| Locales.TagParts | core/src/main/java/me/kvdpxne/boujee/locale/Locales.java:42 | a tag written as language, '_', region splits back into exactly those two parts |
| Locales.RoundTrip | core/src/main/java/me/kvdpxne/boujee/locale/Locales.java:42-55 | parsing the tag of a well-formed locale gives the locale back |
| Locales.TwoPartTagsRejected | core/src/main/java/me/kvdpxne/boujee/locale/Locales.java:43 | as written, every well-formed two-part tag is rejected |
| Locales.EnUs | core/src/main/java/me/kvdpxne/boujee/locale/Locales.java:43 | "en_US" is rejected as written and read as language "en", region "US" as documented |
| LocaleStore.NewTranslations | core/src/main/java/me/kvdpxne/boujee/locale/BasicLocaleTranslations.java:70-91 | a null source throws NullPointerException and a negative cache size IllegalArgumentException; otherwise both maps are kept and both caches start empty |
| LocaleStore.InnerPut | core/src/main/java/me/kvdpxne/boujee/locale/BasicLocaleTranslations.java:265-275 | a put stores its value, keeps the inner cache within its bound, and changes no other surviving entry; with room it evicts nothing |
| LocaleStore.FindText | core/src/main/java/me/kvdpxne/boujee/locale/BasicLocaleTranslations.java:193-219 | a null provider or key throws; otherwise the answer is always what the text map holds, whether it came from the inner cache or not |
| LocaleStore.FindMessage | core/src/main/java/me/kvdpxne/boujee/locale/BasicLocaleTranslations.java:160-190 | as for texts, except that an unknown key throws TranslationKeyNotFoundException before any lookup |
| LocaleStore.Clear | core/src/main/java/me/kvdpxne/boujee/locale/BasicLocaleTranslations.java:232-245 | `clear` empties both maps and both caches, keeping the source |
| Loading.LoadAll | core/src/main/java/me/kvdpxne/boujee/DefaultTranslationService.java:230-241 | the loaded map holds a source exactly when some entry has it, and then holds the last entry for it |
| Loading.SweepAll | core/src/main/java/me/kvdpxne/boujee/DefaultTranslationService.java:243-257 | after the with-default loop the default source is that of the last entry, and every map entry came from the input |
| Loading.UpToNull | core/src/main/java/me/kvdpxne/boujee/BasicTranslationService.java:56-74 | the loop that dereferences each entry gets exactly as far as the first null entry |
| DefaultService.Empty | core/src/main/java/me/kvdpxne/boujee/DefaultTranslationService.java:122-132 | a new cache of the requested capacity starts empty |
| DefaultService.NewWithSource | core/src/main/java/me/kvdpxne/boujee/DefaultTranslationService.java:42-64 | a null source throws NullPointerException, a bad size InvalidCacheSizeException; otherwise the service is empty, has the source as default and is in MANUAL mode |
| DefaultService.NewWithMode | core/src/main/java/me/kvdpxne/boujee/DefaultTranslationService.java:73-79 | a null mode throws; otherwise the cache has the capacity of the mode, with a manual size of 1000 |
| DefaultService.NewWithModeAndSize | core/src/main/java/me/kvdpxne/boujee/DefaultTranslationService.java:93-113 | MANUAL needs a positive size; the size is recorded whatever the mode, and the cache gets the mode's capacity |
| DefaultService.Reconfigure | core/src/main/java/me/kvdpxne/boujee/DefaultTranslationService.java:145-174 | after the constructor's checks only the cache and the mode fields change; the cache is resized keeping its most recent entries |
| DefaultService.ReconfigureMode | core/src/main/java/me/kvdpxne/boujee/DefaultTranslationService.java:183-185 | the one-argument form reuses the stored manual size |
| DefaultService.CheckSource | core/src/main/java/me/kvdpxne/boujee/DefaultTranslationService.java:299-314 | a null provider throws NullPointerException, a null source LocaleNotSupportedException |
| DefaultService.FindTextOrNull | core/src/main/java/me/kvdpxne/boujee/DefaultTranslationService.java:411-433 | both providers are checked first; a cache hit answers the cached text; a miss answers what the locale's store holds, null without a store; a found text ends up cached; only the cache changes |
| DefaultService.FindMessageOrNull | core/src/main/java/me/kvdpxne/boujee/DefaultTranslationService.java:386-408 | the same for messages, with the store refusing an unknown key on a cache miss |
| DefaultService.TextLookupStable | core/src/main/java/me/kvdpxne/boujee/DefaultTranslationService.java:411-433 | repeating a text lookup at once gives the same answer |
| DefaultService.EmptyCacheReadsStores | core/src/main/java/me/kvdpxne/boujee/DefaultTranslationService.java:411-433 | with nothing cached, a lookup answers exactly what the locale's store holds |
| DefaultService.UpdateTranslationsAsWritten | core/src/main/java/me/kvdpxne/boujee/DefaultTranslationService.java:222-268 | a null collection throws; the map is rebuilt; without a default the cache is not cleared; with one, a missing default throws LocaleNotSupportedException before the clear |
| DefaultService.OtherLocaleBecomesDefault | core/src/main/java/me/kvdpxne/boujee/DefaultTranslationService.java:250-256 | the default's store goes into the map, while another locale's store replaces the default translations and its source becomes the default |
| DefaultService.UpdateTranslations | core/src/main/java/me/kvdpxne/boujee/DefaultTranslationService.java:222-268 | the documented update: the same outcome and stores as written, with the cache cleared whenever the stores are replaced |
| DefaultService.UpdatedLookupsAreFresh | core/src/main/java/me/kvdpxne/boujee/DefaultTranslationService.java:266-267 | after the documented update every text lookup reads the new stores |
| DefaultService.StaleLookupAfterUpdate | core/src/main/java/me/kvdpxne/boujee/DefaultTranslationService.java:230-241 | as written, a text cached before an update is still returned although its locale is no longer loaded |
| DefaultService.UpdateDefaultSource | core/src/main/java/me/kvdpxne/boujee/DefaultTranslationService.java:343-356 | only the default source changes, and a failed check changes nothing |
| DefaultService.UpdateDefaultTranslations | core/src/main/java/me/kvdpxne/boujee/DefaultTranslationService.java:359-374 | the default's store moves from the map into the default translations; without a default source, or without its store, it throws |
| DefaultService.FindLocaleTranslationsOrNull | core/src/main/java/me/kvdpxne/boujee/DefaultTranslationService.java:377-383 | the locale's store when the map has one, null otherwise, after the source check |
| DefaultService.FindLocaleTranslationsOrDefault | core/src/main/java/me/kvdpxne/boujee/DefaultTranslationService.java:436-453 | the locale's own store, else the default translations, loading them first when only the default source is set; a failure changes nothing |
| DefaultService.FallbackExtendsLookup | core/src/main/java/me/kvdpxne/boujee/DefaultTranslationService.java:436-453 | the fallback agrees with the plain lookup wherever that finds a store, and otherwise succeeds exactly when default translations are or can be loaded |
| DefaultService.FindTextOrDefault | core/src/main/java/me/kvdpxne/boujee/DefaultTranslationService.java:471-483 | a failing fallback passes its exception on; a null key provider throws NullPointerException; otherwise the chosen store's text is returned when present, and an absent text throws TranslationKeyNotFoundException |
| DefaultService.FindMessageOrDefault | core/src/main/java/me/kvdpxne/boujee/DefaultTranslationService.java:456-468 | a failing fallback passes its exception on; a null key provider throws NullPointerException; otherwise the chosen store's message is returned when present, and an unknown key or absent message throws TranslationKeyNotFoundException |
| DefaultService.NumberOfLocales | api/src/main/java/me/kvdpxne/boujee/TranslationService.java:410-424 | the documented count is the number of distinct known locales, never more than the written count |
| DefaultService.DistinctAndWrittenCounts | core/src/main/java/me/kvdpxne/boujee/DefaultTranslationService.java:486-492 | the written count exceeds the distinct count by one exactly when the default locale's store is also in the map |
| DefaultService.DefaultCountedTwice | core/src/main/java/me/kvdpxne/boujee/DefaultTranslationService.java:486-492 | after loading only the default locale, the written count reports two locales where there is one |
| DefaultService.MovingDefaultKeepsCount | core/src/main/java/me/kvdpxne/boujee/DefaultTranslationService.java:359-374 | moving the default's store out of the map keeps the distinct count and lowers the written count by one |
| DefaultService.NumberOfMessages | core/src/main/java/me/kvdpxne/boujee/DefaultTranslationService.java:495-503 | the default translations' message count, else that of some loaded store, else 0 |
| DefaultService.NumberOfTexts | core/src/main/java/me/kvdpxne/boujee/DefaultTranslationService.java:506-514 | the default translations' text count, else that of some loaded store, else 0 |
| DefaultService.Clear | core/src/main/java/me/kvdpxne/boujee/DefaultTranslationService.java:517-522 | no stores, no default, an empty cache with its bound and mode kept |
| DefaultService.ClearForgetsEverything | core/src/main/java/me/kvdpxne/boujee/DefaultTranslationService.java:517-522 | after `clear` no locale is counted, every text lookup answers null and the fallback throws |
| BasicService.UpdateTranslations | core/src/main/java/me/kvdpxne/boujee/BasicTranslationService.java:50-75 | the map is emptied first; a null collection or entry throws NullPointerException, keeping the entries before it; without a default every entry is loaded; with one the default-sweep runs |
| BasicService.UpdateWithoutDefaultLoadsAll | core/src/main/java/me/kvdpxne/boujee/BasicTranslationService.java:55-62 | without a default, every supplied store is loaded and each source maps to its last store |
| BasicService.UpdateWithDefaultFollowsLastEntry | core/src/main/java/me/kvdpxne/boujee/BasicTranslationService.java:65-74 | with a default set, the default source afterwards is the source of the last entry |
| BasicService.CheckSource | core/src/main/java/me/kvdpxne/boujee/BasicTranslationService.java:100-115 | a null provider throws NullPointerException, a null source a plain RuntimeException |
| BasicService.UpdateDefaultSource | core/src/main/java/me/kvdpxne/boujee/BasicTranslationService.java:139-144 | only the default source changes, and a failed check changes nothing |
| BasicService.UpdateDefaultTranslations | core/src/main/java/me/kvdpxne/boujee/BasicTranslationService.java:146-152 | it throws exactly when no default source is set, and loads nothing |
| BasicService.FindLocaleTranslationsOrNull | core/src/main/java/me/kvdpxne/boujee/BasicTranslationService.java:154-161 | the locale's store when the map has one, null otherwise, after the source check |
| BasicService.FindTextOrNull | core/src/main/java/me/kvdpxne/boujee/BasicTranslationService.java:179-193 | a locale without a store answers null before the key is checked; otherwise the store answers |
| BasicService.FindMessageOrNull | core/src/main/java/me/kvdpxne/boujee/BasicTranslationService.java:163-177 | the same for messages |
| BasicService.UnknownLocaleSkipsKeyCheck | core/src/main/java/me/kvdpxne/boujee/BasicTranslationService.java:184-188 | a null key provider goes unnoticed when the locale has no store |
| BasicService.FindLocaleTranslationsOrDefault | core/src/main/java/me/kvdpxne/boujee/BasicTranslationService.java:195-216 | the locale's store, else the default translations; TranslationException only when neither default field is set |
| BasicService.FallbackNullIff | core/src/main/java/me/kvdpxne/boujee/BasicTranslationService.java:195-216 | the fallback answers null exactly when there is no store, no default translations, and only a default source |
| BasicService.FindTextOrDefault | core/src/main/java/me/kvdpxne/boujee/BasicTranslationService.java:227-234 | a null fallback is dereferenced (NullPointerException); otherwise the chosen store answers |
| BasicService.FindMessageOrDefault | core/src/main/java/me/kvdpxne/boujee/BasicTranslationService.java:218-225 | the same for messages |
| BasicService.CountsIgnoreContents | core/src/main/java/me/kvdpxne/boujee/BasicTranslationService.java:236-253 | the message and text counts are both the number of loaded locales, whatever the stores contain |
| BasicService.Clear | core/src/main/java/me/kvdpxne/boujee/BasicTranslationService.java:255-260 | after `clear` every count is 0 and every fallback lookup fails |
| Flatten.ToKey | inputs/json/gson/src/main/java/me/kvdpxne/boujee/io/FlattenGson.java:53-60 | a nested key is the parent's path, '_', then the key; a top-level key keeps its length |
| Flatten.ToText | inputs/json/gson/src/main/java/me/kvdpxne/boujee/io/FlattenGson.java:21-33 | only a non-blank string becomes a text, kept untrimmed; anything else throws IllegalArgumentException |
| Flatten.ToMessage | inputs/json/gson/src/main/java/me/kvdpxne/boujee/io/FlattenGson.java:35-51 | only a non-empty array of strings becomes a message, one line per element in order |
| Flatten.KeyName | inputs/json/gson/src/main/java/me/kvdpxne/boujee/io/FlattenGson.java:78-83 | an empty path is refused; any other is registered under its normalised name |
| Flatten.FlattenIsPutAll | inputs/json/gson/src/main/java/me/kvdpxne/boujee/io/FlattenGson.java:62-87 | the in-place loop computes the reference reading: the document's leaves put in order, or the first member's error |
| Flatten.LastEntryWins | inputs/json/gson/src/main/java/me/kvdpxne/boujee/io/FlattenGson.java:62-98 | a name is in the result exactly when some leaf carries it, and then it holds the last such leaf's content |
| Flatten.NestedPath | inputs/json/kotlinx-serialization/src/main/kotlin/me/kvdpxne/boujee/io/FlattenJson.kt:87-125 | a text one level down is stored under the upper-cased parent, '_', and the upper-cased key |
| Flatten.TopLevelMessage | inputs/json/kotlinx-serialization/src/main/kotlin/me/kvdpxne/boujee/io/FlattenJson.kt:57-120 | a top-level array of strings becomes a message with one line per string, in order |
| Flatten.AcceptedIff | inputs/json/kotlinx-serialization/src/main/kotlin/me/kvdpxne/boujee/io/FlattenJson.kt:109-147 | a document is accepted exactly when its root is an object and every member follows the rules; a bad root throws RuntimeException and every other refusal is an IllegalArgumentException |
| Flatten.NullsSeparateTheReaders | inputs/json/kotlinx-serialization/src/main/kotlin/me/kvdpxne/boujee/io/FlattenJson.kt:117-121 | a JSON null member is skipped by the Gson reader and refused by the kotlinx reader |
| Flatten.AgreeOnFlatten | inputs/json/kotlinx-serialization/src/main/kotlin/me/kvdpxne/boujee/io/FlattenJson.kt:136-147 | wherever both readers accept a document they produce the same map |

## Left out

- Parsing JSON text is left to Gson and kotlinx.serialization. Documents enter as an already parsed `Json` value whose objects keep their members in document order; duplicate-key handling in the parsers is not modelled.
- File and resource loading, and the locale sources' own loading, are I/O and not part of this model.
- Concurrency is not modelled: `synchronized`, `volatile`, the concurrent maps and `AtomicInteger` counters. The hit and miss counters are unbounded naturals with no 32-bit wrap-around.
- The memory-based cache-size estimate reads `Runtime.maxMemory()`. It enters as the integer `estimate`; only the clamp applied to it is modelled.
- Statistics strings and the floating-point hit ratio of the cache are not modelled.
- `Locale.Builder` validation of the two parts is not modelled: a `Locale` records the strings it is given.
- Upper-casing is ASCII-only. `toUpperCase(Locale.ENGLISH)` and Kotlin's `uppercase()` also map other letters; that mapping is not modelled.
- `maintainSize` skips a polled key whose marker is missing. The model's queue, map and marker set always agree, so that branch never runs.
- Read-only accessors are not modelled: `getLoadedLocaleSources`, `getLoadedLocaleTranslations`, `getMessages` and `getTexts` views, `getCacheStatistics`, `getMaxSize`, `getDefaultLocaleSource`, `getReplacements`, `copy`, `isEmpty` and `toString` of the content classes.
- Whether a key is in the key registry (`DefaultTranslationKey.exists`) enters as the flag `keyExists`; the registry is not consulted.
- User-defined `TranslationKey` classes are not modelled, only the two built-in ones.
- The inner caches of a store are modelled in `LocaleStore.FindText` and `LocaleStore.FindMessage`. The services use `LocaleStore.TextAnswer` and `LocaleStore.MessageAnswer` instead. Those give the same answer, and they leave out the update of the store's inner cache that a service lookup causes.
- The identity-keyed `char[]` maps of both replacers are modelled as sequences of entries. Identity `equals` and `hashCode` of the arrays are not modelled; only content is compared.
- `BasicTranslationText` keeps the caller's array rather than a copy, so a later write by the caller to that array changes the text. Texts here are values, so this aliasing is not modelled.
- The ordinal counters of both key classes are `AtomicInteger`s that wrap after 2^31 - 1 keys. The model's counters are unbounded, and the distinct-ordinal clauses of `Keys.ValidBasic` and `Keys.ValidDefault` rely on that; after a wrap two keys could share an ordinal.
- The flattening entry point takes a parsed document, which cannot be null. The `requireNonNull(root)` of the Gson reader (FlattenGson.java:90) is not modelled.
- The message and text counts are documented as totals across all locales. The default service returns the count of one store, and the basic service returns the number of loaded locales. Both are modelled as the code computes them (`DefaultService.NumberOfMessages`, `BasicService.CountsIgnoreContents`). No corrected total is modelled, because the documentation does not say whether a key present in several locales counts once or once per locale.
- The flattening readers register each key in a global key registry as a side effect. The model keys the result by normalised name and does not thread the registry through.
- LocaleStore.InnerPut: a put into a full inner cache evicts `max(1, maxSize / 10)` keys in iteration order. The contract states only the bound and that surviving entries are unchanged; it does not say which keys are evicted.
- Flatten.ToKey: the contract states the shape of the path but not its upper-casing; `Flatten.NestedPath` and `Flatten.TopLevelMessage` state the upper-cased paths.
- DefaultService.NumberOfMessages: the contract says "some loaded store" rather than "the first in the map's iteration order", which enters as the parameter `order`.
- DefaultService.NumberOfTexts: likewise.
- DefaultService.ReconfigureMode: the contract states the reused manual size and the new capacity. The error cases are those of `DefaultService.Reconfigure`, which states them in full.
- CacheKeys.MakeKey: the contract states only the kind flag. How the two hash codes decide equality is stated by `CacheKeys.SameKeyIffSameHashes`.

## Findings

| source | as written | input that shows it | evidently intended | confidence | as-written member | corrected member |
|---|---|---|---|---|---|---|
| core/src/main/java/me/kvdpxne/boujee/replace/Characters.java:127 | the i-th occurrence is written at `first + (1 < i ? i * space : space)`, and the first and second use the same shift | "a{P}b{P}c{P}d" with "{P}" to "XY" gives "aXYbXYc\0XY" | every occurrence moves by the replacements before it, giving "aXYbXYcXYd" | not executed | CharactersAsWritten.ThirdOccurrenceMisplaced | Characters.Replace |
| core/src/main/java/me/kvdpxne/boujee/replace/Characters.java:112-128 | the same offset aims the third replacement past the buffer when the replacement is shorter | "{P}{P}{P}" with "{P}" to "X" throws IndexOutOfBoundsException | "XXX" | not executed | CharactersAsWritten.AdjacentShrinkFails | Characters.ReplaceEvery |
| core/src/main/java/me/kvdpxne/boujee/replace/Characters.java:101-104 | only `-1 == limit` takes the "replace all" buffer size; any other negative limit is sized by the formula for a positive limit | "a{P}b" with "{P}" to "X" and limit -2 gets an 18-character buffer, and the tail copy throws IndexOutOfBoundsException | a negative limit means no limit, giving "aXb" | not executed | CharactersAsWritten.BelowMinusOneFails | Characters.Replace |
| core/src/main/java/me/kvdpxne/boujee/replace/Characters.java:117 | `limit == i` is tested after the copy, so one more occurrence than the limit is rewritten, and the tail copy at 130-137 then reads past the source | "{P}{P}" with "{P}" to "X" and limit 1 throws IndexOutOfBoundsException | "X{P}" | not executed | CharactersAsWritten.LimitOneFails | Characters.Replace |
| core/src/main/java/me/kvdpxne/boujee/replace/Characters.java:136 | the tail copy takes `buffer.length - a + Math.max(0, limit)` characters, `limit` more than remain, so a positive limit throws whenever text follows the last rewritten occurrence | "a{P}b" with "{P}" to "X" and limit 1 throws IndexOutOfBoundsException | the text after the last rewritten occurrence is copied as it is, giving "aXb" | not executed | CharactersAsWritten.PositiveLimitTailFails | Characters.Replace |
| core/src/main/java/me/kvdpxne/boujee/replace/Characters.java:104 | below the count, the buffer reserves `(count - limit) * search.length` beyond the source length plus the rewrites, although the occurrences left alone are already counted in the source length | "{P}{P}" with "{P}" to "X" and limit 1 allocates 7 characters for a 4-character result | a buffer of the result's length, `source.length + limit * space` | not executed | CharactersAsWritten.PartialLimitOversized | Characters.Replace |
| api/src/main/java/me/kvdpxne/boujee/replace/Replacer.java:98-104 | the wrapped placeholder is copied from index 1 of the placeholder, `length` characters long | any non-empty placeholder without braces, such as "a", throws IndexOutOfBoundsException | the placeholder is copied to index 1 of the new array, giving "{a}" | not executed | LegacyReplacer.UnbracedAlwaysFails | LegacyReplacer.With |
| api/src/main/java/me/kvdpxne/boujee/content/Replacer.java:212-242 | `equals` checks the sizes and that each entry of this replacer is found in the other | entries [{a}=1, {a}=1] equal [{a}=1, {b}=2] one way but not the other | a symmetric equality: the same entries, counting duplicates | not executed | ContentReplacer.EqualsNotSymmetric | ContentReplacer.EqualsIntended |
| api/src/main/java/me/kvdpxne/boujee/content/Replacer.java:250-258 | the hash folds the entries in iteration order | [a=1, b=2] and [b=2, a=1] are equal but hash differently | equal replacers hash alike | not executed | ContentReplacer.HashDependsOnOrder | ContentReplacer.HashIntendedConsistent |
| core/src/main/java/me/kvdpxne/boujee/DefaultTranslationService.java:230-241 | without a default source the method returns before the cache is cleared at 266-267, and the throw at 259-264 skips the clear too | a text cached for a locale that the update no longer loads is still returned | the cache is cleared whenever the translations are replaced | not executed | DefaultService.StaleLookupAfterUpdate | DefaultService.UpdatedLookupsAreFresh |
| core/src/main/java/me/kvdpxne/boujee/DefaultTranslationService.java:486-492 | the map's size plus one when a default source is set | loading only the default locale reports two locales | the number of distinct locales, as the interface documents | not executed | DefaultService.DefaultCountedTwice | DefaultService.NumberOfLocales |
| core/src/main/java/me/kvdpxne/boujee/locale/Locales.java:43 | `2 >= parts.length` rejects a tag with exactly two parts | "en_US" throws IllegalArgumentException | a language and a region suffice: "en_US" is language "en", region "US" | not executed | Locales.TwoPartTagsRejected | Locales.RoundTrip |
