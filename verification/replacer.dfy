/** The placeholder builder of the `content` package. Its map is keyed by
    freshly cloned arrays, compared by identity, so every `with` adds an entry
    even when the same placeholder text is already present: the replacer is
    the sequence of its entries. The map's iteration order is the order of
    that sequence. */
module ContentReplacer {
  import opened Wrappers
  import JavaLang
  import Content

  type Entry = (string, string)

  datatype Replacer = Replacer(entries: seq<Entry>)

  /** A replacement object as `with(String, Object)` sees it: a character
      array is cloned, anything else is converted with `toString`, `null`
      fails there. */
  datatype Value = Chars(chars: string) | Other(shown: string) | Null

  /** `new Replacer(initialSize)`: a negative size is refused. */
  function NewReplacer(initialSize: int): (r: Result<Replacer, Exception>)
    ensures r.Success? <==> initialSize >= 0
    ensures r.Success? ==> r.value.entries == []
    ensures r.Failure? ==> r.error == IllegalArgument
  {
    if initialSize < 0 then Failure(IllegalArgument) else Success(Replacer([]))
  }

  /** The exception `with` throws for what it refuses: an empty placeholder
      is an illegal argument, anything missing a null pointer. */
  function Refusal(placeholder: Option<string>): Exception {
    if placeholder.Some? && |placeholder.value| == 0 then IllegalArgument else NullPointer
  }

  /** `with(char[], char[])`: a missing or empty placeholder or a missing
      replacement is refused; otherwise exactly one entry is added. */
  function WithChars(x: Replacer, placeholder: Option<string>, replacement: Option<string>)
    : (r: Result<Replacer, Exception>)
    ensures r.Success? <==> placeholder.Some? && |placeholder.value| > 0 && replacement.Some?
    ensures r.Failure? ==> r.error == Refusal(placeholder)
    ensures r.Success? ==> r.value.entries == x.entries + [(placeholder.value, replacement.value)]
  {
    if placeholder.None? then Failure(NullPointer)
    else if |placeholder.value| == 0 then Failure(IllegalArgument)
    else if replacement.None? then Failure(NullPointer)
    else Success(Replacer(x.entries + [(placeholder.value, replacement.value)]))
  }

  predicate Braced(p: string) {
    |p| > 0 && p[0] == '{' && p[|p| - 1] == '}'
  }

  /** The placeholder `with(String, Object)` stores: kept when it starts
      with `{` and ends with `}`, wrapped in braces otherwise. */
  function Normalize(p: string): (r: string)
    ensures Braced(r)
    ensures Braced(p) ==> r == p
    ensures !Braced(p) ==> r == "{" + p + "}"
  {
    if |p| > 0 && p[0] == '{' && p[|p| - 1] == '}' then p else "{" + p + "}"
  }

  /** Normalizing twice is normalizing once. */
  lemma NormalizeIdempotent(p: string)
    ensures Normalize(Normalize(p)) == Normalize(p)
  {
  }

  /** The characters a replacement object stands for: a character array's
      own, anything else its `toString`. */
  function Shown(v: Value): string
    requires !v.Null?
  {
    if v.Chars? then v.chars else v.shown
  }

  /** `with(String, Object)`: the refusals of `with(char[], char[])`, and
      otherwise one entry, the braced placeholder with the characters of the
      replacement. */
  function WithString(x: Replacer, placeholder: Option<string>, replacement: Value)
    : (r: Result<Replacer, Exception>)
    ensures r.Success? <==> placeholder.Some? && |placeholder.value| > 0 && !replacement.Null?
    ensures r.Failure? ==> r.error == Refusal(placeholder)
    ensures r.Success? ==> r.value.entries == x.entries + [(Normalize(placeholder.value), Shown(replacement))]
  {
    if placeholder.None? then Failure(NullPointer)
    else if |placeholder.value| == 0 then Failure(IllegalArgument)
    else
      var chars := match replacement
        case Chars(c) => Some(c)
        case Other(s) => Some(s)
        case Null => None;
      if chars.None? then Failure(NullPointer)
      else WithChars(x, Some(Normalize(placeholder.value)), chars)
  }

  /** The state after a run of `with` calls: Java changes the replacer in
      place, so the entries added before an exception stay. */
  datatype Outcome = Outcome(state: Replacer, error: Option<Exception>)

  /** Whether `with(char[], char[])` accepts a pair. */
  predicate CharsAccepted(pair: (Option<string>, Option<string>)) {
    pair.0.Some? && |pair.0.value| > 0 && pair.1.Some?
  }

  /** `withAll(Map<char[], char[]>)`: a null map throws before anything is
      added; otherwise `with` on every pair in iteration order. The first
      `n` pairs are accepted and added as they are, in order; the pair at
      `n`, if any, is refused with the exception `with` throws for it, and
      the pairs after it are never looked at. */
  function WithAllChars(x: Replacer, values: Option<seq<(Option<string>, Option<string>)>>): (r: Outcome)
    ensures values.None? ==> r == Outcome(x, Some(NullPointer))
    ensures x.entries <= r.state.entries
    ensures values.Some? ==>
              var vs, n := values.value, |r.state.entries| - |x.entries|;
              n <= |vs|
              && (forall i :: 0 <= i < n ==>
                    CharsAccepted(vs[i]) && r.state.entries[|x.entries| + i] == (vs[i].0.value, vs[i].1.value))
              && (r.error.None? <==> n == |vs|)
              && (n < |vs| ==> !CharsAccepted(vs[n]) && r.error == Some(Refusal(vs[n].0)))
    decreases if values.Some? then |values.value| else 0
  {
    if values.None? then Outcome(x, Some(NullPointer))
    else if |values.value| == 0 then Outcome(x, None)
    else
      var vs := values.value;
      match WithChars(x, vs[0].0, vs[0].1)
      case Failure(e) => Outcome(x, Some(e))
      case Success(y) =>
        var r := WithAllChars(y, Some(vs[1..]));
        assert forall i :: 1 <= i < |r.state.entries| - |x.entries| ==> vs[i] == vs[1..][i - 1];
        r
  }

  /** Whether `withAll(Map<String, ?>, ensureBraces)` accepts an entry: a
      key, non-empty unless it is wrapped first, and a value. */
  predicate StringAccepted(pair: (Option<string>, Value), ensureBraces: bool) {
    pair.0.Some? && (ensureBraces || |pair.0.value| > 0) && !pair.1.Null?
  }

  /** What `withAll(Map<String, ?>, ensureBraces)` does to entries `base`
      given the map entries `vs`: the first `n` are accepted and added with
      their braced keys and the characters of their values, in order; the
      entry at `n`, if any, is refused with the exception `with` throws for
      it, and the entries after it are never looked at. */
  predicate StringsAdded(base: seq<Entry>, r: Outcome, vs: seq<(Option<string>, Value)>, ensureBraces: bool) {
    var n := |r.state.entries| - |base|;
    base <= r.state.entries
    && n <= |vs|
    && (forall i :: 0 <= i < n ==>
          StringAccepted(vs[i], ensureBraces)
          && r.state.entries[|base| + i] == (Normalize(vs[i].0.value), Shown(vs[i].1)))
    && (r.error.None? <==> n == |vs|)
    && (n < |vs| ==> !StringAccepted(vs[n], ensureBraces)
                     && r.error == Some(if ensureBraces then NullPointer else Refusal(vs[n].0)))
  }

  /** One accepted entry in front of a run keeps `StringsAdded`. */
  lemma StringsStep(base: seq<Entry>, next: seq<Entry>, r: Outcome, vs: seq<(Option<string>, Value)>, ensureBraces: bool)
    requires |vs| > 0 && StringAccepted(vs[0], ensureBraces)
    requires next == base + [(Normalize(vs[0].0.value), Shown(vs[0].1))]
    requires StringsAdded(next, r, vs[1..], ensureBraces)
    ensures StringsAdded(base, r, vs, ensureBraces)
  {
    var n := |r.state.entries| - |base|;
    assert r.state.entries[|base|] == next[|base|];
    forall i | 1 <= i < n
      ensures vs[i] == vs[1..][i - 1] && r.state.entries[|base| + i] == r.state.entries[|next| + (i - 1)]
    {
    }
  }

  /** `withAll(Map<String, ?>, ensureBraces)`: a null map throws before
      anything is added; otherwise, with `ensureBraces` the key is wrapped
      before `with` sees it, and a missing key fails on `startsWith` just as
      it would in `with`. The entries are added as `StringsAdded` says. */
  function WithAllStrings(x: Replacer, values: Option<seq<(Option<string>, Value)>>, ensureBraces: bool)
    : (r: Outcome)
    ensures values.None? ==> r == Outcome(x, Some(NullPointer))
    ensures values.Some? ==> StringsAdded(x.entries, r, values.value, ensureBraces)
    decreases if values.Some? then |values.value| else 0
  {
    if values.None? then Outcome(x, Some(NullPointer))
    else if |values.value| == 0 then Outcome(x, None)
    else
      var vs := values.value;
      var key := vs[0].0;
      var placeholder := if ensureBraces && key.Some? then Some(Normalize(key.value)) else key;
      match WithString(x, placeholder, vs[0].1)
      case Failure(e) => Outcome(x, Some(e))
      case Success(y) =>
        var r := WithAllStrings(y, Some(vs[1..]), ensureBraces);
        StringsStep(x.entries, y.entries, r, vs, ensureBraces);
        r
  }

  /** The pair of arrays an entry of `withAll(Map<String, ?>, ensureBraces)`
      reaches `with(char[], char[])` as: the braced key, unless it is missing
      or empty and not wrapped first, and the characters of the value. */
  function AsChars(pair: (Option<string>, Value), ensureBraces: bool): (Option<string>, Option<string>) {
    var key := if pair.0.Some? && (ensureBraces || |pair.0.value| > 0) then Some(Normalize(pair.0.value)) else pair.0;
    (key, if pair.1.Null? then None else Some(Shown(pair.1)))
  }

  /** The `String` overload of `withAll` is the `char[]` overload applied to
      the converted pairs: same entries, same exception, same stopping
      point. */
  lemma {:induction false} StringsDelegateToChars(x: Replacer, values: seq<(Option<string>, Value)>, ensureBraces: bool)
    ensures WithAllStrings(x, Some(values), ensureBraces)
            == WithAllChars(x, Some(seq(|values|, i requires 0 <= i < |values| => AsChars(values[i], ensureBraces))))
    decreases |values|
  {
    var converted := seq(|values|, i requires 0 <= i < |values| => AsChars(values[i], ensureBraces));
    if |values| > 0 {
      var rest := seq(|values| - 1, i requires 0 <= i < |values| - 1 => AsChars(values[1..][i], ensureBraces));
      assert converted[1..] == rest;
      var key := values[0].0;
      var placeholder := if ensureBraces && key.Some? then Some(Normalize(key.value)) else key;
      var y := WithString(x, placeholder, values[0].1);
      if y.Success? {
        StringsDelegateToChars(y.value, values[1..], ensureBraces);
      }
    }
  }

  /** For non-empty keys `ensureBraces` makes no difference: `with` wraps
      anyway, and wrapping is idempotent. */
  lemma {:induction false} EnsureBracesIrrelevant(x: Replacer, values: seq<(Option<string>, Value)>)
    requires forall i :: 0 <= i < |values| && values[i].0.Some? ==> |values[i].0.value| > 0
    ensures WithAllStrings(x, Some(values), true) == WithAllStrings(x, Some(values), false)
    decreases |values|
  {
    if |values| > 0 {
      var key := values[0].0;
      if key.Some? {
        NormalizeIdempotent(key.value);
      }
      var y := WithString(x, key, values[0].1);
      if y.Success? {
        EnsureBracesIrrelevant(y.value, values[1..]);
      }
    }
  }

  /** An empty key is where the two differ: wrapped first it becomes "{}",
      given to `with` as it is it is refused. */
  lemma EmptyKeyDiffers(x: Replacer)
    ensures WithAllStrings(x, Some([(Some(""), Other("v"))]), true).error.None?
    ensures WithAllStrings(x, Some([(Some(""), Other("v"))]), false).error == Some(IllegalArgument)
  {
  }

  /** `clear`: no entries. */
  function Clear(x: Replacer): (r: Replacer)
    ensures |r.entries| == 0
  {
    Replacer([])
  }

  // ---------------------------------------------------------------------
  // equals and hashCode as written

  /** The inner search of `equals`: an entry of `other` equal by content. */
  predicate Found(e: Entry, other: seq<Entry>) {
    exists j :: 0 <= j < |other| && other[j] == e
  }

  /** `Replacer.equals`: same number of entries, and every entry of `this`
      has a content-equal entry in the other. */
  method EqualsAsWritten(x: Replacer, y: Replacer) returns (r: bool)
    ensures r <==> |x.entries| == |y.entries|
                   && forall i :: 0 <= i < |x.entries| ==> Found(x.entries[i], y.entries)
  {
    if |x.entries| != |y.entries| {
      return false;
    }
    var i := 0;
    while i < |x.entries|
      invariant 0 <= i <= |x.entries|
      invariant forall k :: 0 <= k < i ==> Found(x.entries[k], y.entries)
    {
      var (key, value) := x.entries[i];
      var found := false;
      var j := 0;
      while j < |y.entries| && !found
        invariant 0 <= j <= |y.entries|
        invariant found <==> Found(x.entries[i], y.entries[..j])
      {
        var sameKey := Content.ArraysEquals(key, y.entries[j].0);
        var sameValue := Content.ArraysEquals(value, y.entries[j].1);
        found := sameKey && sameValue;
        assert y.entries[..j + 1] == y.entries[..j] + [y.entries[j]];
        j := j + 1;
      }
      if !found {
        assert y.entries[..j] == y.entries;
        return false;
      }
      assert Found(x.entries[i], y.entries) by {
        var w :| 0 <= w < |y.entries[..j]| && y.entries[..j][w] == x.entries[i];
        assert y.entries[w] == x.entries[i];
      }
      i := i + 1;
    }
    return true;
  }

  /** The relation `EqualsAsWritten` decides. */
  ghost predicate EqualAsWritten(x: Replacer, y: Replacer) {
    |x.entries| == |y.entries| && forall i :: 0 <= i < |x.entries| ==> Found(x.entries[i], y.entries)
  }

  /** With a duplicated entry the written `equals` is not symmetric. */
  lemma EqualsNotSymmetric()
    ensures EqualAsWritten(Replacer([("{a}", "1"), ("{a}", "1")]), Replacer([("{a}", "1"), ("{b}", "2")]))
    ensures !EqualAsWritten(Replacer([("{a}", "1"), ("{b}", "2")]), Replacer([("{a}", "1"), ("{a}", "1")]))
  {
    var x := Replacer([("{a}", "1"), ("{a}", "1")]);
    var y := Replacer([("{a}", "1"), ("{b}", "2")]);
    assert Found(x.entries[0], y.entries) && Found(x.entries[1], y.entries) by {
      assert y.entries[0] == ("{a}", "1");
    }
    assert !Found(y.entries[1], x.entries) by {
      forall j | 0 <= j < |x.entries|
        ensures x.entries[j] != y.entries[1]
      {
        assert x.entries[j].0 == "{a}";
        assert "{a}"[1] != "{b}"[1];
      }
    }
  }

  /** `Replacer.hashCode`: `31 * h + hash(key)`, then `31 * h + hash(value)`,
      entry by entry in iteration order, from 1. */
  function HashAsWritten(entries: seq<Entry>): (r: int)
    ensures JavaLang.MinInt32 <= r <= JavaLang.MaxInt32
  {
    if |entries| == 0 then 1
    else
      var h := HashAsWritten(entries[..|entries| - 1]);
      var e := entries[|entries| - 1];
      JavaLang.Wrap32(31 * JavaLang.Wrap32(31 * h + Content.ArraysHash(e.0)) + Content.ArraysHash(e.1))
  }

  /** The iteration order of an identity-keyed map is not fixed by the
      contents, and the written hash depends on it: two replacers holding the
      same entries in different orders are equal but hash differently. */
  lemma HashDependsOnOrder()
    ensures EqualAsWritten(Replacer([("a", "1"), ("b", "2")]), Replacer([("b", "2"), ("a", "1")]))
    ensures HashAsWritten([("a", "1"), ("b", "2")]) != HashAsWritten([("b", "2"), ("a", "1")])
  {
    var x, y := [("a", "1"), ("b", "2")], [("b", "2"), ("a", "1")];
    assert Found(x[0], y) by { assert y[1] == x[0]; }
    assert Found(x[1], y) by { assert y[0] == x[1]; }
    assert Content.ArraysHash("a") == 128 by { assert "a"[..0] == ""; }
    assert Content.ArraysHash("b") == 129 by { assert "b"[..0] == ""; }
    assert Content.ArraysHash("1") == 80 by { assert "1"[..0] == ""; }
    assert Content.ArraysHash("2") == 81 by { assert "2"[..0] == ""; }
    assert x[..1] == [("a", "1")] && x[..1][..0] == [];
    assert y[..1] == [("b", "2")] && y[..1][..0] == [];
  }

  // ---------------------------------------------------------------------
  // equals and hashCode as intended

  /** Content equality of the entries, counting duplicates. */
  predicate SameEntries(x: Replacer, y: Replacer) {
    multiset(x.entries) == multiset(y.entries)
  }

  /** The written `equals` agrees with `SameEntries` whenever neither side
      holds a duplicate. */
  lemma {:induction false} EqualsWithoutDuplicates(x: Replacer, y: Replacer)
    requires forall i, j :: 0 <= i < j < |x.entries| ==> x.entries[i] != x.entries[j]
    requires forall i, j :: 0 <= i < j < |y.entries| ==> y.entries[i] != y.entries[j]
    ensures EqualAsWritten(x, y) <==> SameEntries(x, y)
  {
    var a, b := x.entries, y.entries;
    if EqualAsWritten(x, y) {
      assert multiset(a) <= multiset(b) by {
        SubMultiset(a, b);
      }
      MultisetOfSameSize(a, b);
    }
    if SameEntries(x, y) {
      assert |a| == |multiset(a)| == |multiset(b)| == |b|;
      forall i | 0 <= i < |a|
        ensures Found(a[i], b)
      {
        assert a[i] in multiset(a);
        assert a[i] in multiset(b);
        assert a[i] in b;
      }
    }
  }

  /** Distinct elements each found in `b` form a sub-multiset of `b`. */
  lemma {:induction false} SubMultiset(a: seq<Entry>, b: seq<Entry>)
    requires forall i, j :: 0 <= i < j < |a| ==> a[i] != a[j]
    requires forall i :: 0 <= i < |a| ==> Found(a[i], b)
    requires forall i, j :: 0 <= i < j < |b| ==> b[i] != b[j]
    ensures multiset(a) <= multiset(b)
  {
    forall e | e in multiset(a)
      ensures multiset(a)[e] <= multiset(b)[e]
    {
      var i :| 0 <= i < |a| && a[i] == e;
      var j :| 0 <= j < |b| && b[j] == e;
      AtMostOnce(a, e);
      AtMostOnce(b, e);
    }
  }

  /** In a sequence without duplicates every element occurs once. */
  lemma {:induction false} AtMostOnce(s: seq<Entry>, e: Entry)
    requires forall i, j :: 0 <= i < j < |s| ==> s[i] != s[j]
    ensures multiset(s)[e] <= 1
    decreases |s|
  {
    if |s| > 0 {
      var last := s[|s| - 1];
      assert s == s[..|s| - 1] + [last];
      AtMostOnce(s[..|s| - 1], e);
      if last == e {
        assert e !in s[..|s| - 1];
      }
    }
  }

  /** A sub-multiset of the same size is the whole multiset. */
  lemma MultisetOfSameSize(a: seq<Entry>, b: seq<Entry>)
    requires multiset(a) <= multiset(b) && |a| == |b|
    ensures multiset(a) == multiset(b)
  {
    var d := multiset(b) - multiset(a);
    assert multiset(b) == multiset(a) + d;
    assert |multiset(b)| == |multiset(a)| + |d|;
  }

  /** The hash contribution of one entry. */
  function EntryHash(e: Entry): int {
    31 * Content.ArraysHash(e.0) + Content.ArraysHash(e.1)
  }

  function SumHashes(entries: seq<Entry>): int {
    if |entries| == 0 then 0 else EntryHash(entries[0]) + SumHashes(entries[1..])
  }

  /** An order-independent hash: the wrapped sum of the entry hashes. */
  function HashIntended(x: Replacer): (r: int)
    ensures JavaLang.MinInt32 <= r <= JavaLang.MaxInt32
  {
    JavaLang.Wrap32(SumHashes(x.entries))
  }

  lemma {:induction false} SumAppend(a: seq<Entry>, b: seq<Entry>)
    ensures SumHashes(a + b) == SumHashes(a) + SumHashes(b)
    decreases |a|
  {
    if |a| == 0 {
      assert a + b == b;
    } else {
      assert (a + b)[0] == a[0];
      assert (a + b)[1..] == a[1..] + b;
      SumAppend(a[1..], b);
    }
  }

  /** Taking one entry out of the sum. */
  lemma SumRemove(b: seq<Entry>, k: int)
    requires 0 <= k < |b|
    ensures SumHashes(b) == EntryHash(b[k]) + SumHashes(b[..k] + b[k + 1..])
  {
    var tail := [b[k]] + b[k + 1..];
    assert b == b[..k] + tail;
    SumAppend(b[..k], tail);
    SumAppend(b[..k], b[k + 1..]);
    assert tail[0] == b[k] && tail[1..] == b[k + 1..];
  }

  lemma MultisetRemove(b: seq<Entry>, k: int)
    requires 0 <= k < |b|
    ensures multiset(b[..k] + b[k + 1..]) == multiset(b) - multiset{b[k]}
  {
    assert b == b[..k] + [b[k]] + b[k + 1..];
  }

  /** A position holding an element of the multiset of a sequence. */
  lemma PositionOf(b: seq<Entry>, x: Entry) returns (k: int)
    requires x in multiset(b)
    ensures 0 <= k < |b| && b[k] == x
  {
    assert x in b;
    k :| 0 <= k < |b| && b[k] == x;
  }

  /** Taking the same entry out of two permutations leaves permutations. */
  lemma RemoveFromBoth(a: seq<Entry>, b: seq<Entry>, k: int)
    requires multiset(a) == multiset(b) && |a| > 0 && 0 <= k < |b| && b[k] == a[0]
    ensures multiset(a[1..]) == multiset(b[..k] + b[k + 1..])
  {
    assert a == [a[0]] + a[1..];
    assert multiset(a) == multiset{a[0]} + multiset(a[1..]);
    MultisetRemove(b, k);
  }

  /** The sum does not depend on the order of the entries. */
  lemma {:induction false} SumPermutation(a: seq<Entry>, b: seq<Entry>)
    requires multiset(a) == multiset(b)
    ensures SumHashes(a) == SumHashes(b)
    decreases |a|
  {
    if |a| == 0 {
      assert |b| == |multiset(b)| == 0;
    } else {
      var k := PositionOf(b, a[0]);
      RemoveFromBoth(a, b, k);
      SumPermutation(a[1..], b[..k] + b[k + 1..]);
      SumRemove(b, k);
    }
  }

  /** Equal replacers in the intended sense hash equally. */
  lemma HashIntendedConsistent(x: Replacer, y: Replacer)
    requires SameEntries(x, y)
    ensures HashIntended(x) == HashIntended(y)
  {
    SumPermutation(x.entries, y.entries);
  }

  /** The first position of `rest` holding `e`, or `|rest|` when none does. */
  method FindEntry(rest: seq<Entry>, e: Entry) returns (j: int)
    ensures 0 <= j <= |rest|
    ensures j < |rest| ==> rest[j] == e
    ensures j == |rest| <==> e !in multiset(rest)
  {
    j := 0;
    while j < |rest| && rest[j] != e
      invariant 0 <= j <= |rest|
      invariant forall k :: 0 <= k < j ==> rest[k] != e
    {
      j := j + 1;
    }
  }

  /** An entry of `x` missing from what is left of `y` after matching the
      entries before it: the multisets differ. */
  lemma Unmatched(x: seq<Entry>, y: seq<Entry>, rest: seq<Entry>, i: int)
    requires 0 <= i < |x| && multiset(x[..i]) + multiset(rest) == multiset(y)
    requires x[i] !in multiset(rest)
    ensures multiset(x) != multiset(y)
  {
    assert x == x[..i] + [x[i]] + x[i + 1..];
    assert multiset(x)[x[i]] > multiset(y)[x[i]];
  }

  /** Matching the entry at `i` with the one at `j` of what is left keeps
      the account of matched and unmatched entries. */
  lemma Matched(x: seq<Entry>, y: seq<Entry>, rest: seq<Entry>, i: int, j: int)
    requires 0 <= i < |x| && multiset(x[..i]) + multiset(rest) == multiset(y)
    requires 0 <= j < |rest| && rest[j] == x[i]
    ensures multiset(x[..i + 1]) + multiset(rest[..j] + rest[j + 1..]) == multiset(y)
  {
    MultisetRemove(rest, j);
    assert x[..i + 1] == x[..i] + [x[i]];
  }

  /** Every entry of `x` matched: the multisets agree when the sizes do. */
  lemma AllMatched(x: seq<Entry>, y: seq<Entry>, rest: seq<Entry>)
    requires |x| == |y| && multiset(x) + multiset(rest) == multiset(y)
    ensures multiset(x) == multiset(y)
  {
    assert |multiset(x) + multiset(rest)| == |multiset(x)| + |multiset(rest)|;
  }

  /** The intended `equals`: every entry of one replacer is matched with,
      and taken out of, a content-equal entry of the other, so duplicates
      are counted. Unlike the written `equals` it is symmetric, and it agrees
      with the order-independent hash. */
  method EqualsIntended(x: Replacer, y: Replacer) returns (r: bool)
    ensures r <==> SameEntries(x, y)
    ensures r ==> HashIntended(x) == HashIntended(y)
  {
    if |x.entries| != |y.entries| {
      assert |multiset(x.entries)| != |multiset(y.entries)|;
      return false;
    }
    var rest := y.entries;
    var i := 0;
    while i < |x.entries|
      invariant 0 <= i <= |x.entries|
      invariant multiset(x.entries[..i]) + multiset(rest) == multiset(y.entries)
    {
      var j := FindEntry(rest, x.entries[i]);
      if j == |rest| {
        Unmatched(x.entries, y.entries, rest, i);
        return false;
      }
      Matched(x.entries, y.entries, rest, i, j);
      rest := rest[..j] + rest[j + 1..];
      i := i + 1;
    }
    assert x.entries[..i] == x.entries;
    AllMatched(x.entries, y.entries, rest);
    r := true;
    HashIntendedConsistent(x, y);
  }
}

/** The older placeholder builder of the `replace` package. Its keys are the
    arrays it builds, compared by identity; only the key text is modelled. */
module LegacyReplacer {
  import opened Wrappers
  import JavaLang
  import ContentReplacer

  datatype Replacer = Replacer(entries: seq<(string, string)>)

  /** The new placeholder array of `with`: braces at both ends, `'\0'`
      between. */
  function Frame(length: nat): (r: string)
    ensures |r| == length + 2 && r[0] == '{' && r[length + 1] == '}'
  {
    seq(length + 2, i => if i == 0 then '{' else if i == length + 1 then '}' else '\0')
  }

  /** `with(placeholder, replacement)` as written: the wrapped placeholder is
      copied from source index 1 to index `length`, `length` characters
      long, which `System.arraycopy` refuses. */
  function WithAsWritten(x: Replacer, placeholder: Option<string>, replacement: ContentReplacer.Value)
    : Result<Replacer, Exception>
  {
    if placeholder.None? || |placeholder.value| == 0 || replacement.Null? then Success(x)
    else
      var p, stored := placeholder.value, ContentReplacer.Shown(replacement);
      if ContentReplacer.Braced(p) then Success(Replacer(x.entries + [(p, stored)]))
      else
        match JavaLang.ArrayCopy(p, 1, Frame(|p|), |p|, |p|)
        case Failure(e) => Failure(e)
        case Success(key) => Success(Replacer(x.entries + [(key, stored)]))
  }

  /** Every non-empty placeholder without braces makes the written `with`
      throw. */
  lemma UnbracedAlwaysFails(x: Replacer, p: string, replacement: ContentReplacer.Value)
    requires |p| > 0 && !ContentReplacer.Braced(p) && !replacement.Null?
    ensures WithAsWritten(x, Some(p), replacement).Failure?
    ensures WithAsWritten(x, Some(p), replacement).error == IndexOutOfBounds
  {
  }

  /** `with` as intended: the placeholder is copied to index 1, giving
      "{" + p + "}". The replacement is stored by `putReplacement`: a
      character array as it is, anything else through `toString`. */
  function With(x: Replacer, placeholder: Option<string>, replacement: ContentReplacer.Value)
    : (r: Replacer)
    ensures placeholder.None? || |placeholder.value| == 0 || replacement.Null? ==> r == x
    ensures placeholder.Some? && |placeholder.value| > 0 && !replacement.Null? ==>
              r.entries == x.entries + [(ContentReplacer.Normalize(placeholder.value), ContentReplacer.Shown(replacement))]
  {
    if placeholder.None? || |placeholder.value| == 0 || replacement.Null? then x
    else
      var p := placeholder.value;
      if ContentReplacer.Braced(p) then Replacer(x.entries + [(p, ContentReplacer.Shown(replacement))])
      else
        var copied := JavaLang.ArrayCopy(p, 0, Frame(|p|), 1, |p|);
        assert copied.value == "{" + p + "}";
        Replacer(x.entries + [(copied.value, ContentReplacer.Shown(replacement))])
  }

  /** Where the content builder accepts a call, the intended legacy `with`
      adds the same entry; where the content builder throws, the legacy one
      quietly changes nothing. */
  lemma AgreesWithContentReplacer(entries: seq<(string, string)>, placeholder: Option<string>,
                                  replacement: ContentReplacer.Value)
    ensures var c := ContentReplacer.WithString(ContentReplacer.Replacer(entries), placeholder, replacement);
            var l := With(Replacer(entries), placeholder, replacement);
            (c.Success? ==> l.entries == c.value.entries)
            && (c.Failure? ==> l.entries == entries)
  {
  }
}
