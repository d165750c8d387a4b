/** `Locales.fromString`: a tag such as "en_US" or "en-US" split into a
    language and a region. The `Locale.Builder` that validates the two parts
    is not interpreted; a `Locale` here records what it is given. */
module Locales {
  import opened Wrappers
  import JavaLang

  datatype Locale = Locale(language: string, region: string)

  /** The pieces `fromString` works on: the trimmed tag split at '_' and '-'. */
  function Parts(content: string): seq<string> {
    JavaLang.Split(JavaLang.Trim(content))
  }

  /** `fromString` as written: a null tag throws NullPointerException, an
      empty one IllegalArgumentException, and so does a tag with two parts or
      fewer; otherwise the first two parts are used. */
  function FromStringAsWritten(content: Option<string>): (r: Result<Locale, Exception>)
    ensures content.None? ==> r.Failure? && r.error == NullPointer
    ensures content.Some? ==> (r.Success? <==> |content.value| > 0 && |Parts(content.value)| > 2)
    ensures content.Some? && r.Failure? ==> r.error == IllegalArgument
    ensures r.Success? ==> r.value == Locale(Parts(content.value)[0], Parts(content.value)[1])
  {
    if content.None? then Failure(NullPointer)
    else if |content.value| == 0 then Failure(IllegalArgument)
    else
      var parts := Parts(content.value);
      if 2 >= |parts| then Failure(IllegalArgument)
      else Success(Locale(parts[0], parts[1]))
  }

  /** `fromString` as its documentation describes it: a tag needs a language
      and a region, so two parts suffice. */
  function FromString(content: Option<string>): (r: Result<Locale, Exception>)
    ensures content.None? ==> r.Failure? && r.error == NullPointer
    ensures content.Some? ==> (r.Success? <==> |content.value| > 0 && |Parts(content.value)| >= 2)
    ensures content.Some? && r.Failure? ==> r.error == IllegalArgument
    ensures r.Success? ==> r.value == Locale(Parts(content.value)[0], Parts(content.value)[1])
  {
    if content.None? then Failure(NullPointer)
    else if |content.value| == 0 then Failure(IllegalArgument)
    else
      var parts := Parts(content.value);
      if |parts| < 2 then Failure(IllegalArgument)
      else Success(Locale(parts[0], parts[1]))
  }

  /** A part that survives the round trip: not empty, no separator and no
      character `trim` would remove. */
  predicate PlainPart(s: string) {
    |s| > 0 && forall k :: 0 <= k < |s| ==> !JavaLang.IsSeparator(s[k]) && !JavaLang.Trimmable(s[k])
  }

  /** The tag a locale is written as: language, '_', region. */
  function Tag(l: Locale): string {
    l.language + "_" + l.region
  }

  lemma {:induction false} PiecesPrefix(a: string, s: string)
    requires forall k :: 0 <= k < |a| ==> !JavaLang.IsSeparator(a[k])
    ensures var p := JavaLang.Pieces(s);
            JavaLang.Pieces(a + s) == [a + p[0]] + p[1..]
    decreases |a|
  {
    var p := JavaLang.Pieces(s);
    if |a| == 0 {
      assert a + s == s && a + p[0] == p[0];
      assert [p[0]] + p[1..] == p;
    } else {
      var rest := JavaLang.Pieces((a + s)[1..]);
      assert (a + s)[1..] == a[1..] + s;
      PiecesPrefix(a[1..], s);
      assert rest == [a[1..] + p[0]] + p[1..];
      assert JavaLang.Pieces(a + s) == [[a[0]] + rest[0]] + rest[1..];
      assert [a[0]] + (a[1..] + p[0]) == a + p[0];
    }
  }

  /** `trim` leaves a string without trimmable characters alone. */
  lemma TrimPlain(t: string)
    requires forall k :: 0 <= k < |t| ==> !JavaLang.Trimmable(t[k])
    ensures JavaLang.Trim(t) == t
  {
    assert JavaLang.TrimStart(t, 0) == 0;
    assert JavaLang.TrimEnd(t, 0, |t|) == |t|;
    assert t[0..|t|] == t;
  }

  /** The pieces of "a_b" for separator-free `a` and `b`. */
  lemma PiecesOfPair(a: string, b: string)
    requires forall k :: 0 <= k < |a| ==> !JavaLang.IsSeparator(a[k])
    requires forall k :: 0 <= k < |b| ==> !JavaLang.IsSeparator(b[k])
    ensures JavaLang.Pieces(a + "_" + b) == [a, b]
  {
    PiecesPrefix(b, "");
    assert b + "" == b;
    assert ("_" + b)[1..] == b;
    assert JavaLang.Pieces("_" + b) == [""] + JavaLang.Pieces(b);
    PiecesPrefix(a, "_" + b);
    assert a + "_" + b == a + ("_" + b);
    assert a + "" == a;
  }

  /** The parts of a well-formed tag are its language and its region. */
  lemma TagParts(l: Locale)
    requires PlainPart(l.language) && PlainPart(l.region)
    ensures Parts(Tag(l)) == [l.language, l.region]
  {
    var t := Tag(l);
    TrimPlain(t);
    PiecesOfPair(l.language, l.region);
    assert JavaLang.IsSeparator(t[|l.language|]);
    assert JavaLang.DropTrailingEmpty([l.language, l.region]) == [l.language, l.region];
  }

  /** Reading the tag of a well-formed locale gives the locale back. */
  lemma RoundTrip(l: Locale)
    requires PlainPart(l.language) && PlainPart(l.region)
    ensures FromString(Some(Tag(l))) == Success(l)
  {
    TagParts(l);
  }

  /** As written, the same tag is rejected for every locale. */
  lemma TwoPartTagsRejected(l: Locale)
    requires PlainPart(l.language) && PlainPart(l.region)
    ensures FromStringAsWritten(Some(Tag(l))) == Failure(IllegalArgument)
  {
    TagParts(l);
  }

  /** The documented example "en_US" is rejected as written and accepted by
      the corrected reading. */
  lemma EnUs()
    ensures FromStringAsWritten(Some("en_US")) == Failure(IllegalArgument)
    ensures FromString(Some("en_US")) == Success(Locale("en", "US"))
  {
    var l := Locale("en", "US");
    assert Tag(l) == "en_US";
    TwoPartTagsRejected(l);
    RoundTrip(l);
  }
}
