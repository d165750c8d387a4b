/** `FlattenGson` and `FlattenJson`: a JSON document whose root is an object
    becomes a flat map from key paths to texts and messages. A string becomes
    a text, an array of strings a message, and a nested object contributes
    its own entries under the longer path. The two readers differ only in
    what counts as blank and in how they treat a JSON null. */
module Flatten {
  import opened Wrappers
  import JavaLang
  import Keys
  import Content

  /** A parsed JSON value; numbers are kept as integers, only their kind
      matters here. Object members keep document order. */
  datatype Json =
    | JNull
    | JBool(b: bool)
    | JNumber(n: int)
    | JString(s: string)
    | JArray(items: seq<Json>)
    | JObject(members: seq<Member>)

  datatype Member = Member(key: string, value: Json)

  /** Gson (`FlattenGson`) or kotlinx.serialization (`FlattenJson`). */
  datatype Flavour = Gson | Kotlinx

  datatype Translation = TextEntry(text: Content.Text) | MessageEntry(message: Content.Message)

  /** The result map, keyed by the name of the registered key: the registry
      hands out one key per normalized name, so names identify keys. */
  type Flat = map<string, Translation>

  /** One entry in document order: a key name and its content. */
  type Leaf = (string, Translation)

  /** `toKey`: the upper-cased key, prefixed by the parent's path and '_'
      unless the parent's path is empty. */
  function ToKey(key: string, previous: string): (r: string)
    ensures |previous| > 0 ==> |r| > |previous| && r[..|previous|] == previous && r[|previous|] == '_'
    ensures |previous| == 0 ==> |r| == |key|
  {
    if |previous| == 0 then JavaLang.ToUpper(key) else previous + "_" + JavaLang.ToUpper(key)
  }

  /** A string `toText` refuses: empty after Java's `trim`, or blank by
      Kotlin's `isBlank`. */
  predicate Blank(f: Flavour, s: string) {
    match f
    case Gson => |JavaLang.Trim(s)| == 0
    case Kotlinx => JavaLang.IsBlank(s)
  }

  /** `toText`: a non-blank string, kept untrimmed. */
  function ToText(f: Flavour, j: Json): (r: Result<Content.Text, Exception>)
    ensures r.Success? <==> j.JString? && !Blank(f, j.s)
    ensures r.Success? ==> r.value.content == j.s
    ensures r.Failure? ==> r.error == IllegalArgument
  {
    if j.JString? && !Blank(f, j.s) then Success(Content.Text(j.s)) else Failure(IllegalArgument)
  }

  /** `toMessage`: a non-empty array of strings, one line per element in
      order; blank lines are accepted. */
  function ToMessage(items: seq<Json>): (r: Result<Content.Message, Exception>)
    ensures r.Success? <==> |items| > 0 && forall i :: 0 <= i < |items| ==> items[i].JString?
    ensures r.Success? ==> |r.value.lines| == |items|
                           && forall i :: 0 <= i < |items| ==> r.value.lines[i] == items[i].s
    ensures r.Failure? ==> r.error == IllegalArgument
  {
    if |items| == 0 || exists i :: 0 <= i < |items| && !items[i].JString? then Failure(IllegalArgument)
    else Success(Content.Message(seq(|items|, i requires 0 <= i < |items| => items[i].s)))
  }

  /** The key `of(newKey)` yields, by name: an empty path is refused with
      IllegalArgumentException, any other is normalized. */
  function KeyName(newKey: string): (r: Result<string, Exception>)
    ensures r.Success? <==> |newKey| > 0
    ensures r.Failure? ==> r.error == IllegalArgument
    ensures r.Success? ==> r.value == Keys.Normalize(newKey)
  {
    match Keys.CheckContent(Some(newKey))
    case Failure(e) => Failure(e)
    case Success(content) => Success(Keys.Normalize(content))
  }

  /** The entry a scalar or array member puts, the key computed first. */
  function LeafFor(f: Flavour, newKey: string, value: Json): Result<Leaf, Exception>
    requires !value.JObject?
  {
    match KeyName(newKey)
    case Failure(e) => Failure(e)
    case Success(name) =>
      if value.JArray? then
        match ToMessage(value.items)
        case Failure(e) => Failure(e)
        case Success(message) => Success((name, MessageEntry(message)))
      else
        match ToText(f, value)
        case Failure(e) => Failure(e)
        case Success(text) => Success((name, TextEntry(text)))
  }

  /** `flattenJsonObject` as the source runs it: the members in order,
      each handled by the loop body below, threading one map. */
  function FlattenObject(f: Flavour, ms: seq<Member>, previous: string, acc: Flat): Result<Flat, Exception>
    decreases ms
  {
    if |ms| == 0 then Success(acc)
    else
      match FlattenMember(f, ms[0], previous, acc)
      case Failure(e) => Failure(e)
      case Success(acc') => FlattenObject(f, ms[1..], previous, acc')
  }

  /** The loop body: a nested object is flattened into the same map under
      the longer path, any other value is put under its path; Gson skips a
      null, which matches none of its branches, and kotlinx hands it to
      `toText`, which refuses it. */
  function FlattenMember(f: Flavour, m: Member, previous: string, acc: Flat): Result<Flat, Exception>
    decreases m
  {
    var newKey := ToKey(m.key, previous);
    if m.value.JObject? then FlattenObject(f, m.value.members, newKey, acc)
    else if m.value.JNull? && f == Gson then Success(acc)
    else
      match LeafFor(f, newKey, m.value)
      case Failure(e) => Failure(e)
      case Success(leaf) => Success(acc[leaf.0 := leaf.1])
  }

  /** An object with one member is that member's loop body. */
  lemma SingleMember(f: Flavour, m: Member, previous: string, acc: Flat)
    ensures FlattenObject(f, [m], previous, acc) == FlattenMember(f, m, previous, acc)
  {
    assert [m][1..] == [];
  }

  /** `flatten`: an object root is flattened into an empty map; any other
      root throws RuntimeException. */
  function Flatten(f: Flavour, root: Json): Result<Flat, Exception> {
    if root.JObject? then FlattenObject(f, root.members, "", map[]) else Failure(Runtime)
  }

  // ---------------------------------------------------------------------
  // The reference reading: the leaves in document order

  /** The entries the members contribute, in document order, or the error
      of the first member refused. */
  function ObjectLeaves(f: Flavour, ms: seq<Member>, previous: string): Result<seq<Leaf>, Exception>
    decreases ms
  {
    if |ms| == 0 then Success([])
    else
      match MemberLeaves(f, ms[0], previous)
      case Failure(e) => Failure(e)
      case Success(first) =>
        match ObjectLeaves(f, ms[1..], previous)
        case Failure(e) => Failure(e)
        case Success(rest) => Success(first + rest)
  }

  function MemberLeaves(f: Flavour, m: Member, previous: string): Result<seq<Leaf>, Exception>
    decreases m
  {
    var newKey := ToKey(m.key, previous);
    if m.value.JObject? then ObjectLeaves(f, m.value.members, newKey)
    else if m.value.JNull? && f == Gson then Success([])
    else
      match LeafFor(f, newKey, m.value)
      case Failure(e) => Failure(e)
      case Success(leaf) => Success([leaf])
  }

  /** The entries put one after another, later names replacing earlier. */
  function PutAll(acc: Flat, ls: seq<Leaf>): (r: Flat)
    ensures forall n :: n in r <==> n in acc || LastLeaf(ls, n).Some?
    ensures forall n :: LastLeaf(ls, n).Some? ==> n in r && r[n] == LastLeaf(ls, n).value
    ensures forall n :: n in acc && LastLeaf(ls, n).None? ==> r[n] == acc[n]
    decreases |ls|
  {
    if |ls| == 0 then acc
    else PutAll(acc, ls[..|ls| - 1])[ls[|ls| - 1].0 := ls[|ls| - 1].1]
  }

  /** The content of the last entry with a name. */
  function LastLeaf(ls: seq<Leaf>, name: string): (r: Option<Translation>)
    ensures r.Some? ==> (name, r.value) in ls
    decreases |ls|
  {
    if |ls| == 0 then None
    else if ls[|ls| - 1].0 == name then Some(ls[|ls| - 1].1)
    else LastLeaf(ls[..|ls| - 1], name)
  }

  lemma {:induction false} PutAllAppend(acc: Flat, a: seq<Leaf>, b: seq<Leaf>)
    ensures PutAll(acc, a + b) == PutAll(PutAll(acc, a), b)
    decreases |b|
  {
    if |b| == 0 {
      assert a + b == a;
    } else {
      assert (a + b)[..|a + b| - 1] == a + b[..|b| - 1];
      PutAllAppend(acc, a, b[..|b| - 1]);
    }
  }

  /** The source's loop computes exactly the reference reading: the map is
      the leaves put in order, and the error is the first member's error. */
  lemma {:induction false} FlattenIsPutAll(f: Flavour, ms: seq<Member>, previous: string, acc: Flat)
    ensures FlattenObject(f, ms, previous, acc)
            == match ObjectLeaves(f, ms, previous)
               case Failure(e) => Failure(e)
               case Success(ls) => Success(PutAll(acc, ls))
    decreases ms
  {
    if |ms| > 0 {
      var first := MemberLeaves(f, ms[0], previous);
      MemberIsPutAll(f, ms[0], previous, acc);
      if first.Success? {
        FlattenIsPutAll(f, ms[1..], previous, PutAll(acc, first.value));
        var rest := ObjectLeaves(f, ms[1..], previous);
        if rest.Success? {
          PutAllAppend(acc, first.value, rest.value);
        }
      }
    }
  }

  lemma {:induction false} MemberIsPutAll(f: Flavour, m: Member, previous: string, acc: Flat)
    ensures FlattenMember(f, m, previous, acc)
            == match MemberLeaves(f, m, previous)
               case Failure(e) => Failure(e)
               case Success(ls) => Success(PutAll(acc, ls))
    decreases m
  {
    var newKey := ToKey(m.key, previous);
    if m.value.JObject? {
      FlattenIsPutAll(f, m.value.members, newKey, acc);
    } else if !(m.value.JNull? && f == Gson) {
      var leaf := LeafFor(f, newKey, m.value);
      if leaf.Success? {
        assert [leaf.value][..0] == [];
        assert PutAll(acc, [leaf.value]) == acc[leaf.value.0 := leaf.value.1];
      }
    }
  }

  /** Later paths overwrite earlier ones: a successful flattening holds,
      for each name, exactly the content of the last entry in document
      order that carries it. */
  lemma LastEntryWins(f: Flavour, root: Json)
    requires Flatten(f, root).Success?
    ensures root.JObject? && ObjectLeaves(f, root.members, "").Success?
    ensures var ls := ObjectLeaves(f, root.members, "").value;
            var r := Flatten(f, root).value;
            forall n :: (n in r <==> LastLeaf(ls, n).Some?)
                        && (n in r ==> Some(r[n]) == LastLeaf(ls, n))
  {
    FlattenIsPutAll(f, root.members, "", map[]);
  }

  /** A non-blank string under a non-empty path is a text entry. */
  lemma TextLeaf(f: Flavour, newKey: string, text: string)
    requires |newKey| > 0 && !Blank(f, text)
    ensures LeafFor(f, newKey, JString(text)) == Success((Keys.Normalize(newKey), TextEntry(Content.Text(text))))
  {
    assert ToText(f, JString(text)) == Success(Content.Text(text));
  }

  /** A text one level down is stored under the parent's upper-cased key,
      '_', and its own upper-cased key. */
  lemma NestedPath(f: Flavour, outer: string, inner: string, text: string)
    requires |outer| > 0 && !Blank(f, text)
    ensures var doc := JObject([Member(outer, JObject([Member(inner, JString(text))]))]);
            var path := JavaLang.ToUpper(outer) + "_" + JavaLang.ToUpper(inner);
            Flatten(f, doc) == Success(map[Keys.Normalize(path) := TextEntry(Content.Text(text))])
  {
    var k1 := JavaLang.ToUpper(outer);
    var k2 := k1 + "_" + JavaLang.ToUpper(inner);
    assert ToKey(inner, k1) == k2;
    TextLeaf(f, k2, text);
    SingleMember(f, Member(inner, JString(text)), k1, map[]);
    SingleMember(f, Member(outer, JObject([Member(inner, JString(text))])), "", map[]);
  }

  /** The JSON array of the given strings. */
  function Strings(lines: seq<string>): (r: seq<Json>)
    ensures |r| == |lines| && forall i :: 0 <= i < |lines| ==> r[i] == JString(lines[i])
  {
    seq(|lines|, i requires 0 <= i < |lines| => JString(lines[i]))
  }

  /** A top-level array is stored under its upper-cased key as a message
      with one line per string, in order. */
  lemma TopLevelMessage(f: Flavour, key: string, lines: seq<string>)
    requires |key| > 0 && |lines| > 0
    ensures Flatten(f, JObject([Member(key, JArray(Strings(lines)))]))
            == Success(map[Keys.Normalize(JavaLang.ToUpper(key)) := MessageEntry(Content.Message(lines))])
  {
    var items := Strings(lines);
    var k := JavaLang.ToUpper(key);
    var message := ToMessage(items).value;
    assert message.lines == lines;
    var leaf := (Keys.Normalize(k), MessageEntry(Content.Message(lines)));
    assert LeafFor(f, k, JArray(items)) == Success(leaf);
    SingleMember(f, Member(key, JArray(items)), "", map[]);
  }

  // ---------------------------------------------------------------------
  // Which documents are accepted

  /** A member either flattening accepts, by its own rules. */
  predicate MemberOk(f: Flavour, m: Member, previous: string)
    decreases m
  {
    var newKey := ToKey(m.key, previous);
    match m.value
    case JObject(inner) => forall i :: 0 <= i < |inner| ==> MemberOk(f, inner[i], newKey)
    case JNull => f == Gson
    case _ => LeafOk(f, newKey, m.value)
  }

  /** A scalar or array accepted under a path: the path is not empty and
      the value is a non-blank string or a non-empty array of strings. */
  predicate LeafOk(f: Flavour, newKey: string, value: Json) {
    |newKey| > 0 &&
    match value
    case JArray(items) => |items| > 0 && forall i :: 0 <= i < |items| ==> items[i].JString?
    case JString(s) => !Blank(f, s)
    case _ => false
  }

  lemma LeafForOk(f: Flavour, newKey: string, value: Json)
    requires !value.JObject?
    ensures LeafFor(f, newKey, value).Success? <==> LeafOk(f, newKey, value)
    ensures LeafFor(f, newKey, value).Failure? ==> LeafFor(f, newKey, value).error == IllegalArgument
  {
  }

  lemma {:induction false} ObjectLeavesOk(f: Flavour, ms: seq<Member>, previous: string)
    ensures ObjectLeaves(f, ms, previous).Success? <==> forall i :: 0 <= i < |ms| ==> MemberOk(f, ms[i], previous)
    ensures ObjectLeaves(f, ms, previous).Failure? ==> ObjectLeaves(f, ms, previous).error == IllegalArgument
    decreases ms
  {
    if |ms| > 0 {
      MemberLeavesOk(f, ms[0], previous);
      ObjectLeavesOk(f, ms[1..], previous);
      assert forall i :: 1 <= i < |ms| ==> ms[i] == ms[1..][i - 1];
    }
  }

  lemma {:induction false} MemberLeavesOk(f: Flavour, m: Member, previous: string)
    ensures MemberLeaves(f, m, previous).Success? <==> MemberOk(f, m, previous)
    ensures MemberLeaves(f, m, previous).Failure? ==> MemberLeaves(f, m, previous).error == IllegalArgument
    decreases m
  {
    if m.value.JObject? {
      ObjectLeavesOk(f, m.value.members, ToKey(m.key, previous));
    } else {
      LeafForOk(f, ToKey(m.key, previous), m.value);
    }
  }

  /** A document is accepted exactly when its root is an object and every
      member follows the rules; a refused root throws RuntimeException and
      every other refusal is an IllegalArgumentException. */
  lemma AcceptedIff(f: Flavour, root: Json)
    ensures Flatten(f, root).Success?
            <==> root.JObject? && forall i :: 0 <= i < |root.members| ==> MemberOk(f, root.members[i], "")
    ensures Flatten(f, root).Failure? ==>
              Flatten(f, root).error == (if root.JObject? then IllegalArgument else Runtime)
  {
    if root.JObject? {
      FlattenIsPutAll(f, root.members, "", map[]);
      ObjectLeavesOk(f, root.members, "");
    }
  }

  /** A null member separates the readers: Gson skips it, kotlinx refuses
      the document. */
  lemma NullsSeparateTheReaders()
    ensures Flatten(Gson, JObject([Member("a", JNull)])) == Success(map[])
    ensures Flatten(Kotlinx, JObject([Member("a", JNull)])) == Failure(IllegalArgument)
  {
    var ms := [Member("a", JNull)];
    assert ms[1..] == [];
  }

  /** Where both readers accept a document they produce the same map. */
  lemma {:induction false} ReadersAgree(ms: seq<Member>, previous: string)
    requires ObjectLeaves(Gson, ms, previous).Success? && ObjectLeaves(Kotlinx, ms, previous).Success?
    ensures ObjectLeaves(Gson, ms, previous) == ObjectLeaves(Kotlinx, ms, previous)
    decreases ms
  {
    if |ms| > 0 {
      var m := ms[0];
      MemberLeavesOk(Gson, m, previous);
      MemberLeavesOk(Kotlinx, m, previous);
      if m.value.JObject? {
        ReadersAgree(m.value.members, ToKey(m.key, previous));
      }
      ReadersAgree(ms[1..], previous);
    }
  }

  lemma AgreeOnFlatten(root: Json)
    requires Flatten(Gson, root).Success? && Flatten(Kotlinx, root).Success?
    ensures Flatten(Gson, root) == Flatten(Kotlinx, root)
  {
    FlattenIsPutAll(Gson, root.members, "", map[]);
    FlattenIsPutAll(Kotlinx, root.members, "", map[]);
    ReadersAgree(root.members, "");
  }
}
