/** The immutable translation contents: a text is one line of characters, a
    message is a sequence of lines. Both are values here, so the defensive
    copies of the source (`getContent`) cannot be observed except through
    the arrays handed out, which the copy methods return fresh. */
module Content {
  import opened Wrappers
  import JavaLang
  import Characters

  datatype Text = Text(content: string)

  datatype Message = Message(lines: seq<string>)

  // ---------------------------------------------------------------------
  // Construction

  /** `new BasicTranslationText(text)`: a missing array is refused. */
  function NewText(text: Option<string>): (r: Result<Text, Exception>)
    ensures r.Success? <==> text.Some?
    ensures r.Success? ==> r.value.content == text.value
    ensures r.Failure? ==> r.error == NullPointer
  {
    match text
    case None => Failure(NullPointer)
    case Some(t) => Success(Text(t))
  }

  /** `new BasicTranslationText()`: empty content. */
  function EmptyText(): (r: Text)
    ensures |r.content| == 0
  {
    Text([])
  }

  /** `new BasicTranslationMessage(message)`: a missing array or a missing
      line is refused. */
  function NewMessage(message: Option<seq<Option<string>>>): (r: Result<Message, Exception>)
    ensures r.Success? <==> message.Some? && forall i :: 0 <= i < |message.value| ==> message.value[i].Some?
    ensures r.Success? ==> |r.value.lines| == |message.value|
                           && forall i :: 0 <= i < |message.value| ==> r.value.lines[i] == message.value[i].value
    ensures r.Failure? ==> r.error == NullPointer
  {
    if message.None? then Failure(NullPointer)
    else if exists i :: 0 <= i < |message.value| && message.value[i].None? then Failure(NullPointer)
    else Success(Message(seq(|message.value|, i requires 0 <= i < |message.value| => message.value[i].value)))
  }

  /** `new BasicTranslationMessage()`: no lines. */
  function EmptyMessage(): (r: Message)
    ensures |r.lines| == 0
  {
    Message([])
  }

  // ---------------------------------------------------------------------
  // Reading the content

  /** `BasicTranslationText.getContent`: a fresh array with the text. */
  method TextContent(t: Text) returns (a: array<char>)
    ensures fresh(a) && a[..] == t.content
  {
    a := new char[|t.content|](i requires 0 <= i < |t.content| => t.content[i]);
  }

  /** `BasicTranslationMessage.getContent`: a deep copy, one fresh array per
      line, no two lines sharing an array. */
  method MessageContent(m: Message) returns (copy: array<array<char>>)
    ensures fresh(copy) && copy.Length == |m.lines|
    ensures forall i :: 0 <= i < copy.Length ==> fresh(copy[i]) && copy[i][..] == m.lines[i]
    ensures forall i, j :: 0 <= i < j < copy.Length ==> copy[i] != copy[j]
  {
    var empty := new char[0];
    copy := new array<char>[|m.lines|](_ => empty);
    var i := 0;
    while i < |m.lines|
      invariant 0 <= i <= |m.lines|
      invariant forall k :: 0 <= k < i ==> fresh(copy[k]) && copy[k][..] == m.lines[k]
      invariant forall k, l :: 0 <= k < l < i ==> copy[k] != copy[l]
    {
      var line := m.lines[i];
      var a := new char[|line|](j requires 0 <= j < |line| => line[j]);
      copy[i] := a;
      i := i + 1;
    }
  }

  /** The lazily filled string cache beside a text or message: once filled it
      holds the content's string form. */
  datatype Cached<T> = Cached(value: T, cache: Option<T>)

  ghost predicate ValidCache<T>(c: Cached<T>) {
    c.cache.Some? ==> c.cache.value == c.value
  }

  /** `getContentAsString` of a text or message: the first call fills the
      cache, every call answers the content and keeps the cache valid. */
  function AsString<T>(c: Cached<T>): (r: (T, Cached<T>))
    requires ValidCache(c)
    ensures r.0 == c.value
    ensures r.1.value == c.value && r.1.cache == Some(c.value)
  {
    match c.cache
    case Some(s) => (s, c)
    case None => (c.value, c.(cache := Some(c.value)))
  }

  /** Repeated calls answer the same value and change nothing more. */
  lemma AsStringStable<T>(c: Cached<T>)
    requires ValidCache(c)
    ensures ValidCache(AsString(c).1)
    ensures AsString(AsString(c).1) == (AsString(c).0, AsString(c).1)
  {
  }

  // ---------------------------------------------------------------------
  // Equality and hashing

  /** `Arrays.equals` on two character arrays. */
  method ArraysEquals(a: string, b: string) returns (r: bool)
    ensures r <==> a == b
    ensures r ==> ArraysHash(a) == ArraysHash(b)
  {
    if |a| != |b| {
      return false;
    }
    var i := 0;
    while i < |a|
      invariant 0 <= i <= |a|
      invariant a[..i] == b[..i]
    {
      if a[i] != b[i] {
        return false;
      }
      i := i + 1;
    }
    assert a == a[..i] && b == b[..i];
    return true;
  }

  /** `Arrays.hashCode` of a character array: `31 * h + c` from 1, with
      Java `int` wrap-around. */
  function ArraysHash(a: string): (r: int)
    ensures JavaLang.MinInt32 <= r <= JavaLang.MaxInt32
  {
    if |a| == 0 then 1
    else JavaLang.Wrap32(31 * ArraysHash(a[..|a| - 1]) + a[|a| - 1] as int)
  }

  /** `BasicTranslationText.equals`: equal exactly when the characters are. */
  method TextEquals(t: Text, u: Text) returns (r: bool)
    ensures r <==> t == u
    ensures r ==> TextHash(t) == TextHash(u)
  {
    r := ArraysEquals(t.content, u.content);
  }

  function TextHash(t: Text): int {
    ArraysHash(t.content)
  }

  /** `Arrays.deepEquals` on two arrays of lines. */
  method DeepEquals(a: seq<string>, b: seq<string>) returns (r: bool)
    ensures r <==> a == b
    ensures r ==> DeepHash(a) == DeepHash(b)
  {
    if |a| != |b| {
      return false;
    }
    var i := 0;
    while i < |a|
      invariant 0 <= i <= |a|
      invariant a[..i] == b[..i]
    {
      var same := ArraysEquals(a[i], b[i]);
      if !same {
        return false;
      }
      i := i + 1;
    }
    assert a == a[..i] && b == b[..i];
    return true;
  }

  /** `Arrays.deepHashCode` of an array of lines. */
  function DeepHash(a: seq<string>): (r: int)
    ensures JavaLang.MinInt32 <= r <= JavaLang.MaxInt32
  {
    if |a| == 0 then 1
    else JavaLang.Wrap32(31 * DeepHash(a[..|a| - 1]) + ArraysHash(a[|a| - 1]))
  }

  /** `BasicTranslationMessage.equals`: equal exactly when every line is. */
  method MessageEquals(m: Message, n: Message) returns (r: bool)
    ensures r <==> m == n
    ensures r ==> DeepHash(m.lines) == DeepHash(n.lines)
  {
    r := DeepEquals(m.lines, n.lines);
  }

  // ---------------------------------------------------------------------
  // Replacement

  /** The replacement each content applies: every non-overlapping
      occurrence, left to right. An empty field or value changes nothing. */
  function ReplaceLine(line: string, field: string, value: string): string {
    Characters.ReplaceAll(line, field, value)
  }

  /** Does `field` occur in `line`? */
  predicate Occurs(line: string, field: string) {
    |field| > 0 && Characters.IndexOf(line, field, 0) != -1
  }

  /** A field that does not occur leaves a line as it is. */
  lemma AbsentKeepsLine(line: string, field: string, value: string)
    requires !Occurs(line, field)
    ensures ReplaceLine(line, field, value) == line
  {
    if |line| > 0 && |field| > 0 && |value| > 0 {
      Characters.ReplaceFromDone(line, field, value, 0, -1);
    }
  }

  /** `BasicReplaceableTranslationText.replace(field, value)`. */
  function ReplaceText(t: Text, field: string, value: string): (r: Text)
    ensures |field| == 0 || |value| == 0 || !Occurs(t.content, field) ==> r == t
    ensures r.content == ReplaceLine(t.content, field, value)
  {
    if |field| == 0 || |value| == 0 then t
    else if Characters.IndexOf(t.content, field, 0) == -1 then
      AbsentKeepsLine(t.content, field, value);
      t
    else Text(Characters.ReplaceAll(t.content, field, value))
  }

  /** The entries of a replacement map in its iteration order. */
  type Entries = seq<(string, string)>

  /** The entries applied one after the other to a line. */
  function ApplyEntries(line: string, entries: Entries): string
    decreases |entries|
  {
    if |entries| == 0 then line
    else ApplyEntries(ReplaceLine(line, entries[0].0, entries[0].1), entries[1..])
  }

  /** Some non-empty key of the map occurs in the line. */
  predicate AnyOccurs(line: string, entries: Entries) {
    exists i :: 0 <= i < |entries| && Occurs(line, entries[i].0)
  }

  /** No key occurs: the entries leave the line as it is. */
  lemma {:induction false} NoneOccursKeepsLine(line: string, entries: Entries)
    requires !AnyOccurs(line, entries)
    ensures ApplyEntries(line, entries) == line
    decreases |entries|
  {
    if |entries| > 0 {
      AbsentKeepsLine(line, entries[0].0, entries[0].1);
      assert !AnyOccurs(line, entries[1..]) by {
        forall i | 0 <= i < |entries[1..]|
          ensures !Occurs(line, entries[1..][i].0)
        {
          assert entries[1..][i] == entries[i + 1];
        }
      }
      NoneOccursKeepsLine(line, entries[1..]);
    }
  }

  /** Applying two runs of entries is applying their concatenation. */
  lemma {:induction false} ApplyEntriesAppend(line: string, first: Entries, second: Entries)
    ensures ApplyEntries(ApplyEntries(line, first), second) == ApplyEntries(line, first + second)
    decreases |first|
  {
    if |first| == 0 {
      assert first + second == second;
    } else {
      assert (first + second)[1..] == first[1..] + second;
      ApplyEntriesAppend(ReplaceLine(line, first[0].0, first[0].1), first[1..], second);
    }
  }

  /** The search of the source for a key that occurs in the text. */
  method NeedsReplacement(line: string, entries: Entries) returns (needed: bool)
    ensures needed <==> AnyOccurs(line, entries)
  {
    var i := 0;
    while i < |entries|
      invariant 0 <= i <= |entries|
      invariant forall k :: 0 <= k < i ==> !Occurs(line, entries[k].0)
    {
      var field := entries[i].0;
      if |field| > 0 {
        var at := Characters.IndexOfLoop(line, field, 0);
        if at != -1 {
          return true;
        }
      }
      i := i + 1;
    }
    return false;
  }

  /** `BasicReplaceableTranslationText.replace(map)`: a missing or empty map
      or a map none of whose keys occurs returns the text itself; otherwise
      the entries are applied in iteration order to the running content, so
      a later key can match what an earlier value inserted. */
  method ReplaceTextMap(t: Text, values: Option<Entries>) returns (r: Text)
    ensures values.None? ==> r == t
    ensures values.Some? ==> r.content == ApplyEntries(t.content, values.value)
    ensures values.Some? && !AnyOccurs(t.content, values.value) ==> r == t
  {
    if values.None? || |values.value| == 0 {
      return t;
    }
    var entries := values.value;
    var needed := NeedsReplacement(t.content, entries);
    if !needed {
      NoneOccursKeepsLine(t.content, entries);
      return t;
    }
    var content := t.content;
    var i := 0;
    while i < |entries|
      invariant 0 <= i <= |entries|
      invariant ApplyEntries(content, entries[i..]) == ApplyEntries(t.content, entries)
    {
      var (field, value) := entries[i];
      if |field| > 0 && |value| > 0 {
        var next := Characters.ReplaceEvery(Some(content), Some(field), Some(value));
        content := next.value;
      }
      assert entries[i..][1..] == entries[i + 1..];
      i := i + 1;
    }
    return Text(content);
  }

  /** Entries are applied to the running content: a later key matches what an
      earlier value inserted. */
  lemma LaterKeySeesEarlierValue()
    ensures ApplyEntries("{a}", [("{a}", "{b}"), ("{b}", "x")]) == "x"
  {
    assert Characters.MatchAt("{a}", "{a}", 0);
    assert Characters.ReplaceFrom("{a}", "{a}", "{b}", 3, -1) == "";
    assert ReplaceLine("{a}", "{a}", "{b}") == "{b}";
    assert Characters.MatchAt("{b}", "{b}", 0);
    assert Characters.ReplaceFrom("{b}", "{b}", "x", 3, -1) == "";
    assert ReplaceLine("{b}", "{b}", "x") == "x";
    assert [("{a}", "{b}"), ("{b}", "x")][1..] == [("{b}", "x")];
  }

  /** `text.replace(f1, v1).replace(f2, v2)...`: single replacements chained
      in the order of the entries. */
  function Chain(t: Text, entries: Entries): Text
    decreases |entries|
  {
    if |entries| == 0 then t else Chain(ReplaceText(t, entries[0].0, entries[0].1), entries[1..])
  }

  /** Chained single replacements give the map replacement of their entries. */
  lemma {:induction false} ChainedIsMap(t: Text, entries: Entries)
    ensures Chain(t, entries).content == ApplyEntries(t.content, entries)
    decreases |entries|
  {
    if |entries| > 0 {
      ChainedIsMap(ReplaceText(t, entries[0].0, entries[0].1), entries[1..]);
    }
  }

  // ---------------------------------------------------------------------
  // Messages: every line separately

  /** Some line of the message holds `field`. */
  predicate AnyLineHolds(lines: seq<string>, field: string) {
    exists i :: 0 <= i < |lines| && Occurs(lines[i], field)
  }

  /** The search of the source for a line that holds a non-empty `field`. */
  method LineHolding(lines: seq<string>, field: string) returns (found: bool)
    requires |field| > 0
    ensures found <==> AnyLineHolds(lines, field)
  {
    var i := 0;
    while i < |lines|
      invariant 0 <= i <= |lines|
      invariant forall k :: 0 <= k < i ==> !Occurs(lines[k], field)
    {
      var at := Characters.IndexOfLoop(lines[i], field, 0);
      if at != -1 {
        return true;
      }
      i := i + 1;
    }
    return false;
  }

  /** `BasicReplaceableTranslationMessage.replace(field, value)`: the same
      number of lines, each replaced on its own; the message itself when the
      field or value is empty or no line holds the field. */
  method ReplaceMessage(m: Message, field: string, value: string) returns (r: Message)
    ensures |r.lines| == |m.lines|
    ensures forall i :: 0 <= i < |m.lines| ==> r.lines[i] == ReplaceLine(m.lines[i], field, value)
    ensures |field| == 0 || |value| == 0 || !AnyLineHolds(m.lines, field) ==> r == m
  {
    if |field| == 0 || |value| == 0 {
      return m;
    }
    var found := LineHolding(m.lines, field);
    if !found {
      forall k | 0 <= k < |m.lines|
        ensures ReplaceLine(m.lines[k], field, value) == m.lines[k]
      {
        AbsentKeepsLine(m.lines[k], field, value);
      }
      return m;
    }
    var lines: seq<string> := [];
    var j := 0;
    while j < |m.lines|
      invariant 0 <= j <= |m.lines| && |lines| == j
      invariant forall k :: 0 <= k < j ==> lines[k] == ReplaceLine(m.lines[k], field, value)
    {
      var next := Characters.ReplaceEvery(Some(m.lines[j]), Some(field), Some(value));
      lines := lines + [next.value];
      j := j + 1;
    }
    r := Message(lines);
  }

  /** Some non-empty key occurs in some line. */
  predicate AnyKeyInAnyLine(lines: seq<string>, entries: Entries) {
    exists i :: 0 <= i < |lines| && AnyOccurs(lines[i], entries)
  }

  /** `BasicReplaceableTranslationMessage.replace(map)`: every line gets all
      entries in iteration order; the line count is kept, and the message is
      returned as it is when no key occurs anywhere. */
  method ReplaceMessageMap(m: Message, values: Option<Entries>) returns (r: Message)
    ensures values.None? ==> r == m
    ensures |r.lines| == |m.lines|
    ensures values.Some? ==> forall i :: 0 <= i < |m.lines| ==> r.lines[i] == ApplyEntries(m.lines[i], values.value)
    ensures values.Some? && !AnyKeyInAnyLine(m.lines, values.value) ==> r == m
  {
    if values.None? {
      return m;
    }
    var entries := values.value;
    var i := 0;
    while i < |m.lines|
      invariant 0 <= i <= |m.lines|
      invariant forall k :: 0 <= k < i ==> !AnyOccurs(m.lines[k], entries)
    {
      var needed := NeedsReplacement(m.lines[i], entries);
      if needed {
        break;
      }
      i := i + 1;
    }
    if i == |m.lines| {
      forall k | 0 <= k < |m.lines|
        ensures ApplyEntries(m.lines[k], entries) == m.lines[k]
      {
        NoneOccursKeepsLine(m.lines[k], entries);
      }
      return m;
    }
    var lines: seq<string> := [];
    var j := 0;
    while j < |m.lines|
      invariant 0 <= j <= |m.lines| && |lines| == j
      invariant forall k :: 0 <= k < j ==> lines[k] == ApplyEntries(m.lines[k], entries)
    {
      var line := ReplaceTextMap(Text(m.lines[j]), Some(entries));
      lines := lines + [line.content];
      j := j + 1;
    }
    r := Message(lines);
  }
}
