/** `Characters.replace` exactly as the Java code computes it, bugs
    included: the start offset of the rewritten occurrences, the buffer size
    for a positive limit, and the tail copy. Exceptions are `Failure`s; the
    new buffer is filled with `'\0'` as Java's `new char[n]` is.

    The search helpers `_indexOf` and `_count` are the reference functions
    of `Characters` (the loops there are proved to compute them). */
module CharactersAsWritten {
  import opened Wrappers
  import Characters
  import JavaLang

  /** The variables of the copying loop. */
  datatype Loop = Loop(buffer: seq<char>, a: int, b: int, start: int, first: int, free: int)

  /** Iterations `i`, `i + 1`, ... of the copying loop, with the offset of the
      next occurrence computed as `first + (1 < i ? i * space : space)`. */
  function Iterate(source: seq<char>, search: seq<char>, replacement: seq<char>, limit: int,
                   count: int, i: nat, st: Loop): Result<Loop, Exception>
    requires |search| > 0 && 0 <= st.first
    decreases count - i
  {
    if i >= count then Success(st)
    else
      var gap :- JavaLang.ArrayCopy(source, st.b, st.buffer, st.a, st.first - st.b);
      var buffer :- JavaLang.ArrayCopy(replacement, 0, gap, st.start, |replacement|);
      var a := st.start + |replacement|;
      if limit == i then Success(st.(buffer := buffer, a := a))
      else
        var free := |buffer| - a;
        if free < |replacement| then Success(st.(buffer := buffer, a := a, free := free))
        else
          var b := st.first + |search|;
          var first := Characters.IndexOf(source, search, b);
          if first == -1 then Success(Loop(buffer, a, b, st.start, first, free))
          else
            var space := |replacement| - |search|;
            var start := first + (if 1 < i then i * space else space);
            Iterate(source, search, replacement, limit, count, i + 1, Loop(buffer, a, b, start, first, free))
  }

  /** The length of the buffer `replace` allocates: `count * space` more
      than the source for -1 or a limit of at least `count`, otherwise
      `limit * space + (count - limit) * search.length` more. */
  function BufferSize(sourceLength: int, searchLength: int, replacementLength: int, count: int, limit: int): int {
    var space := replacementLength - searchLength;
    sourceLength + (if limit == -1 || limit >= count then count * space
                    else limit * space + (count - limit) * searchLength)
  }

  /** `replace(source, search, replacement, limit)` on non-null arrays. */
  function Replace(source: seq<char>, search: seq<char>, replacement: seq<char>, limit: int)
    : Result<seq<char>, Exception>
  {
    if |source| == 0 || |search| == 0 || |replacement| == 0 || limit == 0 then Success(source)
    else
      var first := Characters.IndexOf(source, search, 0);
      if first == -1 then Success(source)
      else
        var count := if |source| > first + |search| then 1 + Characters.CountFrom(source, search, first + |search|) else 1;
        var size := BufferSize(|source|, |search|, |replacement|, count, limit);
        if size < 0 then Failure(NegativeArraySize)
        else
          var st :- Iterate(source, search, replacement, limit, count, 0,
                            Loop(seq(size, _ => '\0'), 0, 0, first, first, 0));
          if 0 < st.free then
            JavaLang.ArrayCopy(source, st.a + count * (|search| - |replacement|), st.buffer, st.a,
                      |st.buffer| - st.a + (if limit < 0 then 0 else limit))
          else Success(st.buffer)
  }

  /** The early returns are those of the intended replacement. */
  lemma EarlyReturns(source: seq<char>, search: seq<char>, replacement: seq<char>, limit: int)
    requires |source| == 0 || |search| == 0 || |replacement| == 0 || limit == 0
             || Characters.IndexOf(source, search, 0) == -1
    ensures Replace(source, search, replacement, limit) == Success(source)
    ensures Characters.ReplaceSpec(source, search, replacement, limit) == source
  {
    if !(|source| == 0 || |search| == 0 || |replacement| == 0 || limit == 0) {
      Characters.ReplaceFromDone(source, search, replacement, 0, limit);
    }
  }

  /** The search results along "a{P}b{P}c{P}d". */
  lemma SearchThree()
    ensures Characters.IndexOf("a{P}b{P}c{P}d", "{P}", 0) == 1
    ensures Characters.IndexOf("a{P}b{P}c{P}d", "{P}", 4) == 5
    ensures Characters.IndexOf("a{P}b{P}c{P}d", "{P}", 8) == 9
    ensures Characters.IndexOf("a{P}b{P}c{P}d", "{P}", 12) == -1
    ensures Characters.CountFrom("a{P}b{P}c{P}d", "{P}", 4) == 2
  {
    var s, p := "a{P}b{P}c{P}d", "{P}";
    Characters.MismatchAt(s, p, 0, 0);
    assert Characters.MatchAt(s, p, 1);
    Characters.MismatchAt(s, p, 4, 0);
    assert Characters.MatchAt(s, p, 5);
    Characters.MismatchAt(s, p, 8, 0);
    assert Characters.MatchAt(s, p, 9);
  }

  /** The six copies of the loop on "a{P}b{P}c{P}d". */
  lemma CopiesThree()
    ensures JavaLang.ArrayCopy("a{P}b{P}c{P}d", 0, seq(10, _ => '\0'), 0, 1).Success? && JavaLang.ArrayCopy("a{P}b{P}c{P}d", 0, seq(10, _ => '\0'), 0, 1).value == "a\0\0\0\0\0\0\0\0\0"
    ensures JavaLang.ArrayCopy("XY", 0, "a\0\0\0\0\0\0\0\0\0", 1, 2).Success? && JavaLang.ArrayCopy("XY", 0, "a\0\0\0\0\0\0\0\0\0", 1, 2).value == "aXY\0\0\0\0\0\0\0"
    ensures JavaLang.ArrayCopy("a{P}b{P}c{P}d", 4, "aXY\0\0\0\0\0\0\0", 3, 1).Success? && JavaLang.ArrayCopy("a{P}b{P}c{P}d", 4, "aXY\0\0\0\0\0\0\0", 3, 1).value == "aXYb\0\0\0\0\0\0"
    ensures JavaLang.ArrayCopy("XY", 0, "aXYb\0\0\0\0\0\0", 4, 2).Success? && JavaLang.ArrayCopy("XY", 0, "aXYb\0\0\0\0\0\0", 4, 2).value == "aXYbXY\0\0\0\0"
    ensures JavaLang.ArrayCopy("a{P}b{P}c{P}d", 8, "aXYbXY\0\0\0\0", 6, 1).Success? && JavaLang.ArrayCopy("a{P}b{P}c{P}d", 8, "aXYbXY\0\0\0\0", 6, 1).value == "aXYbXYc\0\0\0"
    ensures JavaLang.ArrayCopy("XY", 0, "aXYbXYc\0\0\0", 8, 2).Success? && JavaLang.ArrayCopy("XY", 0, "aXYbXYc\0\0\0", 8, 2).value == "aXYbXYc\0XY"
  {
  }

  /** The copying loop on "a{P}b{P}c{P}d": it stops after the third
      replacement because no room is left, with `free == 0`. */
  lemma IterateThree()
    ensures var r := Iterate("a{P}b{P}c{P}d", "{P}", "XY", -1, 3, 0, Loop(seq(10, _ => '\0'), 0, 0, 1, 1, 0));
            r.Success? && r.value == Loop("aXYbXYc\0XY", 10, 8, 8, 9, 0)
  {
    var s, p, r := "a{P}b{P}c{P}d", "{P}", "XY";
    SearchThree();
    CopiesThree();
    var last := Loop("aXYbXYc\0XY", 10, 8, 8, 9, 0);
    var third := Iterate(s, p, r, -1, 3, 2, Loop("aXYbXY\0\0\0\0", 6, 8, 8, 9, 4));
    assert third.Success? && third.value == last;
    var second := Iterate(s, p, r, -1, 3, 1, Loop("aXY\0\0\0\0\0\0\0", 3, 4, 4, 5, 7));
    assert second.Success? && second.value == last;
  }

  /** Three occurrences: the third replacement is written one place too far
      right, leaving a `'\0'` and dropping the tail. */
  lemma ThirdOccurrenceMisplaced()
    ensures var r := Replace("a{P}b{P}c{P}d", "{P}", "XY", -1); r.Success? && r.value == "aXYbXYc\0XY"
    ensures Characters.ReplaceAll("a{P}b{P}c{P}d", "{P}", "XY") == "aXYbXYcXYd"
  {
    SearchThree();
    IterateThree();
    IntendedThree();
  }

  /** What the replacement should give on "a{P}b{P}c{P}d". */
  lemma IntendedThree()
    ensures Characters.ReplaceAll("a{P}b{P}c{P}d", "{P}", "XY") == "aXYbXYcXYd"
  {
    var s, p, r := "a{P}b{P}c{P}d", "{P}", "XY";
    SearchThree();
    assert s[12..] == "d" && s[8..9] == "c" && s[4..5] == "b" && s[0..1] == "a";
    assert Characters.ReplaceFrom(s, p, r, 12, -1) == "d";
    assert Characters.ReplaceFrom(s, p, r, 8, -1) == "c" + r + "d";
    assert Characters.ReplaceFrom(s, p, r, 4, -1) == "b" + r + "cXYd";
    assert Characters.ReplaceFrom(s, p, r, 0, -1) == "a" + r + "bXYcXYd";
  }

  /** The search results along "{P}{P}{P}". */
  lemma SearchAdjacent()
    ensures Characters.IndexOf("{P}{P}{P}", "{P}", 0) == 0
    ensures Characters.IndexOf("{P}{P}{P}", "{P}", 3) == 3
    ensures Characters.IndexOf("{P}{P}{P}", "{P}", 6) == 6
    ensures Characters.CountFrom("{P}{P}{P}", "{P}", 3) == 2
  {
    var s, p := "{P}{P}{P}", "{P}";
    assert Characters.MatchAt(s, p, 0);
    assert Characters.MatchAt(s, p, 3);
    assert Characters.MatchAt(s, p, 6);
  }

  /** The copying loop on "{P}{P}{P}" with replacement "X": the third
      replacement is aimed at offset 4 of a buffer of length 3. */
  lemma IterateAdjacent()
    ensures var r := Iterate("{P}{P}{P}", "{P}", "X", -1, 3, 0, Loop(seq(3, _ => '\0'), 0, 0, 0, 0, 0));
            r.Failure? && r.error == IndexOutOfBounds
  {
    var s, p, x := "{P}{P}{P}", "{P}", "X";
    SearchAdjacent();
    assert JavaLang.ArrayCopy(x, 0, seq(3, _ => '\0'), 0, 1).value == "X\0\0";
    assert JavaLang.ArrayCopy(x, 0, "X\0\0", 1, 1).value == "XX\0";
    var third := Iterate(s, p, x, -1, 3, 2, Loop("XX\0", 2, 6, 4, 6, 1));
    assert third.Failure? && third.error == IndexOutOfBounds;
    var second := Iterate(s, p, x, -1, 3, 1, Loop("X\0\0", 1, 3, 1, 3, 2));
    assert second.Failure? && second.error == IndexOutOfBounds;
  }

  /** Adjacent occurrences replaced by something shorter: the as-written
      code throws where the replacement should give "XXX". */
  lemma AdjacentShrinkFails()
    ensures var r := Replace("{P}{P}{P}", "{P}", "X", -1); r.Failure? && r.error == IndexOutOfBounds
    ensures Characters.ReplaceAll("{P}{P}{P}", "{P}", "X") == "XXX"
  {
    AdjacentShrinkThrows();
    AdjacentShrinkIntended();
  }

  lemma AdjacentShrinkThrows()
    ensures var r := Replace("{P}{P}{P}", "{P}", "X", -1); r.Failure? && r.error == IndexOutOfBounds
  {
    SearchAdjacent();
    IterateAdjacent();
  }

  /** What the replacement should give on "{P}{P}{P}". */
  lemma AdjacentShrinkIntended()
    ensures Characters.ReplaceAll("{P}{P}{P}", "{P}", "X") == "XXX"
  {
    var s, p, x := "{P}{P}{P}", "{P}", "X";
    SearchAdjacent();
    assert Characters.ReplaceFrom(s, p, x, 9, -1) == "";
    assert Characters.ReplaceFrom(s, p, x, 6, -1) == "X";
    assert Characters.ReplaceFrom(s, p, x, 3, -1) == "XX";
    assert s[0..0] == [];
    assert Characters.ReplaceFrom(s, p, x, 0, -1) == [] + x + "XX";
  }

  /** The search results along "{P}{P}". */
  lemma SearchPair()
    ensures Characters.IndexOf("{P}{P}", "{P}", 0) == 0
    ensures Characters.IndexOf("{P}{P}", "{P}", 3) == 3
    ensures Characters.CountFrom("{P}{P}", "{P}", 3) == 1
  {
    var s, p := "{P}{P}", "{P}";
    assert Characters.MatchAt(s, p, 0);
    assert Characters.MatchAt(s, p, 3);
  }

  /** With limit 1 the loop stops only after the second replacement
      (`limit == i` is tested after the copy), and the tail copy then reads
      past the end of the source. */
  lemma IterateLimitOne()
    ensures var r := Iterate("{P}{P}", "{P}", "X", 1, 2, 0, Loop(seq(7, _ => '\0'), 0, 0, 0, 0, 0));
            r.Success? && r.value == Loop("XX\0\0\0\0\0", 2, 3, 1, 3, 6)
  {
    var s, p, x := "{P}{P}", "{P}", "X";
    SearchPair();
    assert JavaLang.ArrayCopy(x, 0, seq(7, _ => '\0'), 0, 1).value == "X\0\0\0\0\0\0";
    assert JavaLang.ArrayCopy(x, 0, "X\0\0\0\0\0\0", 1, 1).value == "XX\0\0\0\0\0";
    var second := Iterate(s, p, x, 1, 2, 1, Loop("X\0\0\0\0\0\0", 1, 3, 1, 3, 6));
    assert second.Success? && second.value == Loop("XX\0\0\0\0\0", 2, 3, 1, 3, 6);
  }

  /** A limit of 1 on two occurrences: the as-written code throws where the
      replacement should give "X{P}". */
  lemma LimitOneFails()
    ensures var r := Replace("{P}{P}", "{P}", "X", 1); r.Failure? && r.error == IndexOutOfBounds
    ensures Characters.ReplaceSpec("{P}{P}", "{P}", "X", 1) == "X{P}"
  {
    LimitOneThrows();
    LimitOneIntended();
  }

  lemma LimitOneThrows()
    ensures var r := Replace("{P}{P}", "{P}", "X", 1); r.Failure? && r.error == IndexOutOfBounds
  {
    SearchPair();
    IterateLimitOne();
  }

  /** What the replacement should give on "{P}{P}" with limit 1. */
  lemma LimitOneIntended()
    ensures Characters.ReplaceSpec("{P}{P}", "{P}", "X", 1) == "X{P}"
  {
    var s, p, x := "{P}{P}", "{P}", "X";
    SearchPair();
    assert Characters.ReplaceFrom(s, p, x, 3, 0) == "{P}";
    assert s[0..0] == [];
    assert Characters.ReplaceFrom(s, p, x, 0, 1) == [] + x + "{P}";
  }

  /** The search results along "a{P}b". */
  lemma SearchSingle()
    ensures Characters.IndexOf("a{P}b", "{P}", 0) == 1
    ensures Characters.IndexOf("a{P}b", "{P}", 4) == -1
    ensures Characters.CountFrom("a{P}b", "{P}", 4) == 0
  {
    var s, p := "a{P}b", "{P}";
    Characters.MismatchAt(s, p, 0, 0);
    assert Characters.MatchAt(s, p, 1);
  }

  /** With limit -2 the buffer is sized as for a positive limit,
      `5 + (-2) * (-2) + (1 + 2) * 3 == 18`; the one replacement leaves
      16 characters free for the tail copy. */
  lemma IterateBelowMinusOne()
    ensures var r := Iterate("a{P}b", "{P}", "X", -2, 1, 0, Loop(seq(18, _ => '\0'), 0, 0, 1, 1, 0));
            r.Success? && r.value.a == 2 && r.value.free == 16 && |r.value.buffer| == 18
  {
    SearchSingle();
    var gap := JavaLang.ArrayCopy("a{P}b", 0, seq(18, _ => '\0'), 0, 1);
    assert gap.Success? && |gap.value| == 18;
  }

  /** Only -1 takes the "replace all" buffer size: a limit below -1 on
      "a{P}b" makes the tail copy read 16 characters from index 4 of a
      5-character source, where the replacement should give "aXb". */
  lemma BelowMinusOneFails()
    ensures var r := Replace("a{P}b", "{P}", "X", -2); r.Failure? && r.error == IndexOutOfBounds
    ensures Characters.ReplaceSpec("a{P}b", "{P}", "X", -2) == "aXb"
  {
    SearchSingle();
    IterateBelowMinusOne();
    var s, p, x := "a{P}b", "{P}", "X";
    assert s[4..] == "b" && s[0..1] == "a";
    assert Characters.ReplaceFrom(s, p, x, 4, -2) == "b";
    assert Characters.ReplaceFrom(s, p, x, 0, -2) == "a" + x + "b";
  }

  /** With limit 1 on "a{P}b" the buffer has the right length, 3, and one
      character is free after the replacement. */
  lemma IterateLimitOneSingle()
    ensures var r := Iterate("a{P}b", "{P}", "X", 1, 1, 0, Loop(seq(3, _ => '\0'), 0, 0, 1, 1, 0));
            r.Success? && r.value.a == 2 && r.value.free == 1 && |r.value.buffer| == 3
  {
    SearchSingle();
    var gap := JavaLang.ArrayCopy("a{P}b", 0, seq(3, _ => '\0'), 0, 1);
    assert gap.Success? && |gap.value| == 3;
  }

  /** The tail copy takes `buffer.length - a + max(0, limit)` characters,
      `limit` more than remain: with limit 1 on "a{P}b" it reads 2
      characters from index 4 of the 5-character source and throws, where
      the replacement should give "aXb". The late `limit == i` test plays
      no part here, as there is only one occurrence. */
  lemma PositiveLimitTailFails()
    ensures var r := Replace("a{P}b", "{P}", "X", 1); r.Failure? && r.error == IndexOutOfBounds
    ensures Characters.ReplaceSpec("a{P}b", "{P}", "X", 1) == "aXb"
  {
    SearchSingle();
    IterateLimitOneSingle();
    var s, p, x := "a{P}b", "{P}", "X";
    assert s[4..] == "b" && s[0..1] == "a";
    assert Characters.ReplaceFrom(s, p, x, 4, 0) == "b";
    assert Characters.ReplaceFrom(s, p, x, 0, 1) == "a" + x + "b";
  }

  /** Below the count, the buffer is sized with `(count - limit) *
      search.length` for the occurrences left alone, which the source
      already holds: on "{P}{P}" with limit 1 it is 7 characters long where
      the result has 4. */
  lemma PartialLimitOversized()
    ensures BufferSize(6, 3, 1, 2, 1) == 7
    ensures |Characters.ReplaceSpec("{P}{P}", "{P}", "X", 1)| == 4
  {
    LimitOneIntended();
  }
}
