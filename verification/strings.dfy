/** `Strings.containsBrackets`: does the text hold a non-empty `{...}`
    pair whose opening brace is not the first character? */
module Strings {
  import opened Wrappers

  /** Position `i` holds a `'}'` whose most recent earlier `'{'` sits at a
      position `j` with `0 < j` and at least one character between them. */
  ghost predicate ClosesAt(s: string, i: int) {
    0 <= i < |s| && s[i] == '}'
    && exists j :: 0 < j < i - 1 && s[j] == '{' && NoOpenBetween(s, j, i)
  }

  /** No `'{'` strictly between positions `j` and `i`. */
  ghost predicate NoOpenBetween(s: string, j: int, i: int)
    requires 0 <= j && i <= |s|
  {
    forall k :: j < k < i ==> s[k] != '{'
  }

  /** The reference answer: some position closes a bracket pair. */
  ghost predicate HasBrackets(s: string) {
    exists i :: 0 <= i < |s| && ClosesAt(s, i)
  }

  /** The scan of the source: `start` remembers the last `'{'` (0 until one
      is seen) and the first `'}'` with `start != 0` and `start + 1 != i`
      answers true. A missing string answers false. */
  method ContainsBrackets(content: Option<string>) returns (r: bool)
    ensures content.None? ==> !r
    ensures content.Some? ==> (r <==> HasBrackets(content.value))
  {
    if content.None? || |content.value| == 0 {
      return false;
    }
    var s := content.value;
    var start := 0;
    var i := 0;
    while i < |s|
      invariant 0 <= i <= |s|
      invariant start == 0 ==> NoOpenBetween(s, 0, i)
      invariant start != 0 ==> start < i && s[start] == '{' && NoOpenBetween(s, start, i)
      invariant forall m :: 0 <= m < i ==> !ClosesAt(s, m)
    {
      if s[i] == '{' {
        start := i;
      } else if s[i] == '}' && start != 0 && start + 1 != i {
        assert ClosesAt(s, i);
        return true;
      }
      i := i + 1;
    }
    return false;
  }

  /** A placeholder that opens the text, such as "{name}", is not reported. */
  lemma LeadingPlaceholderIgnored()
    ensures !HasBrackets("{name}")
  {
    var s := "{name}";
    forall i, j | 0 < j < i - 1 && i < |s|
      ensures !(s[j] == '{' && NoOpenBetween(s, j, i))
    {
      assert s[j] != '{';
    }
  }

  /** The same placeholder after one character is reported. */
  lemma InnerPlaceholderFound()
    ensures HasBrackets("a{name}")
  {
    var s := "a{name}";
    assert NoOpenBetween(s, 1, 6);
    assert ClosesAt(s, 6);
  }

  /** Empty pairs "{}" never count: a text whose every `'}'` directly
      follows a `'{'` is not reported. */
  lemma EmptyPairIgnored(s: string)
    requires forall k :: 0 < k < |s| && s[k] == '}' ==> s[k - 1] == '{'
    ensures !HasBrackets(s)
  {
    forall i, j | 0 < j < i - 1 && i < |s| && s[i] == '}'
      ensures !(s[j] == '{' && NoOpenBetween(s, j, i))
    {
      assert s[i - 1] == '{';
    }
  }
}
