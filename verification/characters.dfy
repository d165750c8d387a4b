/** The placeholder-substitution engine over `char[]`: a naive substring
    search, a counter of non-overlapping matches, and a left-to-right
    replacement that writes into a preallocated buffer.

    The pure functions are the reference semantics; the methods follow the
    loop structure of the Java code and are proved to compute them. */
module Characters {
  import opened Wrappers

  /** `pat` occurs in `s` starting at index `i`. */
  predicate MatchAt(s: seq<char>, pat: seq<char>, i: int) {
    0 <= i && i + |pat| <= |s| && forall k :: i <= k < i + |pat| ==> s[k] == pat[k - i]
  }

  /** The first occurrence of `pat` in `s` at or after `from`, or -1. */
  function IndexOf(s: seq<char>, pat: seq<char>, from: nat): (r: int)
    requires |pat| > 0
    ensures r == -1 || (from <= r && r + |pat| <= |s|)
    decreases |s| - from
  {
    if from + |pat| > |s| then -1
    else if MatchAt(s, pat, from) then from
    else IndexOf(s, pat, from + 1)
  }

  /** Number of non-overlapping occurrences found by searching from `from`
      and resuming each time just after the previous occurrence. */
  function CountFrom(s: seq<char>, pat: seq<char>, from: nat): nat
    requires |pat| > 0
    decreases |s| - from
  {
    var i := IndexOf(s, pat, from);
    if i == -1 then 0 else 1 + CountFrom(s, pat, i + |pat|)
  }

  /** One unfolding of `CountFrom`. */
  lemma CountFromStep(s: seq<char>, pat: seq<char>, from: nat, at: int)
    requires |pat| > 0 && at == IndexOf(s, pat, from)
    ensures at == -1 ==> CountFrom(s, pat, from) == 0
    ensures at != -1 ==> CountFrom(s, pat, from) == 1 + CountFrom(s, pat, at + |pat|)
  {
  }

  /** Counting past one more occurrence. */
  lemma CountAdvance(s: seq<char>, pat: seq<char>, start: nat, from: nat, at: int, count: nat)
    requires |pat| > 0 && at == IndexOf(s, pat, from) && at != -1
    requires CountFrom(s, pat, start) == count + CountFrom(s, pat, from)
    ensures CountFrom(s, pat, start) == (count + 1) + CountFrom(s, pat, at + |pat|)
  {
    CountFromStep(s, pat, from, at);
  }

  /** How many occurrences a replacement bounded by `n` rewrites
      (every one when `n` is negative). */
  function Bounded(count: nat, n: int): nat {
    if n < 0 || n >= count then count else n
  }

  /** `s[from..]` with its next `n` occurrences of `pat` (all of them when
      `n` is negative) replaced by `rep`, scanning left to right. */
  function ReplaceFrom(s: seq<char>, pat: seq<char>, rep: seq<char>, from: nat, n: int): seq<char>
    requires |pat| > 0 && from <= |s|
    decreases |s| - from
  {
    if n == 0 then s[from..]
    else
      var i := IndexOf(s, pat, from);
      if i == -1 then s[from..]
      else s[from..i] + rep + ReplaceFrom(s, pat, rep, i + |pat|, if n < 0 then n else n - 1)
  }

  /** What `replace(source, search, replacement, limit)` is meant to return:
      the source itself when any array is empty or the limit is zero,
      otherwise the first `limit` occurrences (all when negative) replaced. */
  function ReplaceSpec(source: seq<char>, search: seq<char>, replacement: seq<char>, limit: int): seq<char> {
    if |source| == 0 || |search| == 0 || |replacement| == 0 || limit == 0 then source
    else ReplaceFrom(source, search, replacement, 0, limit)
  }

  /** Every non-overlapping occurrence replaced: the three-argument overload. */
  function ReplaceAll(source: seq<char>, search: seq<char>, replacement: seq<char>): seq<char> {
    ReplaceSpec(source, search, replacement, -1)
  }

  /** A suffix of `s` is the gap before an occurrence of `pat`, the
      occurrence, and what follows it. */
  lemma Reassemble(s: seq<char>, pat: seq<char>, from: int, i: int, rest: seq<char>)
    requires 0 <= from <= i && i + |pat| <= |s| && s[i..i + |pat|] == pat
    requires rest == s[i + |pat|..]
    ensures s[from..i] + pat + rest == s[from..]
  {
    assert s[from..] == s[from..i] + s[i..];
    assert s[i..] == s[i..i + |pat|] + s[i + |pat|..];
  }

  // ---------------------------------------------------------------------
  // Facts about the reference functions
  // ---------------------------------------------------------------------

  /** The search returns -1 exactly when there is no occurrence at or after
      `from`, and otherwise the leftmost one. */
  lemma {:induction false} IndexOfSpec(s: seq<char>, pat: seq<char>, from: nat)
    requires |pat| > 0
    ensures var r := IndexOf(s, pat, from);
            && (r == -1 || (from <= r && MatchAt(s, pat, r)))
            && (r == -1 ==> forall j :: from <= j ==> !MatchAt(s, pat, j))
            && (r != -1 ==> forall j :: from <= j < r ==> !MatchAt(s, pat, j))
    decreases |s| - from
  {
    if from + |pat| <= |s| && !MatchAt(s, pat, from) {
      IndexOfSpec(s, pat, from + 1);
    }
  }

  /** What the search finds is an occurrence. */
  lemma {:induction false} IndexOfMatches(s: seq<char>, pat: seq<char>, from: nat)
    requires |pat| > 0
    ensures var r := IndexOf(s, pat, from);
            r != -1 ==> from <= r && r + |pat| <= |s| && s[r..r + |pat|] == pat
    decreases |s| - from
  {
    if from + |pat| <= |s| {
      if MatchAt(s, pat, from) {
        MatchSlice(s, pat, from);
      } else {
        IndexOfMatches(s, pat, from + 1);
      }
    }
  }

  /** An occurrence with none before it (from `from` on) is what the search
      finds. */
  lemma IndexOfIsLeftmost(s: seq<char>, pat: seq<char>, from: nat, i: int)
    requires |pat| > 0
    requires from <= i && MatchAt(s, pat, i)
    requires forall j :: from <= j < i ==> !MatchAt(s, pat, j)
    ensures IndexOf(s, pat, from) == i
  {
    IndexOfSpec(s, pat, from);
  }

  /** A single mismatching character rules an occurrence out. */
  lemma MismatchAt(s: seq<char>, pat: seq<char>, i: int, k: int)
    requires 0 <= k < |pat| && 0 <= i && i + k < |s|
    requires s[i + k] != pat[k]
    ensures !MatchAt(s, pat, i)
  {
  }

  /** An occurrence, as a slice. */
  lemma MatchSlice(s: seq<char>, pat: seq<char>, i: int)
    requires MatchAt(s, pat, i)
    ensures s[i..i + |pat|] == pat
  {
  }

  /** Non-overlapping occurrences each take |pat| characters of the text. */
  lemma CountFromBound(s: seq<char>, pat: seq<char>, from: nat)
    requires |pat| > 0 && from <= |s|
    ensures CountFrom(s, pat, from) * |pat| <= |s| - from
  {
    CountFromCovers(s, pat, from);
    ScaleIsProduct(CountFrom(s, pat, from), |pat|);
  }

  lemma {:induction false} CountFromCovers(s: seq<char>, pat: seq<char>, from: nat)
    requires |pat| > 0 && from <= |s|
    ensures Scale(CountFrom(s, pat, from), |pat|) <= |s| - from
    decreases |s| - from
  {
    var i := IndexOf(s, pat, from);
    CountFromStep(s, pat, from, i);
    if i != -1 {
      CountFromCovers(s, pat, i + |pat|);
    }
  }

  /** The length of a replacement grows by |rep| - |pat| per rewritten
      occurrence. */
  lemma {:induction false} ReplaceFromLength(s: seq<char>, pat: seq<char>, rep: seq<char>, from: nat, n: int)
    requires |pat| > 0 && from <= |s|
    ensures |ReplaceFrom(s, pat, rep, from, n)|
            == |s| - from + Scale(Bounded(CountFrom(s, pat, from), n), |rep| - |pat|)
    decreases |s| - from
  {
    var i := IndexOf(s, pat, from);
    CountFromStep(s, pat, from, i);
    if n == 0 || i == -1 {
      ReplaceFromDone(s, pat, rep, from, n);
    } else {
      var n' := if n < 0 then n else n - 1;
      var c := CountFrom(s, pat, i + |pat|);
      ReplaceFromStepLength(s, pat, rep, from, n, i);
      ReplaceFromLength(s, pat, rep, i + |pat|, n');
      BoundedSucc(c, n);
    }
  }

  /** The length of one step of the reference replacement. */
  lemma ReplaceFromStepLength(s: seq<char>, pat: seq<char>, rep: seq<char>, from: nat, n: int, i: int)
    requires |pat| > 0 && from <= |s| && n != 0
    requires i == IndexOf(s, pat, from) && i != -1
    ensures |ReplaceFrom(s, pat, rep, from, n)|
            == (i - from) + |rep| + |ReplaceFrom(s, pat, rep, i + |pat|, if n < 0 then n else n - 1)|
  {
    ReplaceFromStep(s, pat, rep, from, n);
  }

  /** `k` times `d`, as a repeated sum. */
  function Scale(k: nat, d: int): int {
    if k == 0 then 0 else d + Scale(k - 1, d)
  }

  /** The repeated sum is the product. */
  lemma {:induction false} ScaleIsProduct(k: nat, d: int)
    ensures Scale(k, d) == k * d
  {
    if k > 0 {
      ScaleIsProduct(k - 1, d);
      MulSucc(k - 1, d);
    }
  }

  /** Rewriting one occurrence uses up one unit of a positive bound. */
  lemma BoundedSucc(c: nat, n: int)
    requires n != 0
    ensures Bounded(1 + c, n) == 1 + Bounded(c, if n < 0 then n else n - 1)
  {
  }

  /** While the bound still allows a rewrite, the next occurrence exists
      and rewriting it uses up one unit. */
  lemma RewriteOne(s: seq<char>, pat: seq<char>, from: nat, n: int, at: int)
    requires |pat| > 0 && at == IndexOf(s, pat, from)
    requires Bounded(CountFrom(s, pat, from), n) > 0
    ensures at != -1 && n != 0
    ensures Bounded(CountFrom(s, pat, from), n)
            == 1 + Bounded(CountFrom(s, pat, at + |pat|), if n < 0 then n else n - 1)
  {
    CountFromStep(s, pat, from, at);
    if at != -1 && n != 0 {
      BoundedSucc(CountFrom(s, pat, at + |pat|), n);
    }
  }

  /** Once the bound allows no more rewrites, the rest is copied as is. */
  lemma NothingToRewrite(s: seq<char>, pat: seq<char>, rep: seq<char>, from: nat, n: int)
    requires |pat| > 0 && from <= |s|
    requires Bounded(CountFrom(s, pat, from), n) == 0
    ensures ReplaceFrom(s, pat, rep, from, n) == s[from..]
  {
    CountFromStep(s, pat, from, IndexOf(s, pat, from));
    ReplaceFromDone(s, pat, rep, from, n);
  }

  /** `(b + 1) * d` distributed. */
  lemma MulSucc(b: int, d: int)
    ensures (1 + b) * d == d + b * d
  {
  }

  /** With no limit, the result length is |source| + count * (|replacement| - |search|). */
  lemma ReplaceAllLength(source: seq<char>, search: seq<char>, replacement: seq<char>)
    requires |source| > 0 && |search| > 0 && |replacement| > 0
    ensures |ReplaceAll(source, search, replacement)|
            == |source| + CountFrom(source, search, 0) * (|replacement| - |search|)
  {
    ReplaceFromLength(source, search, replacement, 0, -1);
    ScaleIsProduct(CountFrom(source, search, 0), |replacement| - |search|);
  }

  /** With the bound used up or no occurrence left, the rest is copied. */
  lemma ReplaceFromDone(s: seq<char>, pat: seq<char>, rep: seq<char>, from: nat, n: int)
    requires |pat| > 0 && from <= |s|
    requires n == 0 || IndexOf(s, pat, from) == -1
    ensures ReplaceFrom(s, pat, rep, from, n) == s[from..]
  {
  }

  /** Replacing a pattern by itself changes nothing. */
  lemma {:induction false} ReplaceFromIdentity(s: seq<char>, pat: seq<char>, from: nat, n: int)
    requires |pat| > 0 && from <= |s|
    ensures ReplaceFrom(s, pat, pat, from, n) == s[from..]
    decreases |s| - from
  {
    var i := IndexOf(s, pat, from);
    if n == 0 || i == -1 {
      ReplaceFromDone(s, pat, pat, from, n);
    } else {
      ReplaceFromIdentity(s, pat, i + |pat|, if n < 0 then n else n - 1);
      IdentityStep(s, pat, from, n);
    }
  }

  /** The step of `ReplaceFromIdentity`: an occurrence put back in place of
      itself, followed by an unchanged rest. */
  lemma IdentityStep(s: seq<char>, pat: seq<char>, from: nat, n: int)
    requires |pat| > 0 && from <= |s| && n != 0
    requires IndexOf(s, pat, from) != -1
    requires var i := IndexOf(s, pat, from);
             ReplaceFrom(s, pat, pat, i + |pat|, if n < 0 then n else n - 1) == s[i + |pat|..]
    ensures ReplaceFrom(s, pat, pat, from, n) == s[from..]
  {
    var i := IndexOf(s, pat, from);
    IndexOfMatches(s, pat, from);
    ReplaceFromStep(s, pat, pat, from, n);
    Reassemble(s, pat, from, i, s[i + |pat|..]);
  }

  // ---------------------------------------------------------------------
  // The Java loops. The input arrays are only ever read, so they are
  // sequences here; the output buffer is an array.
  // ---------------------------------------------------------------------

  /** `_indexOf(source, search, offset)`: skip to the next candidate first
      character, then compare the rest of `search` character by character. */
  method IndexOfLoop(source: seq<char>, search: seq<char>, offset: int) returns (r: int)
    requires |search| > 0
    requires 0 <= offset
    ensures r == IndexOf(source, search, offset)
  {
    if 0 > |source| - offset - |search| + 1 {
      return -1;
    }
    var first := search[0];
    var limit := |source| - |search|;
    var i := offset;
    while i <= limit
      invariant offset <= i
      invariant forall j :: offset <= j < i ==> !MatchAt(source, search, j)
      decreases limit + 1 - i
    {
      if source[i] != first {
        MismatchAt(source, search, i, 0);
        i := i + 1;
        while i <= limit && source[i] != first
          invariant offset <= i
          invariant forall j :: offset <= j < i ==> !MatchAt(source, search, j)
          decreases limit + 1 - i
        {
          MismatchAt(source, search, i, 0);
          i := i + 1;
        }
      }
      if i <= limit {
        var j := i + 1;
        var end := j + |search| - 1;
        var k := 1;
        while j < end && source[j] == search[k]
          invariant i + 1 <= j <= end && k == j - i
          invariant forall m :: i <= m < j ==> source[m] == search[m - i]
          decreases end - j
        {
          j := j + 1;
          k := k + 1;
        }
        if j == end {
          IndexOfIsLeftmost(source, search, offset, i);
          return i;
        }
        MismatchAt(source, search, i, k);
      }
      i := i + 1;
    }
    IndexOfSpec(source, search, offset);
    return -1;
  }

  /** `_count(source, search, first)`: the occurrences after the one at
      `first`, each search resuming just past the previous match. */
  method CountLoop(source: seq<char>, search: seq<char>, first: int) returns (count: nat)
    requires |search| > 0
    requires 0 <= first
    ensures count == CountFrom(source, search, first + |search|)
  {
    count := 0;
    ghost var from := first + |search|;
    var offset := IndexOfLoop(source, search, first + |search|);
    while offset != -1
      invariant offset == IndexOf(source, search, from)
      invariant CountFrom(source, search, first + |search|) == count + CountFrom(source, search, from)
      decreases |source| - from
    {
      CountAdvance(source, search, first + |search|, from, offset, count);
      count := count + 1;
      from := offset + |search|;
      offset := IndexOfLoop(source, search, offset + |search|);
    }
    CountFromStep(source, search, from, offset);
  }

  /** `System.arraycopy` from a sequence into an array, with Java's bounds
      checks as the precondition. */
  method ArrayCopy(src: seq<char>, srcPos: int, dst: array<char>, dstPos: int, length: int)
    requires 0 <= srcPos && 0 <= dstPos && 0 <= length
    requires srcPos + length <= |src| && dstPos + length <= dst.Length
    modifies dst
    ensures dst[..] == old(dst[..])[..dstPos] + src[srcPos..srcPos + length] + old(dst[..])[dstPos + length..]
  {
    ghost var before := dst[..];
    var k := 0;
    while k < length
      invariant 0 <= k <= length
      invariant forall m :: 0 <= m < dst.Length && !(dstPos <= m < dstPos + k) ==> dst[m] == before[m]
      invariant forall m :: dstPos <= m < dstPos + k ==> dst[m] == src[srcPos + (m - dstPos)]
    {
      dst[dstPos + k] := src[srcPos + k];
      k := k + 1;
    }
  }

  /** Copies the gap before an occurrence and then the replacement into
      `buffer`, the two `System.arraycopy` calls of one loop iteration. */
  method CopyOccurrence(source: seq<char>, replacement: seq<char>, buffer: array<char>,
                        a: int, b: int, first: int, start: int) returns (next: int)
    requires 0 <= b <= first <= |source|
    requires 0 <= a && start == a + (first - b) && start + |replacement| <= buffer.Length
    modifies buffer
    ensures next == start + |replacement|
    ensures buffer[..next] == old(buffer[..a]) + source[b..first] + replacement
  {
    ArrayCopy(source, b, buffer, a, first - b);
    assert buffer[..start] == old(buffer[..a]) + source[b..first];
    ArrayCopy(replacement, 0, buffer, start, |replacement|);
    next := start + |replacement|;
    assert buffer[..next] == buffer[..start] + replacement;
  }

  /** One step of the reference replacement: the gap, the replacement, and
      the rest of the text after the occurrence. */
  lemma ReplaceFromStep(s: seq<char>, pat: seq<char>, rep: seq<char>, from: nat, n: int)
    requires |pat| > 0 && from <= |s| && n != 0
    requires IndexOf(s, pat, from) != -1
    ensures var i := IndexOf(s, pat, from);
            ReplaceFrom(s, pat, rep, from, n)
            == s[from..i] + rep + ReplaceFrom(s, pat, rep, i + |pat|, if n < 0 then n else n - 1)
  {
  }

  /** Rewriting the next occurrence keeps the text produced so far a prefix
      of the final result, and leaves room for the rest. */
  lemma StepKeepsFinal(s: seq<char>, pat: seq<char>, rep: seq<char>, from: nat, n: int,
                       at: int, done: seq<char>, final: seq<char>)
    requires |pat| > 0 && from <= |s| && n != 0
    requires at == IndexOf(s, pat, from) && at != -1
    requires done + ReplaceFrom(s, pat, rep, from, n) == final
    ensures from <= at && at + |pat| <= |s|
    ensures (done + s[from..at] + rep) + ReplaceFrom(s, pat, rep, at + |pat|, if n < 0 then n else n - 1) == final
    ensures |done| + (at - from) + |rep| <= |final|
  {
    ReplaceFromStep(s, pat, rep, from, n);
    var rest := ReplaceFrom(s, pat, rep, at + |pat|, if n < 0 then n else n - 1);
    assert done + s[from..at] + rep + rest == done + (s[from..at] + rep + rest);
  }

  /** One iteration of the copying loop: the gap before the occurrence at
      `at` and the replacement go to `buffer` at `a`; the i-th occurrence
      lands at `at + shift`, where `shift` is `i * space`. What is left to
      produce is the rest of the final text, with one occurrence fewer. */
  method FillStep(source: seq<char>, search: seq<char>, replacement: seq<char>, buffer: array<char>,
                  a: int, b: int, at: int, shift: int, ghost n: int, ghost final: seq<char>)
    returns (a': int, b': int)
    requires |search| > 0 && 0 <= b <= |source|
    requires at == IndexOf(source, search, b) && Bounded(CountFrom(source, search, b), n) > 0
    requires |final| == buffer.Length
    requires 0 <= a <= buffer.Length && a - b == shift
    requires buffer[..a] + ReplaceFrom(source, search, replacement, b, n) == final
    modifies buffer
    ensures b' == at + |search| && b < b' <= |source|
    ensures 0 <= a' <= buffer.Length
    ensures a' - b' == shift + (|replacement| - |search|)
    ensures buffer[..a'] == old(buffer[..a]) + source[b..at] + replacement
    ensures buffer[..a'] + ReplaceFrom(source, search, replacement, b', if n < 0 then n else n - 1) == final
    ensures Bounded(CountFrom(source, search, b'), if n < 0 then n else n - 1)
            == Bounded(CountFrom(source, search, b), n) - 1
  {
    RewriteOne(source, search, b, n, at);
    ghost var done := buffer[..a];
    StepKeepsFinal(source, search, replacement, b, n, at, done, final);
    var start := at + shift;
    a' := CopyOccurrence(source, replacement, buffer, a, b, at, start);
    b' := at + |search|;
  }

  /** The copying loop: `replaced` occurrences rewritten into `buffer`,
      leaving the untouched tail `source[b..]` still to copy. The offset
      `i * space` of the i-th occurrence is kept as the running sum
      `shift`. */
  method FillLoop(source: seq<char>, search: seq<char>, replacement: seq<char>, buffer: array<char>,
                  first: int, replaced: nat, ghost limit: int, ghost final: seq<char>)
    returns (a: int, b: int)
    requires |search| > 0 && limit != 0
    requires first == IndexOf(source, search, 0) && first != -1
    requires replaced == Bounded(CountFrom(source, search, 0), limit)
    requires final == ReplaceFrom(source, search, replacement, 0, limit)
    requires |final| == buffer.Length
    modifies buffer
    ensures 0 <= b <= |source| && 0 <= a <= buffer.Length
    ensures buffer[..a] + source[b..] == final
  {
    var space := |replacement| - |search|;
    a, b := 0, 0;
    var i := 0;
    var shift := 0;
    var at := first;
    ghost var n := limit;
    while i < replaced
      invariant 0 <= i <= replaced
      invariant 0 <= b <= |source| && 0 <= a <= buffer.Length
      invariant a - b == shift
      invariant Bounded(CountFrom(source, search, b), n) == replaced - i
      invariant i < replaced ==> at == IndexOf(source, search, b)
      invariant buffer[..a] + ReplaceFrom(source, search, replacement, b, n) == final
      decreases replaced - i
    {
      a, b := FillStep(source, search, replacement, buffer, a, b, at, shift, n, final);
      n := if n < 0 then n else n - 1;
      shift := shift + space;
      i := i + 1;
      if i < replaced {
        at := IndexOfLoop(source, search, b);
      }
    }
    NothingToRewrite(source, search, replacement, b, n);
  }

  /** The copying phase of `replace` once the first occurrence and the
      number of occurrences to rewrite are known: a buffer of the final
      length, the loop, then the tail. */
  method Fill(source: seq<char>, search: seq<char>, replacement: seq<char>,
              first: int, replaced: nat, ghost limit: int)
    returns (r: seq<char>)
    requires |search| > 0 && limit != 0
    requires first == IndexOf(source, search, 0) && first != -1
    requires replaced == Bounded(CountFrom(source, search, 0), limit)
    ensures r == ReplaceFrom(source, search, replacement, 0, limit)
  {
    ghost var final := ReplaceFrom(source, search, replacement, 0, limit);
    ReplaceFromLength(source, search, replacement, 0, limit);
    ScaleIsProduct(replaced, |replacement| - |search|);
    var buffer := new char[|source| + replaced * (|replacement| - |search|)];
    var a, b := FillLoop(source, search, replacement, buffer, first, replaced, limit, final);
    ArrayCopy(source, b, buffer, a, |source| - b);
    assert buffer[..] == buffer[..a] + source[b..];
    r := buffer[..];
  }

  /** `replace(source, search, replacement, limit)`, with Java's null as
      `None`: a missing argument hands back the source as it is. */
  method Replace(source: Option<seq<char>>, search: Option<seq<char>>, replacement: Option<seq<char>>,
                 limit: int)
    returns (r: Option<seq<char>>)
    ensures source.None? || search.None? || replacement.None? ==> r == source
    ensures source.Some? && search.Some? && replacement.Some? ==>
              r == Some(ReplaceSpec(source.value, search.value, replacement.value, limit))
  {
    if source.None? || |source.value| == 0 || search.None? || |search.value| == 0
       || replacement.None? || |replacement.value| == 0 || limit == 0 {
      return source;
    }
    var s, p, rep := source.value, search.value, replacement.value;
    var first := IndexOfLoop(s, p, 0);
    if first == -1 {
      ReplaceFromDone(s, p, rep, 0, limit);
      return source;
    }
    var count := 1;
    if |s| > first + |p| {
      var more := CountLoop(s, p, first);
      count := count + more;
    }
    CountFromStep(s, p, 0, first);
    var replaced := if limit < 0 || limit >= count then count else limit;
    var text := Fill(s, p, rep, first, replaced, limit);
    return Some(text);
  }

  /** The three-argument overload: replace every occurrence. */
  method ReplaceEvery(source: Option<seq<char>>, search: Option<seq<char>>, replacement: Option<seq<char>>)
    returns (r: Option<seq<char>>)
    ensures source.Some? && search.Some? && replacement.Some? ==>
              r == Some(ReplaceAll(source.value, search.value, replacement.value))
    ensures source.None? || search.None? || replacement.None? ==> r == source
  {
    r := Replace(source, search, replacement, -1);
  }
}
