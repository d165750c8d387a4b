/** The few pieces of the Java and Kotlin standard libraries the library
    leans on: 32-bit `int` arithmetic, `System.arraycopy`, `String.trim`,
    `toUpperCase` with the English locale, `split("[_-]")` and Kotlin's
    `isBlank`. */
module JavaLang {
  import opened Wrappers

  const TwoTo32: int := 0x1_0000_0000
  const MinInt32: int := -0x8000_0000
  const MaxInt32: int := 0x7FFF_FFFF

  /** Java `int` wrap-around: the value in [-2^31, 2^31) congruent to `x`. */
  function Wrap32(x: int): (r: int)
    ensures MinInt32 <= r <= MaxInt32
    ensures (r - x) % TwoTo32 == 0
    ensures MinInt32 <= x <= MaxInt32 ==> r == x
  {
    var m := (x - MinInt32) % TwoTo32;
    m + MinInt32
  }

  // ---------------------------------------------------------------------
  // System.arraycopy

  /** `System.arraycopy(src, srcPos, dst, dstPos, length)`: every bound is
      checked before anything is copied. */
  function ArrayCopy(src: seq<char>, srcPos: int, dst: seq<char>, dstPos: int, length: int)
    : (r: Result<seq<char>, Exception>)
    ensures r.Success? <==> 0 <= srcPos && 0 <= dstPos && 0 <= length
                            && srcPos + length <= |src| && dstPos + length <= |dst|
    ensures r.Failure? ==> r.error == IndexOutOfBounds
    ensures r.Success? ==> |r.value| == |dst|
                           && (forall k :: dstPos <= k < dstPos + length ==> r.value[k] == src[srcPos + (k - dstPos)])
                           && (forall k :: 0 <= k < |dst| && !(dstPos <= k < dstPos + length) ==> r.value[k] == dst[k])
  {
    if srcPos < 0 || dstPos < 0 || length < 0 || srcPos + length > |src| || dstPos + length > |dst| then
      Failure(IndexOutOfBounds)
    else
      Success(dst[..dstPos] + src[srcPos..srcPos + length] + dst[dstPos + length..])
  }

  // ---------------------------------------------------------------------
  // String.trim

  /** `trim` removes every character at or below the space, code point 0x20. */
  predicate Trimmable(c: char) {
    c <= ' '
  }

  /** The first index at or after `st` whose character is not trimmable. */
  function TrimStart(s: string, st: nat): (r: nat)
    requires st <= |s|
    ensures st <= r <= |s|
    ensures forall k :: st <= k < r ==> Trimmable(s[k])
    ensures r < |s| ==> !Trimmable(s[r])
    decreases |s| - st
  {
    if st < |s| && Trimmable(s[st]) then TrimStart(s, st + 1) else st
  }

  /** Moves `len` down past the trimmable characters, stopping at `st`. */
  function TrimEnd(s: string, st: nat, len: nat): (r: nat)
    requires st <= len <= |s|
    ensures st <= r <= len
    ensures forall k :: r <= k < len ==> Trimmable(s[k])
    ensures r > st ==> !Trimmable(s[r - 1])
    decreases len
  {
    if st < len && Trimmable(s[len - 1]) then TrimEnd(s, st, len - 1) else len
  }

  /** `String.trim`: the infix between the trimmable characters at either
      end; it starts and ends with a character above the space. */
  function Trim(s: string): (r: string)
    ensures var i := TrimStart(s, 0);
            i + |r| <= |s| && r == s[i..i + |r|]
            && (forall k :: 0 <= k < i ==> Trimmable(s[k]))
            && (forall k :: i + |r| <= k < |s| ==> Trimmable(s[k]))
    ensures |r| > 0 ==> !Trimmable(r[0]) && !Trimmable(r[|r| - 1])
  {
    var st := TrimStart(s, 0);
    s[st..TrimEnd(s, st, |s|)]
  }

  /** Trimming twice trims nothing more. */
  lemma TrimIdempotent(s: string)
    ensures Trim(Trim(s)) == Trim(s)
  {
    var t := Trim(s);
    assert TrimStart(t, 0) == 0;
    assert TrimEnd(t, 0, |t|) == |t|;
  }

  // ---------------------------------------------------------------------
  // toUpperCase(Locale.ENGLISH), on ASCII letters

  function UpperChar(c: char): (r: char)
    ensures 'a' <= c <= 'z' ==> r as int == c as int - 32
    ensures !('a' <= c <= 'z') ==> r == c
  {
    if 'a' <= c <= 'z' then (c as int - 32) as char else c
  }

  function ToUpper(s: string): (r: string)
    ensures |r| == |s|
    ensures forall k :: 0 <= k < |s| ==> r[k] == UpperChar(s[k])
  {
    seq(|s|, k requires 0 <= k < |s| => UpperChar(s[k]))
  }

  /** Upper-casing is idempotent and leaves trimmable characters alone, so it
      commutes with `trim`. */
  lemma ToUpperIdempotent(s: string)
    ensures ToUpper(ToUpper(s)) == ToUpper(s)
  {
  }

  lemma {:induction false} UpperKeepsStart(s: string, st: nat)
    requires st <= |s|
    ensures TrimStart(ToUpper(s), st) == TrimStart(s, st)
    decreases |s| - st
  {
    if st < |s| && Trimmable(s[st]) {
      UpperKeepsStart(s, st + 1);
    }
  }

  lemma {:induction false} UpperKeepsEnd(s: string, st: nat, len: nat)
    requires st <= len <= |s|
    ensures TrimEnd(ToUpper(s), st, len) == TrimEnd(s, st, len)
    decreases len
  {
    if st < len && Trimmable(s[len - 1]) {
      UpperKeepsEnd(s, st, len - 1);
    }
  }

  lemma TrimUpperCommute(s: string)
    ensures ToUpper(Trim(s)) == Trim(ToUpper(s))
  {
    var st := TrimStart(s, 0);
    UpperKeepsStart(s, 0);
    UpperKeepsEnd(s, st, |s|);
    UpperSlice(s, st, TrimEnd(s, st, |s|));
  }

  lemma UpperSlice(s: string, i: nat, j: nat)
    requires i <= j <= |s|
    ensures ToUpper(s[i..j]) == ToUpper(s)[i..j]
  {
  }

  // ---------------------------------------------------------------------
  // split("[_-]")

  predicate IsSeparator(c: char) {
    c == '_' || c == '-'
  }

  /** The number of separators in `s`. */
  function Separators(s: string): nat {
    if |s| == 0 then 0 else (if IsSeparator(s[0]) then 1 else 0) + Separators(s[1..])
  }

  /** The pieces between separators, empty ones included: one more piece
      than there are separators, none of them holding a separator. */
  function Pieces(s: string): (r: seq<string>)
    ensures |r| == 1 + Separators(s)
    ensures forall j, k :: 0 <= j < |r| && 0 <= k < |r[j]| ==> !IsSeparator(r[j][k])
    decreases |s|
  {
    if |s| == 0 then [""]
    else
      var rest := Pieces(s[1..]);
      if IsSeparator(s[0]) then [""] + rest
      else [[s[0]] + rest[0]] + rest[1..]
  }

  /** Removes the empty strings at the end. */
  function DropTrailingEmpty(parts: seq<string>): (r: seq<string>)
    ensures |r| <= |parts| && r == parts[..|r|]
    ensures forall k :: |r| <= k < |parts| ==> parts[k] == ""
    ensures |r| > 0 ==> r[|r| - 1] != ""
  {
    if |parts| > 0 && parts[|parts| - 1] == "" then DropTrailingEmpty(parts[..|parts| - 1])
    else parts
  }

  /** `String.split("[_-]")`: a string without separators is its own single
      piece; otherwise the trailing empty pieces are removed. */
  function Split(s: string): (r: seq<string>)
    ensures (forall k :: 0 <= k < |s| ==> !IsSeparator(s[k])) ==> r == [s]
  {
    if forall k :: 0 <= k < |s| ==> !IsSeparator(s[k]) then [s]
    else DropTrailingEmpty(Pieces(s))
  }

  // ---------------------------------------------------------------------
  // Kotlin isBlank

  /** Kotlin's `Char.isWhitespace` on the JVM: Java `isWhitespace` or
      `isSpaceChar`. */
  predicate KotlinWhitespace(c: char) {
    c == '\t' || c == '\n' || c == '\U{000B}' || c == '\U{000C}' || c == '\r'
    || ('\U{001C}' <= c <= '\U{001F}') || c == ' ' || c == '\U{00A0}' || c == '\U{1680}'
    || ('\U{2000}' <= c <= '\U{200A}') || c == '\U{2028}' || c == '\U{2029}'
    || c == '\U{202F}' || c == '\U{205F}' || c == '\U{3000}'
  }

  predicate IsBlank(s: string) {
    forall k :: 0 <= k < |s| ==> KotlinWhitespace(s[k])
  }
}
