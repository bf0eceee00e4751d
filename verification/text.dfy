/**
  Character classes and string helpers shared by the field validators of
  public/script.js.

  A Dafny `string` is a sequence of Unicode scalar values, while a JavaScript
  string is a sequence of UTF-16 code units. For a string whose surrogates
  are all paired, the validators can tell the two apart only through
  `length`, modelled by Utf16Length: the positive classes they use contain
  no surrogate half, and the negated class `[^\s@]` accepts a surrogate pair
  exactly as it accepts the scalar value the pair encodes.
*/
module Text {

  /** ECMAScript WhiteSpace together with LineTerminator: exactly the
      characters matched by the regular-expression class `\s` and removed by
      String.prototype.trim (TAB, LF, VT, FF, CR, the space separators of
      category Zs, LINE SEPARATOR, PARAGRAPH SEPARATOR and the BOM). */
  predicate IsWhitespace(c: char) {
    var n := c as int;
    || n == 0x09 || n == 0x0A || n == 0x0B || n == 0x0C || n == 0x0D
    || n == 0x20 || n == 0xA0 || n == 0x1680
    || (0x2000 <= n <= 0x200A)
    || n == 0x2028 || n == 0x2029 || n == 0x202F || n == 0x205F
    || n == 0x3000 || n == 0xFEFF
  }

  predicate IsAsciiUpper(c: char) { 'A' <= c <= 'Z' }

  predicate IsAsciiLower(c: char) { 'a' <= c <= 'z' }

  /** `\d` without the `u` flag: the ten ASCII digits only. */
  predicate IsAsciiDigit(c: char) { '0' <= c <= '9' }

  ghost predicate AllWhitespace(s: string) {
    forall k :: 0 <= k < |s| ==> IsWhitespace(s[k])
  }

  /** A scalar value that UTF-16 encodes as a single code unit. */
  predicate IsBmp(c: char) { c as int <= 0xFFFF }

  /** JavaScript's `length`: the number of UTF-16 code units of `s`. */
  function Utf16Length(s: string): (n: nat)
    ensures |s| <= n <= 2 * |s|
    ensures n == |s| <==> forall k :: 0 <= k < |s| ==> IsBmp(s[k])
  {
    if |s| == 0 then 0
    else
      var rest := s[1..];
      assert forall k :: 0 < k < |s| ==> s[k] == rest[k - 1];
      (if IsBmp(s[0]) then 1 else 2) + Utf16Length(rest)
  }

  /** `length` is additive over concatenation. */
  lemma {:induction false} Utf16LengthAppend(a: string, b: string)
    ensures Utf16Length(a + b) == Utf16Length(a) + Utf16Length(b)
  {
    if |a| == 0 {
      assert a + b == b;
    } else {
      assert (a + b)[1..] == a[1..] + b;
      Utf16LengthAppend(a[1..], b);
    }
  }

  /** The number of whitespace characters at the start of `s`. */
  function LeadingWhitespace(s: string): (n: nat)
    ensures n <= |s|
    ensures forall k :: 0 <= k < n ==> IsWhitespace(s[k])
    ensures n < |s| ==> !IsWhitespace(s[n])
  {
    if |s| == 0 || !IsWhitespace(s[0]) then 0
    else
      var rest := s[1..];
      assert forall k :: 0 < k < |s| ==> s[k] == rest[k - 1];
      1 + LeadingWhitespace(rest)
  }

  /** The number of whitespace characters at the end of `s`. */
  function TrailingWhitespace(s: string): (n: nat)
    ensures n <= |s|
    ensures forall k :: |s| - n <= k < |s| ==> IsWhitespace(s[k])
    ensures n < |s| ==> !IsWhitespace(s[|s| - n - 1])
  {
    if |s| == 0 || !IsWhitespace(s[|s| - 1]) then 0
    else
      var rest := s[..|s| - 1];
      assert forall k :: 0 <= k < |rest| ==> s[k] == rest[k];
      1 + TrailingWhitespace(rest)
  }

  /** Neither the first nor the last character of `r` is whitespace. */
  predicate Unpadded(r: string) {
    |r| == 0 || (!IsWhitespace(r[0]) && !IsWhitespace(r[|r| - 1]))
  }

  /** `r` is the slice s[i..j] of `s`, everything outside the slice is
      whitespace, and `r` itself neither starts nor ends with whitespace. */
  ghost predicate TrimmedAt(r: string, s: string, i: int, j: int) {
    && 0 <= i <= j <= |s|
    && (forall k :: 0 <= k < i ==> IsWhitespace(s[k]))
    && (forall k :: j <= k < |s| ==> IsWhitespace(s[k]))
    && r == s[i..j]
    && Unpadded(r)
  }

  /** What String.prototype.trim promises: `r` is `s` with its leading and
      trailing whitespace removed and nothing else. */
  ghost predicate IsTrimOf(r: string, s: string) {
    exists i, j :: TrimmedAt(r, s, i, j)
  }

  /** String.prototype.trim. */
  function Trim(s: string): (r: string)
    ensures IsTrimOf(r, s)
    ensures |r| == 0 <==> AllWhitespace(s)
    ensures |r| <= |s|
  {
    var i := LeadingWhitespace(s);
    if i == |s| then
      assert TrimmedAt([], s, |s|, |s|);
      []
    else
      var j := |s| - TrailingWhitespace(s);
      assert i < j;
      assert TrimmedAt(s[i..j], s, i, j);
      s[i..j]
  }

  /** The trim of a string is unique: any decomposition of `s` into
      whitespace, an unpadded middle and whitespace has Trim(s) as middle. */
  lemma TrimUnique(r: string, s: string, i: int, j: int)
    requires TrimmedAt(r, s, i, j)
    ensures r == Trim(s)
  {
    var a := LeadingWhitespace(s);
    var t := TrailingWhitespace(s);
    if AllWhitespace(s) {
      assert |r| == 0;
    } else {
      assert a < |s|;
      assert |r| > 0 by {
        assert exists k :: 0 <= k < |s| && !IsWhitespace(s[k]);
      }
      assert r[0] == s[i] && r[|r| - 1] == s[j - 1];
      assert i == a;
      assert t < |s|;
      assert j == |s| - t;
    }
  }

  lemma TrimCharacterization(r: string, s: string)
    ensures IsTrimOf(r, s) <==> r == Trim(s)
  {
    if IsTrimOf(r, s) {
      var i, j :| TrimmedAt(r, s, i, j);
      TrimUnique(r, s, i, j);
    }
  }

  /** Trimming twice is trimming once. */
  lemma TrimIdempotent(s: string)
    ensures Trim(Trim(s)) == Trim(s)
  {
  }

  /** A string with no surrounding whitespace is its own trim. */
  lemma TrimOfUnpadded(s: string)
    requires Unpadded(s)
    ensures Trim(s) == s
  {
  }

  /** Trim keeps a contiguous piece of `s`: every character of Trim(s) is a
      character of `s`, and all that is dropped is whitespace. */
  lemma TrimIsSlice(s: string) returns (i: nat, j: nat)
    ensures i <= j <= |s|
    ensures Trim(s) == s[i..j]
    ensures forall k :: 0 <= k < i ==> IsWhitespace(s[k])
    ensures forall k :: j <= k < |s| ==> IsWhitespace(s[k])
  {
    var r := Trim(s);
    var a, b :| TrimmedAt(r, s, a, b);
    i, j := a, b;
  }
}
