/**
 * The JavaScript string primitives the core relies on: the whitespace class
 * shared by `String.prototype.trim` and the regular-expression escape `\s`,
 * `trim` itself, and `toLowerCase` restricted to ASCII letters.
 */
module JsString {

  /**
   * ECMAScript WhiteSpace and LineTerminator code points: the set matched by
   * the regular-expression escape `\s` and removed by `trim`.
   */
  const WhitespaceChars: set<char> := {
    '\t', '\n', '\U{B}', '\U{C}', '\r', ' ', '\U{A0}', '\U{1680}',
    '\U{2000}', '\U{2001}', '\U{2002}', '\U{2003}', '\U{2004}', '\U{2005}',
    '\U{2006}', '\U{2007}', '\U{2008}', '\U{2009}', '\U{200A}',
    '\U{2028}', '\U{2029}', '\U{202F}', '\U{205F}', '\U{3000}', '\U{FEFF}'
  }

  predicate IsWs(c: char) {
    c in WhitespaceChars
  }

  predicate AllWs(s: string) {
    forall i :: 0 <= i < |s| ==> IsWs(s[i])
  }

  predicate NoWs(s: string) {
    forall i :: 0 <= i < |s| ==> !IsWs(s[i])
  }

  /** `s[..i]` and `s[j..]` are whitespace-only margins around the slice `s[i..j]`. */
  predicate WsMargins(s: string, i: int, j: int) {
    && 0 <= i <= j <= |s|
    && (forall m :: 0 <= m < i ==> IsWs(s[m]))
    && (forall m :: j <= m < |s| ==> IsWs(s[m]))
  }

  /** Length of the maximal run of whitespace that starts `s`. */
  function LeadingWs(s: string): (n: nat)
    ensures n <= |s|
    ensures forall m :: 0 <= m < n ==> IsWs(s[m])
    ensures n == |s| || !IsWs(s[n])
    decreases |s|
  {
    if s != [] && IsWs(s[0]) then 1 + LeadingWs(s[1..]) else 0
  }

  /** Start of the maximal run of whitespace that ends `s`. */
  function TrailingWsStart(s: string): (n: nat)
    ensures n <= |s|
    ensures forall m :: n <= m < |s| ==> IsWs(s[m])
    ensures n == 0 || !IsWs(s[n - 1])
    decreases |s|
  {
    if s != [] && IsWs(s[|s| - 1]) then TrailingWsStart(s[..|s| - 1]) else |s|
  }

  /** `String.prototype.trimStart`. */
  function TrimStart(s: string): string {
    s[LeadingWs(s)..]
  }

  /**
   * `String.prototype.trim`: the slice of `s` left after removing the
   * whitespace margins. It is empty exactly when `s` is all whitespace, and
   * otherwise begins and ends with a non-whitespace character.
   */
  function Trim(s: string): (r: string)
    ensures r == [] <==> AllWs(s)
    ensures r != [] ==> !IsWs(r[0]) && !IsWs(r[|r| - 1])
    ensures exists i, j :: WsMargins(s, i, j) && r == s[i..j]
  {
    var i := LeadingWs(s);
    var t := s[i..];
    var k := TrailingWsStart(t);
    assert forall m :: i + k <= m < |s| ==> s[m] == t[m - i];
    assert WsMargins(s, i, i + k);
    assert t[..k] == s[i..i + k];
    t[..k]
  }

  /**
   * Trim's contract pins its result down: any slice of `s` with whitespace-only
   * margins that starts and ends with a non-whitespace character is `Trim(s)`.
   */
  lemma TrimUnique(s: string, i: int, j: int)
    requires WsMargins(s, i, j) && i < j
    requires !IsWs(s[i]) && !IsWs(s[j - 1])
    ensures Trim(s) == s[i..j]
  {
    assert LeadingWs(s) == i;
    var t := s[i..];
    assert t[j - i - 1] == s[j - 1];
    assert forall m :: j - i <= m < |t| ==> t[m] == s[m + i];
    assert TrailingWsStart(t) == j - i;
    assert t[..j - i] == s[i..j];
  }

  /** Trimming an already trimmed string changes nothing. */
  lemma TrimIdempotent(s: string)
    ensures Trim(Trim(s)) == Trim(s)
  {
    var r := Trim(s);
    if r != [] {
      assert WsMargins(r, 0, |r|);
      TrimUnique(r, 0, |r|);
    }
  }

  predicate IsAsciiUpper(c: char) {
    'A' <= c <= 'Z'
  }

  /** ASCII case mapping of one character; every other character is left alone. */
  function LowerChar(c: char): char {
    if IsAsciiUpper(c) then (c as int + 32) as char else c
  }

  predicate NoAsciiUpper(s: string) {
    forall i :: 0 <= i < |s| ==> !IsAsciiUpper(s[i])
  }

  /** Two strings that differ at most in the ASCII case of their letters. */
  predicate EqualIgnoringAsciiCase(a: string, b: string) {
    |a| == |b| && forall i :: 0 <= i < |a| ==> LowerChar(a[i]) == LowerChar(b[i])
  }

  /**
   * `String.prototype.toLowerCase` over ASCII letters. The result is the one
   * string that agrees with `s` up to ASCII case and holds no upper-case letter.
   */
  function ToLowerCase(s: string): (r: string)
    ensures EqualIgnoringAsciiCase(r, s)
    ensures NoAsciiUpper(r)
  {
    if s == [] then [] else [LowerChar(s[0])] + ToLowerCase(s[1..])
  }

  /** The two properties of ToLowerCase's contract determine the result. */
  lemma ToLowerCaseUnique(s: string, t: string)
    requires EqualIgnoringAsciiCase(t, s) && NoAsciiUpper(t)
    ensures ToLowerCase(s) == t
  {
    var r := ToLowerCase(s);
    forall i | 0 <= i < |s|
      ensures r[i] == t[i]
    {
      assert LowerChar(r[i]) == LowerChar(s[i]) == LowerChar(t[i]);
    }
  }

  /** Lower-casing leaves a string unchanged exactly when it has no upper-case letter. */
  lemma ToLowerCaseFixpoint(s: string)
    ensures ToLowerCase(s) == s <==> NoAsciiUpper(s)
  {
    if NoAsciiUpper(s) {
      ToLowerCaseUnique(s, s);
    }
  }

  /** Lower-casing is idempotent. */
  lemma ToLowerCaseIdempotent(s: string)
    ensures ToLowerCase(ToLowerCase(s)) == ToLowerCase(s)
  {
    ToLowerCaseFixpoint(ToLowerCase(s));
  }
}
