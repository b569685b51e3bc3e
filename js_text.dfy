/** The pieces of JavaScript's string semantics the validators rely on:
    the whitespace set shared by `\s` and `String.prototype.trim`, the
    ASCII character classes `\d` and `[A-Z]`, and `.length` counted in
    UTF-16 code units. A Dafny `char` is a Unicode scalar value. */
module JsText {

  /** WhiteSpace (section 12.2 of ECMA-262) together with LineTerminator
      (section 12.3): exactly the characters `\s` matches and `trim` removes.
      The space separators are those of Unicode category Zs. */
  predicate IsJsWhitespace(c: char) {
    || c == '\U{0009}' || c == '\U{000B}' || c == '\U{000C}' || c == ' '
    || c == '\U{00A0}' || c == '\U{FEFF}' || c == '\U{1680}'
    || ('\U{2000}' <= c <= '\U{200A}')
    || c == '\U{202F}' || c == '\U{205F}' || c == '\U{3000}'
    || c == '\n' || c == '\r' || c == '\U{2028}' || c == '\U{2029}'
  }

  /** `\d` without the `u` flag: the ASCII digits only. */
  predicate IsAsciiDigit(c: char) {
    '0' <= c <= '9'
  }

  /** `[A-Z]`. */
  predicate IsAsciiUpper(c: char) {
    'A' <= c <= 'Z'
  }

  /** The twenty characters of the class `[!@#$%^&*(),.?":{}|<>]`. */
  const SpecialSymbols: string := "!@#$%^&*(),.?\":{}|<>"

  predicate IsSpecialSymbol(c: char) {
    c in SpecialSymbols
  }

  /** Every character is whitespace (so `s.trim() === ''`). */
  predicate IsBlank(s: string) {
    forall i | 0 <= i < |s| :: IsJsWhitespace(s[i])
  }

  /** `/\d/.test(s)` */
  predicate HasDigit(s: string) {
    exists i | 0 <= i < |s| :: IsAsciiDigit(s[i])
  }

  /** `/[A-Z]/.test(s)` */
  predicate HasUpper(s: string) {
    exists i | 0 <= i < |s| :: IsAsciiUpper(s[i])
  }

  /** `/[!@#$%^&*(),.?":{}|<>]/.test(s)` */
  predicate HasSpecialSymbol(s: string) {
    exists i | 0 <= i < |s| :: IsSpecialSymbol(s[i])
  }

  /** `/\s/.test(s)` */
  predicate HasWhitespace(s: string) {
    exists i | 0 <= i < |s| :: IsJsWhitespace(s[i])
  }

  /** Drops leading whitespace (the first half of `trim`). */
  function TrimStart(s: string): (r: string)
    ensures |r| <= |s| && r == s[|s| - |r|..]
    ensures forall i | 0 <= i < |s| - |r| :: IsJsWhitespace(s[i])
    ensures r == [] || !IsJsWhitespace(r[0])
    decreases |s|
  {
    if s != [] && IsJsWhitespace(s[0]) then TrimStart(s[1..]) else s
  }

  /** Drops trailing whitespace (the second half of `trim`). */
  function TrimEnd(s: string): (r: string)
    ensures |r| <= |s| && r == s[..|r|]
    ensures forall i | |r| <= i < |s| :: IsJsWhitespace(s[i])
    ensures r == [] || !IsJsWhitespace(r[|r| - 1])
    decreases |s|
  {
    if s != [] && IsJsWhitespace(s[|s| - 1]) then TrimEnd(s[..|s| - 1]) else s
  }

  /** `String.prototype.trim`: the result is `s` with only whitespace
      removed before and after it, it neither starts nor ends with
      whitespace, and it is empty exactly when every character of `s` is
      whitespace. */
  function Trim(s: string): (r: string)
    ensures exists i, j | 0 <= i <= j <= |s| :: r == s[i..j] && IsBlank(s[..i]) && IsBlank(s[j..])
    ensures r == [] || (!IsJsWhitespace(r[0]) && !IsJsWhitespace(r[|r| - 1]))
    ensures r == [] <==> IsBlank(s)
  {
    var t := TrimStart(s);
    var r := TrimEnd(t);
    var i := |s| - |t|;
    var j := i + |r|;
    assert t == s[i..];
    assert r == t[..|r|] == s[i..j];
    assert IsBlank(s[j..]) by {
      forall k | 0 <= k < |s| - j ensures IsJsWhitespace(s[j..][k]) {
        assert s[j..][k] == t[|r| + k];
      }
    }
    r
  }

  /** The number of UTF-16 code units that encode `c`. */
  function Utf16Units(c: char): nat {
    if c as int > 0xFFFF then 2 else 1
  }

  /** JavaScript's `s.length`: characters outside the Basic Multilingual
      Plane take two code units (a surrogate pair). */
  function JsLength(s: string): (n: nat)
    ensures |s| <= n <= 2 * |s|
    ensures n == 0 <==> s == []
    ensures (forall i | 0 <= i < |s| :: s[i] as int <= 0xFFFF) ==> n == |s|
  {
    if s == [] then 0 else Utf16Units(s[0]) + JsLength(s[1..])
  }
}
