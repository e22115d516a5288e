/** Character and string primitives shared by the Rust backend and the
    TypeScript front end: prefix tests (`starts_with` / `startsWith`), the two
    languages' notions of whitespace, trimming, and ASCII case folding. */
module Strings {

  /** `s.starts_with(p)` / `s.startsWith(p)`. */
  predicate IsPrefix(p: string, s: string) {
    |p| <= |s| && s[..|p|] == p
  }

  /** `s.ends_with(p)` / `s.endsWith(p)`. */
  predicate IsSuffix(p: string, s: string) {
    |p| <= |s| && s[|s| - |p|..] == p
  }

  /** Rust's `char::is_whitespace`: the Unicode White_Space property
      (it includes NEL, U+0085, and excludes U+FEFF). */
  predicate IsRustSpace(c: char) {
    ('\t' <= c <= '\r') || c == ' ' || c == '\U{85}' || c == '\U{A0}' || c == '\U{1680}'
    || ('\U{2000}' <= c <= '\U{200A}') || c == '\U{2028}' || c == '\U{2029}'
    || c == '\U{202F}' || c == '\U{205F}' || c == '\U{3000}'
  }

  /** ECMAScript WhiteSpace and LineTerminator, used by `String.prototype.trim`
      and by `\s` in a regular expression (it includes U+FEFF and excludes NEL). */
  predicate IsJsSpace(c: char) {
    ('\t' <= c <= '\r') || c == ' ' || c == '\U{A0}' || c == '\U{1680}'
    || ('\U{2000}' <= c <= '\U{200A}') || c == '\U{2028}' || c == '\U{2029}'
    || c == '\U{202F}' || c == '\U{205F}' || c == '\U{3000}' || c == '\U{FEFF}'
  }

  /** Every character of `s` is whitespace (the empty string included). */
  predicate IsBlank(s: string, space: char -> bool) {
    forall i :: 0 <= i < |s| ==> space(s[i])
  }

  function TrimStart(s: string, space: char -> bool): (r: string)
    ensures IsSuffix(r, s)
    ensures r == [] || !space(r[0])
    ensures IsBlank(s[..|s| - |r|], space)
  {
    if s != [] && space(s[0]) then
      var r := TrimStart(s[1..], space);
      var n := |s| - |r|;
      assert s[n..] == s[1..][n - 1..];
      assert IsBlank(s[..n], space) by {
        assert s[..n] == [s[0]] + s[1..][..n - 1];
      }
      r
    else
      s
  }

  function TrimEnd(s: string, space: char -> bool): (r: string)
    ensures IsPrefix(r, s)
    ensures r == [] || !space(r[|r| - 1])
    ensures IsBlank(s[|r|..], space)
  {
    if s != [] && space(s[|s| - 1]) then
      var r := TrimEnd(s[..|s| - 1], space);
      assert s[..|s| - 1][|r|..] + [s[|s| - 1]] == s[|r|..];
      r
    else
      s
  }

  /** `str::trim` / `String.prototype.trim` for the given notion of whitespace:
      the longest infix of `s` that neither starts nor ends with whitespace. */
  function Trim(s: string, space: char -> bool): (r: string)
    ensures |r| <= |s|
    ensures r == [] || (!space(r[0]) && !space(r[|r| - 1]))
    ensures (r == []) <==> IsBlank(s, space)
  {
    var a := TrimStart(s, space);
    var r := TrimEnd(a, space);
    TrimParts(s, a, r, space);
    r
  }

  lemma TrimParts(s: string, a: string, r: string, space: char -> bool)
    requires a == TrimStart(s, space) && r == TrimEnd(a, space)
    ensures (r == []) <==> IsBlank(s, space)
  {
    var i := |s| - |a|;
    assert s[i..] == a;
    if r == [] {
      assert IsBlank(a, space) by { assert a[0..] == a; }
      assert IsBlank(s[..i], space);
      forall k | 0 <= k < |s| ensures space(s[k]) {
        if k < i { assert s[..i][k] == s[k]; } else { assert a[k - i] == s[k]; }
      }
    } else {
      assert r[0] == a[0] == s[i];
    }
  }

  /** Rust's `str::trim`. */
  function TrimRust(s: string): string {
    Trim(s, IsRustSpace)
  }

  /** JavaScript's `String.prototype.trim`. */
  function TrimJs(s: string): string {
    Trim(s, IsJsSpace)
  }

  /** `s.trim_end_matches(c)`: every trailing `c` removed. */
  function TrimEndMatches(s: string, c: char): (r: string)
    ensures IsPrefix(r, s)
    ensures r == [] || r[|r| - 1] != c
    ensures forall i :: |r| <= i < |s| ==> s[i] == c
  {
    if s != [] && s[|s| - 1] == c then TrimEndMatches(s[..|s| - 1], c) else s
  }

  /** ASCII lower-casing, the only folding a JavaScript `/i` regular
      expression without the `u` flag applies to an ASCII pattern. */
  function Lower(c: char): char {
    if 'A' <= c <= 'Z' then (c as int + 32) as char else c
  }

  function LowerStr(s: string): (r: string)
    ensures |r| == |s|
    ensures forall i :: 0 <= i < |s| ==> r[i] == Lower(s[i])
  {
    seq(|s|, i requires 0 <= i < |s| => Lower(s[i]))
  }

  /** Character equality, case-insensitive when `ci` holds. */
  predicate EqC(ci: bool, a: char, b: char) {
    if ci then Lower(a) == Lower(b) else a == b
  }

  /** `s` starts with `p`, comparing characters with `EqC(ci, ...)`. */
  predicate StartsWith(s: string, p: string, ci: bool) {
    |p| <= |s| && forall k :: 0 <= k < |p| ==> EqC(ci, s[k], p[k])
  }

  lemma StartsWithExact(s: string, p: string)
    ensures StartsWith(s, p, false) <==> IsPrefix(p, s)
  {
    if StartsWith(s, p, false) {
      assert s[..|p|] == p;
    }
  }

  /** Decimal rendering of a natural number, as `${n}` prints it. */
  function NatToString(n: nat): (r: string)
    ensures r != []
    ensures forall i :: 0 <= i < |r| ==> '0' <= r[i] <= '9'
  {
    if n < 10 then [('0' as int + n) as char]
    else NatToString(n / 10) + [('0' as int + n % 10) as char]
  }

  /** Different numbers are printed differently. */
  lemma {:induction false} NatToStringInjective(a: nat, b: nat)
    requires NatToString(a) == NatToString(b)
    ensures a == b
  {
    NatToStringOneDigit(a);
    NatToStringOneDigit(b);
    if a >= 10 {
      var sa, sb := NatToString(a), NatToString(b);
      assert sa[|sa| - 1] == sb[|sb| - 1];
      assert a % 10 == b % 10;
      assert sa[..|sa| - 1] == NatToString(a / 10);
      assert sb[..|sb| - 1] == NatToString(b / 10);
      NatToStringInjective(a / 10, b / 10);
    }
  }

  lemma NatToStringOneDigit(n: nat)
    ensures |NatToString(n)| == 1 <==> n < 10
  {
    if n >= 10 {
      assert |NatToString(n)| == |NatToString(n / 10)| + 1;
    }
  }
}
