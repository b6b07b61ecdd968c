/**
 * The small slice of JavaScript runtime behaviour the scanners rely on:
 * character classes compared by char code, `peek` against the whole source,
 * `String.prototype.substring` clamping, ASCII `toLowerCase`, the decimal
 * `String(n)` of a counter, and the names every plain object inherits.
 */
module JsRuntime {

  /** The four whitespace characters both scanners skip: space, tab, LF, CR. */
  predicate IsSpace(c: char) {
    c == ' ' || c == '\t' || c == '\n' || c == '\r'
  }

  /** Identifier characters of both scanners: ASCII letters, `$` and `_` (no digits). */
  predicate IsVarChar(c: char) {
    ('A' <= c <= 'Z') || ('a' <= c <= 'z') || c == '$' || c == '_'
  }

  /**
   * `charCodeAt(i)` compared against a class: a position outside the text reads NaN,
   * which belongs to no class.
   */
  predicate ClassAt(s: string, i: nat, p: char -> bool) {
    i < |s| && p(s[i])
  }

  /** `w` occurs in `s` at `i`; reading past the end of `s` never matches. */
  predicate PeekAt(s: string, i: nat, w: string) {
    i + |w| <= |s| && s[i..i + |w|] == w
  }

  /**
   * The end of the maximal run of `p`-characters starting at `i`, scanning only
   * while the cursor is below `bound` (a loop `while (i < bound && p(s[i])) i++`).
   */
  function RunEnd(s: string, bound: nat, i: nat, p: char -> bool): (j: nat)
    ensures i <= j
    ensures j == i || j <= bound
    ensures j == i || j <= |s|
    ensures forall k | i <= k < j :: k < bound && ClassAt(s, k, p)
    ensures j < bound ==> !ClassAt(s, j, p)
    decreases bound - i
  {
    if i < bound && ClassAt(s, i, p) then RunEnd(s, bound, i + 1, p) else i
  }

  /** A run that stops at `t`: every character before it is in the class and the one at `t` is not. */
  lemma RunEndIs(s: string, bound: nat, i: nat, t: nat, p: char -> bool)
    requires i <= t < bound
    requires forall k | i <= k < t :: ClassAt(s, k, p)
    requires !ClassAt(s, t, p)
    ensures RunEnd(s, bound, i, p) == t
  {
  }

  /** A run stops at the latest at the first character outside the class. */
  lemma RunEndBefore(s: string, bound: nat, i: nat, t: nat, p: char -> bool)
    requires i <= t && !ClassAt(s, t, p)
    ensures RunEnd(s, bound, i, p) <= t
  {
  }

  /** A word does not occur where one of its characters disagrees with the text. */
  lemma PeekMismatch(s: string, k: nat, w: string, m: nat)
    requires m < |w| && k + m < |s| && s[k + m] != w[m]
    ensures !PeekAt(s, k, w)
  {
  }

  /** Clamps a `substring` argument into `[0, n]`. */
  function Clamp(x: int, n: nat): (r: nat)
    ensures r <= n
    ensures 0 <= x <= n ==> r == x
  {
    if x < 0 then 0 else if x > n then n else x
  }

  /**
   * JavaScript's `s.substring(a, b)`: both arguments clamped into the string,
   * swapped when the first exceeds the second.
   */
  function JsSubstring(s: string, a: int, b: int): (r: string)
    ensures 0 <= a <= b <= |s| ==> r == s[a..b]
    ensures 0 <= b <= a <= |s| ==> r == s[b..a]
    ensures a <= 0 && b <= 0 ==> r == []
    ensures b <= 0 <= a <= |s| ==> r == s[..a]
    ensures a <= 0 <= b <= |s| ==> r == s[..b]
    ensures 0 <= a <= |s| <= b ==> r == s[a..]
    ensures 0 <= b <= |s| <= a ==> r == s[b..]
    ensures (a <= 0 && |s| <= b) || (b <= 0 && |s| <= a) ==> r == s
    ensures |s| <= a && |s| <= b ==> r == []
  {
    var lo := Clamp(a, |s|);
    var hi := Clamp(b, |s|);
    if lo <= hi then s[lo..hi] else s[hi..lo]
  }

  predicate IsAsciiUpper(c: char) {
    'A' <= c <= 'Z'
  }

  function LowerChar(c: char): (r: char)
    ensures IsAsciiUpper(c) <==> r != c
  {
    if IsAsciiUpper(c) then (c as int + 32) as char else c
  }

  /** `toLowerCase` restricted to ASCII letters. */
  function ToLower(s: string): (r: string)
    ensures |r| == |s|
    ensures forall i | 0 <= i < |s| :: r[i] == LowerChar(s[i])
  {
    seq(|s|, i requires 0 <= i < |s| => LowerChar(s[i]))
  }

  /**
   * Names every plain JavaScript object inherits from `Object.prototype`:
   * `obj[name]` is truthy and `name in obj` holds for these even on `{}`.
   */
  const ObjectPrototypeKeys: set<string> := {
    "constructor", "hasOwnProperty", "isPrototypeOf", "propertyIsEnumerable",
    "toLocaleString", "toString", "valueOf", "__proto__",
    "__defineGetter__", "__defineSetter__", "__lookupGetter__", "__lookupSetter__"
  }

  function DigitChar(d: nat): (c: char)
    requires d < 10
  {
    ('0' as int + d) as char
  }

  function DigitValue(c: char): int {
    c as int - '0' as int
  }

  /** `String(n)` for a non-negative integer: its decimal digits, most significant first. */
  function NatToString(n: nat): (r: string)
    ensures |r| > 0
    ensures forall i | 0 <= i < |r| :: '0' <= r[i] <= '9'
  {
    if n < 10 then [DigitChar(n)] else NatToString(n / 10) + [DigitChar(n % 10)]
  }

  /** Reads a string of decimal digits back as a number (an independent inverse of `NatToString`). */
  function ParseDecimal(s: string): int {
    if |s| == 0 then 0 else ParseDecimal(s[..|s| - 1]) * 10 + DigitValue(s[|s| - 1])
  }

  lemma {:induction false} ParseDecimalOfNatToString(n: nat)
    ensures ParseDecimal(NatToString(n)) == n
    decreases n
  {
    if n >= 10 {
      var prefix := NatToString(n / 10);
      var r := prefix + [DigitChar(n % 10)];
      assert r[..|r| - 1] == prefix;
      ParseDecimalOfNatToString(n / 10);
    }
  }

  /** Distinct counters print as distinct decimal strings. */
  lemma NatToStringInjective(m: nat, n: nat)
    requires m != n
    ensures NatToString(m) != NatToString(n)
  {
    ParseDecimalOfNatToString(m);
    ParseDecimalOfNatToString(n);
  }
}
