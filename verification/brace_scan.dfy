/**
 * The brace-depth constructor locator shared by both scanners
 * (`JavascriptParser._enterConstructor` and `findConstructorSrc`): walk the class
 * text once, count `{` and `}`, remember the last constructor token met at depth 1,
 * and stop at the first `}` that brings the depth back to 1 after such a token.
 * Braces inside strings or comments are counted like any other brace.
 */
module BraceScan {
  import opened Wrappers
  import opened JsRuntime

  function Delta(c: char): int {
    if c == '{' then 1 else if c == '}' then -1 else 0
  }

  /** Brace depth in front of position `i`: opening minus closing braces in `s[..i]`. */
  function Depth(s: string, i: nat): int
    requires i <= |s|
  {
    if i == 0 then 0 else Depth(s, i - 1) + Delta(s[i - 1])
  }

  /** The constructor token starts at `i`, directly inside the class body (depth 1). */
  predicate TokenAt(s: string, token: string, i: nat) {
    i < |s| && s[i] != '{' && s[i] != '}' && Depth(s, i) == 1 && PeekAt(s, i, token)
  }

  /** The `}` at `c` brings the depth from 2 back to 1. */
  predicate CloseAt(s: string, c: nat) {
    c < |s| && s[c] == '}' && Depth(s, c) == 2
  }

  /** Outcome of the locator: no token, a token whose body never closes, or a closed span. */
  datatype Span = NoToken | Unclosed(start: nat) | Closed(start: nat, close: nat)

  function ScanFrom(s: string, token: string, i: nat, depth: int, start: Option<nat>): Span
    decreases |s| - i
  {
    if i >= |s| then
      if start.Some? then Unclosed(start.value) else NoToken
    else if s[i] == '{' then
      ScanFrom(s, token, i + 1, depth + 1, start)
    else if s[i] == '}' then
      if start.Some? && depth - 1 == 1 then Closed(start.value, i)
      else ScanFrom(s, token, i + 1, depth - 1, start)
    else if depth == 1 && PeekAt(s, i, token) then
      ScanFrom(s, token, i + 1, depth, Some(i))
    else
      ScanFrom(s, token, i + 1, depth, start)
  }

  /** No closing-to-depth-1 brace follows a token anywhere before `limit`. */
  ghost predicate NoCloseAfterToken(s: string, token: string, limit: nat) {
    forall t: nat, k: nat | t < k < limit && TokenAt(s, token, t) :: !CloseAt(s, k)
  }

  ghost predicate NoTokenBetween(s: string, token: string, lo: int, hi: nat) {
    forall t: nat | lo < t < hi :: !TokenAt(s, token, t)
  }

  /** What the locator promises about its result. */
  ghost predicate SpanSpec(s: string, token: string, r: Span) {
    && (r.NoToken? <==> NoTokenBetween(s, token, -1, |s|))
    && (r.Unclosed? ==>
          && TokenAt(s, token, r.start)
          && NoTokenBetween(s, token, r.start, |s|)
          && NoCloseAfterToken(s, token, |s|))
    && (r.Closed? ==>
          && r.start < r.close
          && TokenAt(s, token, r.start)
          && CloseAt(s, r.close)
          && NoTokenBetween(s, token, r.start, r.close)
          && NoCloseAfterToken(s, token, r.close))
  }

  /**
   * The locator's result, characterised without reference to the scan:
   * - no token at depth 1 anywhere gives `NoToken`;
   * - otherwise, if no depth-1 closing brace follows a token, the last token is `Unclosed`;
   * - otherwise the span runs from the last token before the first such brace to that brace.
   */
  function ScanSpan(s: string, token: string): (r: Span)
    ensures SpanSpec(s, token, r)
  {
    ScanFromSpec(s, token, 0, 0, None);
    ScanFrom(s, token, 0, 0, None)
  }

  /** The scan state at `i`: the depth so far, the last token so far, no close after a token yet. */
  ghost predicate ScanInv(s: string, token: string, i: nat, depth: int, start: Option<nat>) {
    && i <= |s| && depth == Depth(s, i)
    && (start.None? ==> NoTokenBetween(s, token, -1, i))
    && (start.Some? ==> start.value < i && TokenAt(s, token, start.value) && NoTokenBetween(s, token, start.value, i))
    && NoCloseAfterToken(s, token, i)
  }

  lemma ScanInvStep(s: string, token: string, i: nat, depth: int, start: Option<nat>, depth': int, start': Option<nat>)
    requires ScanInv(s, token, i, depth, start) && i < |s|
    requires depth' == depth + Delta(s[i])
    requires start' == (if TokenAt(s, token, i) then Some(i) else start)
    requires !(CloseAt(s, i) && start.Some?)
    ensures ScanInv(s, token, i + 1, depth', start')
  {
    assert Depth(s, i + 1) == depth';
  }

  lemma {:induction false} ScanFromSpec(s: string, token: string, i: nat, depth: int, start: Option<nat>)
    requires ScanInv(s, token, i, depth, start)
    ensures SpanSpec(s, token, ScanFrom(s, token, i, depth, start))
    decreases |s| - i
  {
    if i < |s| {
      if s[i] == '{' {
        ScanInvStep(s, token, i, depth, start, depth + 1, start);
        ScanFromSpec(s, token, i + 1, depth + 1, start);
      } else if s[i] == '}' {
        if start.Some? && depth - 1 == 1 {
          assert CloseAt(s, i);
        } else {
          ScanInvStep(s, token, i, depth, start, depth - 1, start);
          ScanFromSpec(s, token, i + 1, depth - 1, start);
        }
      } else if depth == 1 && PeekAt(s, i, token) {
        ScanInvStep(s, token, i, depth, start, depth, Some(i));
        ScanFromSpec(s, token, i + 1, depth, Some(i));
      } else {
        ScanInvStep(s, token, i, depth, start, depth, start);
        ScanFromSpec(s, token, i + 1, depth, start);
      }
    }
  }
}
