/**
 * The second, older scanner: the helper functions inside `TradesCriteria.schema`
 * (`peek`, `eatSpace`, `parseVariableAssignment`, `findProperties`,
 * `findConstructorSrc`). It cuts the constructor's text out of the class source and
 * reports, in order and without deduplication, every assignment that directly
 * follows a doc block.
 */
module CriteriaScanner {
  import opened Wrappers
  import opened JsRuntime
  import opened JsDoc
  import BraceScan
  import JavascriptParser

  /** One reported property: the parsed doc of the block that precedes its assignment. */
  datatype CriteriaProperty = CriteriaProperty(name: string, doc: Doc)

  /**
   * One hit of the scan: the first non-blank position after a doc block, the name
   * assigned there, and the block's bounds `[docStart, docEnd)`.
   */
  datatype Hit = Hit(at: nat, name: string, docStart: nat, docEnd: nat)

  /** What `findProperties` remembers between characters: `jsdocStart` and `jsdocEnd`. */
  datatype DocState = Idle | Open(start: nat) | Shut(start: nat, end: nat)

  // ---------------------------------------------------------------------------
  // parseVariableAssignment

  /**
   * An assignment as this scanner reads one at `q`: `this.`, a maximal identifier
   * `name`, then, after skipping ONE more character and any whitespace, `=` not
   * followed by `=`. The skipped character is the one that ended the identifier, so
   * `this.x=1` is refused and `this.x==1` accepted.
   */
  ghost predicate CriteriaAssignmentAt(s: string, q: nat, name: string) {
    && PeekAt(s, q, "this.")
    && JavascriptParser.NameAt(s, |s|, q + 5, name)
    && var t := RunEnd(s, |s|, q + 5 + |name| + 1, IsSpace);
       PeekAt(s, t, "=") && !PeekAt(s, t + 1, "=")
  }

  /** `parseVariableAssignment(source, index)`: whitespace first, then the assignment, if any. */
  function ParseVariableAssignment(s: string, i: nat): (r: Option<string>)
    ensures var q := RunEnd(s, |s|, i, IsSpace);
            && (r.Some? ==> CriteriaAssignmentAt(s, q, r.value))
            && (r.None? ==> forall x :: !CriteriaAssignmentAt(s, q, x))
  {
    var q := RunEnd(s, |s|, i, IsSpace);
    if !PeekAt(s, q, "this.") then None
    else AfterThis(s, q)
  }

  /** The rest of `parseVariableAssignment` once `this.` has been seen at `q`. */
  function AfterThis(s: string, q: nat): (r: Option<string>)
    requires PeekAt(s, q, "this.")
    ensures r.Some? ==> CriteriaAssignmentAt(s, q, r.value)
    ensures r.None? ==> forall x :: !CriteriaAssignmentAt(s, q, x)
  {
    var start := q + 5;
    var pv := JavascriptParser.ParseVariable(s, |s|, start);
    var t := RunEnd(s, |s|, pv.0 + 1, IsSpace);
    if pv.1.None? then None
    else if PeekAt(s, t, "=") && !PeekAt(s, t + 1, "=") then
      CriteriaAssignmentFound(s, q, pv.1.value);
      pv.1
    else
      NoCriteriaAssignment(s, q, pv.1.value);
      None
  }

  /** `this.`, the maximal name, one skipped character and the `=` test make an assignment. */
  lemma CriteriaAssignmentFound(s: string, q: nat, name: string)
    requires PeekAt(s, q, "this.") && JavascriptParser.NameAt(s, |s|, q + 5, name)
    requires var t := RunEnd(s, |s|, q + 5 + |name| + 1, IsSpace);
             PeekAt(s, t, "=") && !PeekAt(s, t + 1, "=")
    ensures CriteriaAssignmentAt(s, q, name)
  {
  }

  /** When the maximal name after `this.` is not followed by the `=` test, no assignment starts at `q`. */
  lemma NoCriteriaAssignment(s: string, q: nat, name: string)
    requires JavascriptParser.NameAt(s, |s|, q + 5, name)
    requires var t := RunEnd(s, |s|, q + 5 + |name| + 1, IsSpace);
             !(PeekAt(s, t, "=") && !PeekAt(s, t + 1, "="))
    ensures forall x :: !CriteriaAssignmentAt(s, q, x)
  {
    var p := q + 5;
    forall x ensures !CriteriaAssignmentAt(s, q, x) {
      if JavascriptParser.NameAt(s, |s|, p, x) {
        JavascriptParser.NameAtUnique(s, |s|, p, x, name);
      }
    }
  }

  // ---------------------------------------------------------------------------
  // findProperties

  /** The opener test of `findProperties`: slash, two stars, then a newline or a space. */
  predicate OpensBlock(s: string, j: nat) {
    PeekAt(s, j, "/**\n") || PeekAt(s, j, "/** ")
  }

  /**
   * `[a, e)` is a doc block as the scan closes one: an opener at `a`, the first
   * star-slash after it ending at `e`, and no other opener in between (a later
   * opener would have restarted the block).
   */
  ghost predicate DocBlock(s: string, a: nat, e: nat) {
    && OpensBlock(s, a)
    && a + 6 <= e <= |s|
    && PeekAt(s, e - 2, "*/")
    && forall k | a < k < e - 2 :: !PeekAt(s, k, "*/") && !OpensBlock(s, k)
  }

  /**
   * A hit is an assignment at the first non-blank character after a doc block, with
   * that block as its documentation.
   */
  ghost predicate Documented(s: string, h: Hit) {
    && DocBlock(s, h.docStart, h.docEnd)
    && h.docEnd <= h.at < |s|
    && (forall k | h.docEnd <= k < h.at :: IsSpace(s[k]))
    && !IsSpace(s[h.at])
    && CriteriaAssignmentAt(s, h.at, h.name)
  }

  /** The invariant of the scan state when the cursor is at `i`. */
  ghost predicate StateInv(s: string, i: nat, st: DocState) {
    && i <= |s|
    && (st.Open? ==>
          && OpensBlock(s, st.start) && st.start < i
          && forall k | st.start < k < i :: !PeekAt(s, k, "*/") && !OpensBlock(s, k))
    && (st.Shut? ==> DocBlock(s, st.start, st.end) && st.end == i)
  }

  ghost predicate Increasing(hits: seq<Hit>) {
    forall p, q | 0 <= p < q < |hits| :: hits[p].at < hits[q].at
  }

  /** Documented hits, in increasing position, none before `i`. */
  ghost predicate HitsFrom(s: string, i: nat, r: seq<Hit>) {
    && (forall h <- r :: i <= h.at && Documented(s, h))
    && Increasing(r)
  }

  lemma ConsIncreasing(h: Hit, rest: seq<Hit>)
    requires Increasing(rest) && forall x <- rest :: h.at < x.at
    ensures Increasing([h] + rest)
  {
    var r := [h] + rest;
    forall p, q | 0 <= p < q < |r| ensures r[p].at < r[q].at {
      assert r[q] == rest[q - 1];
      assert rest[q - 1] in rest;
      if p > 0 { assert r[p] == rest[p - 1]; }
    }
  }

  /**
   * The loop of `findProperties` from cursor `i` in state `st`. Each iteration skips
   * whitespace, stops at the end of the text, and then: right after a closed block,
   * tries an assignment and forgets the block whatever the outcome; inside an open
   * block, closes it at a star-slash; otherwise opens (or restarts) a block at an
   * opener.
   */
  function FindFrom(s: string, i: nat, st: DocState): (r: seq<Hit>)
    requires StateInv(s, i, st)
    ensures HitsFrom(s, i, r)
    decreases |s| - i
  {
    var j := RunEnd(s, |s|, i, IsSpace);
    if j >= |s| then []
    else if st.Shut? then
      var rest := FindFrom(s, j + 1, Idle);
      match ParseVariableAssignment(s, j)
      case Some(name) =>
        ShutHit(s, i, st, j, name);
        ConsIncreasing(Hit(j, name, st.start, st.end), rest);
        [Hit(j, name, st.start, st.end)] + rest
      case None => rest
    else if st.Open? && s[j] == '*' && PeekAt(s, j, "*/") then
      CloseStep(s, i, st.start, j);
      FindFrom(s, j + 2, Shut(st.start, j + 2))
    else if s[j] == '/' && OpensBlock(s, j) then
      FindFrom(s, j + 1, Open(j))
    else
      OpenStep(s, i, st, j);
      FindFrom(s, j + 1, st)
  }

  /** With no slash from `i` on, no block can open, so an idle scan reports nothing more. */
  lemma {:induction false} IdleWithoutSlash(s: string, i: nat)
    requires i <= |s| && forall k | i <= k < |s| :: s[k] != '/'
    ensures FindFrom(s, i, Idle) == []
    decreases |s| - i
  {
    var j := RunEnd(s, |s|, i, IsSpace);
    if j < |s| {
      StartsNothing(s, j);
      IdleWithoutSlash(s, j + 1);
    }
  }

  /**
   * The converse of `ShutHit`: once the scan has closed the block of a documented
   * assignment, it reports exactly that hit and carries on idle after it.
   */
  lemma ShutReports(s: string, h: Hit)
    requires Documented(s, h)
    ensures && StateInv(s, h.docEnd, Shut(h.docStart, h.docEnd))
            && FindFrom(s, h.docEnd, Shut(h.docStart, h.docEnd)) == [h] + FindFrom(s, h.at + 1, Idle)
  {
    RunEndIs(s, |s|, h.docEnd, h.at, IsSpace);
    RunEndIs(s, |s|, h.at, h.at, IsSpace);
    var found := ParseVariableAssignment(s, h.at);
    assert found.Some?;
    JavascriptParser.NameAtUnique(s, |s|, h.at + 5, found.value, h.name);
  }

  /** Inside a doc block the scan keeps it open up to its star-slash and then closes exactly it. */
  lemma {:induction false} InsideBlock(s: string, i: nat, a: nat, e: nat)
    requires DocBlock(s, a, e) && a < i <= e - 2
    ensures && StateInv(s, i, Open(a))
            && FindFrom(s, i, Open(a)) == FindFrom(s, e, Shut(a, e))
    decreases e - i
  {
    InsideState(s, i, a, e);
    var j := RunEnd(s, |s|, i, IsSpace);
    RunEndBefore(s, |s|, i, e - 2, IsSpace);
    if j == e - 2 {
      InsideClose(s, i, a, e);
    } else {
      InsidePass(s, i, a, e, j);
      InsideBlock(s, j + 1, a, e);
    }
  }

  /** Anywhere inside a doc block before its star-slash, the block is open. */
  lemma InsideState(s: string, i: nat, a: nat, e: nat)
    requires DocBlock(s, a, e) && a < i <= e - 2
    ensures StateInv(s, i, Open(a))
  {
  }

  /** Inside a doc block, the star-slash as the next non-blank character closes exactly it. */
  lemma InsideClose(s: string, i: nat, a: nat, e: nat)
    requires DocBlock(s, a, e) && a < i <= e - 2 && RunEnd(s, |s|, i, IsSpace) == e - 2
    ensures FindFrom(s, i, Open(a)) == FindFrom(s, e, Shut(a, e))
  {
    InsideState(s, i, a, e);
    PeekHead(s, e - 2, "*/");
    CloseStep(s, i, a, e - 2);
  }

  /** Inside a doc block, a next non-blank character before the star-slash is passed over. */
  lemma InsidePass(s: string, i: nat, a: nat, e: nat, j: nat)
    requires DocBlock(s, a, e) && a < i <= e - 2
    requires j == RunEnd(s, |s|, i, IsSpace) && i <= j < e - 2
    ensures && StateInv(s, j + 1, Open(a))
            && FindFrom(s, i, Open(a)) == FindFrom(s, j + 1, Open(a))
  {
    InsideState(s, i, a, e);
    OpenStep(s, i, Open(a), j);
  }

  /**
   * Completeness, one hit at a time: from any state except right after a closed
   * block, when the next non-blank character opens the block of a documented
   * assignment, that assignment is the next hit reported.
   */
  lemma ReachHit(s: string, i: nat, st: DocState, h: Hit)
    requires StateInv(s, i, st) && !st.Shut?
    requires Documented(s, h) && RunEnd(s, |s|, i, IsSpace) == h.docStart
    ensures FindFrom(s, i, st) == [h] + FindFrom(s, h.at + 1, Idle)
  {
    OpenerStep(s, i, st, h.docStart);
    OpenReports(s, h);
  }

  /** Just past the opener of a documented assignment, the scan reports exactly it. */
  lemma OpenReports(s: string, h: Hit)
    requires Documented(s, h)
    ensures h.docStart < |s| && OpensBlock(s, h.docStart)
    ensures && StateInv(s, h.docStart + 1, Open(h.docStart))
            && FindFrom(s, h.docStart + 1, Open(h.docStart)) == [h] + FindFrom(s, h.at + 1, Idle)
  {
    InsideBlock(s, h.docStart + 1, h.docStart, h.docEnd);
    ShutReports(s, h);
  }

  /** An opener as the next non-blank character opens a block there, outside a closed one. */
  lemma OpenerStep(s: string, i: nat, st: DocState, a: nat)
    requires StateInv(s, i, st) && !st.Shut?
    requires a == RunEnd(s, |s|, i, IsSpace) && a < |s| && OpensBlock(s, a)
    ensures && StateInv(s, a + 1, Open(a))
            && FindFrom(s, i, st) == FindFrom(s, a + 1, Open(a))
  {
    StartsNothing(s, a);
  }

  /** Idle, a next non-blank character other than a slash is passed over. */
  lemma IdleSkip(s: string, i: nat, j: nat)
    requires i <= |s| && j == RunEnd(s, |s|, i, IsSpace) && j < |s| && s[j] != '/'
    ensures && StateInv(s, j + 1, Idle)
            && FindFrom(s, i, Idle) == FindFrom(s, j + 1, Idle)
  {
    StartsNothing(s, j);
  }

  /**
   * An idle scan reports the documented assignment whose opener is the first slash
   * ahead, and that hit comes first.
   */
  lemma {:induction false} IdleReachesHit(s: string, i: nat, h: Hit)
    requires Documented(s, h) && i <= h.docStart
    requires forall k | i <= k < h.docStart :: s[k] != '/'
    ensures FindFrom(s, i, Idle) == [h] + FindFrom(s, h.at + 1, Idle)
    decreases h.docStart - i
  {
    StartsNothing(s, h.docStart);
    var j := RunEnd(s, |s|, i, IsSpace);
    RunEndBefore(s, |s|, i, h.docStart, IsSpace);
    if j == h.docStart {
      ReachHit(s, i, Idle, h);
    } else {
      IdleSkip(s, i, j);
      IdleReachesHit(s, j + 1, h);
    }
  }

  /** An assignment at the first non-blank character after a closed block is a documented hit. */
  lemma ShutHit(s: string, i: nat, st: DocState, j: nat, name: string)
    requires StateInv(s, i, st) && st.Shut?
    requires j == RunEnd(s, |s|, i, IsSpace) && j < |s|
    requires ParseVariableAssignment(s, j) == Some(name)
    ensures Documented(s, Hit(j, name, st.start, st.end))
  {
    assert RunEnd(s, |s|, j, IsSpace) == j;
    forall k | st.end <= k < j ensures IsSpace(s[k]) {
      assert ClassAt(s, k, IsSpace);
    }
  }

  /** A peeked word starts with the character under the cursor. */
  lemma PeekHead(s: string, k: nat, w: string)
    requires PeekAt(s, k, w) && |w| > 0
    ensures s[k] == w[0]
  {
    assert s[k..k + |w|][0] == s[k];
  }

  /** Neither a star-slash nor an opener starts at a character other than `*` or `/` respectively. */
  lemma StartsNothing(s: string, k: nat)
    ensures k < |s| && s[k] != '*' ==> !PeekAt(s, k, "*/")
    ensures k < |s| && s[k] != '/' ==> !OpensBlock(s, k)
  {
    if PeekAt(s, k, "*/") { PeekHead(s, k, "*/"); }
    if PeekAt(s, k, "/**\n") { PeekHead(s, k, "/**\n"); }
    if PeekAt(s, k, "/** ") { PeekHead(s, k, "/** "); }
  }

  /** Closing at `j` yields a doc block: nothing between the opener and `j` closes or reopens. */
  lemma CloseStep(s: string, i: nat, a: nat, j: nat)
    requires StateInv(s, i, Open(a))
    requires i <= j && j == RunEnd(s, |s|, i, IsSpace) && PeekAt(s, j, "*/")
    ensures DocBlock(s, a, j + 2)
  {
    assert s[j] == '*' && s[j + 1] == '/';
    assert s[a + 1] == '*' && s[a + 2] == '*' && IsSpace(s[a + 3]) by {
      if PeekAt(s, a, "/**\n") {
        assert s[a..a + 4][3] == '\n';
      } else {
        assert s[a..a + 4][3] == ' ';
      }
    }
    forall k | i <= k < j ensures !PeekAt(s, k, "*/") && !OpensBlock(s, k) {
      assert ClassAt(s, k, IsSpace);
      StartsNothing(s, k);
    }
  }

  /** Passing over a character that neither closes nor opens keeps an open block open. */
  lemma OpenStep(s: string, i: nat, st: DocState, j: nat)
    requires StateInv(s, i, st) && !st.Shut?
    requires i <= j < |s| && j == RunEnd(s, |s|, i, IsSpace)
    requires !(st.Open? && s[j] == '*' && PeekAt(s, j, "*/"))
    requires !(s[j] == '/' && OpensBlock(s, j))
    ensures StateInv(s, j + 1, st)
  {
    if st.Open? {
      forall k | i <= k < j + 1 ensures !PeekAt(s, k, "*/") && !OpensBlock(s, k) {
        if k < j {
          assert ClassAt(s, k, IsSpace);
        }
        StartsNothing(s, k);
      }
    }
  }

  /**
   * `findProperties`: the documented assignments of the text, in order of position.
   * Every hit follows a doc block with only whitespace in between; undocumented
   * assignments are never reported and a repeated name is reported each time.
   */
  function FindHits(s: string): (r: seq<Hit>)
    ensures forall h <- r :: Documented(s, h)
    ensures Increasing(r)
  {
    FindFrom(s, 0, Idle)
  }

  function FindProperties(s: string, parse: string -> Doc): (r: seq<CriteriaProperty>)
    ensures |r| == |FindHits(s)|
    ensures forall k | 0 <= k < |r| ::
              var h := FindHits(s)[k];
              r[k] == CriteriaProperty(h.name, parse(s[h.docStart..h.docEnd]))
  {
    var hits := FindHits(s);
    forall k | 0 <= k < |hits|
      ensures JsSubstring(s, hits[k].docStart, hits[k].docEnd) == s[hits[k].docStart..hits[k].docEnd]
    {
      assert hits[k] in hits;
    }
    seq(|hits|, k requires 0 <= k < |hits| => CriteriaProperty(hits[k].name, parse(JsSubstring(s, hits[k].docStart, hits[k].docEnd))))
  }

  // ---------------------------------------------------------------------------
  // findConstructorSrc and schema()

  /**
   * `findConstructorSrc`: from the last depth-1 `constructor(` token to its closing
   * brace inclusive. With no token at all both indices stay -1 and the result is
   * empty; with a token but no closing brace, `substring(start, -1)` swaps its
   * arguments and returns the text BEFORE the token.
   */
  function FindConstructorSrc(s: string): (r: string)
    ensures BraceScan.NoTokenBetween(s, "constructor(", -1, |s|) ==> r == []
    ensures var span := BraceScan.ScanSpan(s, "constructor(");
            && (span.Closed? ==> r == s[span.start..span.close + 1] && r[|r| - 1] == '}'
                                 && PeekAt(r, 0, "constructor("))
            && (span.Unclosed? ==> r == s[..span.start])
  {
    match BraceScan.ScanSpan(s, "constructor(")
    case NoToken => JsSubstring(s, -1, -1)
    case Unclosed(a) => JsSubstring(s, a, -1)
    case Closed(a, c) =>
      ClosedSpanStartsWithToken(s, a, c);
      JsSubstring(s, a, c + 1)
  }

  /** A closed span starts with the whole token: the token holds no `}`, so it ends before the close. */
  lemma ClosedSpanStartsWithToken(s: string, a: nat, c: nat)
    requires a < c && BraceScan.TokenAt(s, "constructor(", a) && BraceScan.CloseAt(s, c)
    ensures PeekAt(s[a..c + 1], 0, "constructor(")
  {
    var w := "constructor(";
    forall j | a <= j < a + |w| ensures s[j] != '}' {
      assert s[j] == s[a..a + |w|][j - a];
    }
    assert a + |w| <= c + 1;
    assert s[a..c + 1][0..|w|] == s[a..a + |w|];
  }

  /** What `schema()` returns: the constructor text and the properties found in it. */
  datatype CriteriaSchema = CriteriaSchema(constructorSrc: string, properties: seq<CriteriaProperty>)

  function Schema(source: string, parse: string -> Doc): (r: CriteriaSchema)
    ensures r.constructorSrc == FindConstructorSrc(source)
    ensures |r.properties| == |FindHits(r.constructorSrc)|
    ensures forall k | 0 <= k < |r.properties| ::
              var h := FindHits(r.constructorSrc)[k];
              r.properties[k] == CriteriaProperty(h.name, parse(r.constructorSrc[h.docStart..h.docEnd]))
    ensures BraceScan.NoTokenBetween(source, "constructor(", -1, |source|) ==> r.properties == []
  {
    var src := FindConstructorSrc(source);
    assert FindHits([]) == [];
    CriteriaSchema(src, FindProperties(src, parse))
  }
}
