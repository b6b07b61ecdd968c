/**
 * Where the two scanners read the same text differently, shown on concrete inputs:
 * the character skipped after the name in `parseVariableAssignment`, the opener each
 * accepts, and the constructor token each looks for.
 */
module ScannerContrast {
  import opened Wrappers
  import opened JsRuntime
  import JavascriptParser
  import CriteriaScanner
  import BraceScan

  /** `this.x=1`: the class parser sees an assignment, the criteria scanner skips the `=` and does not. */
  lemma TightAssignment()
    ensures JavascriptParser.ParseAssignment("this.x=1", 8, 0).1 == Some("x")
    ensures CriteriaScanner.ParseVariableAssignment("this.x=1", 0) == None
  {
    var s := "this.x=1";
    assert s[0..5] == "this.";
    assert RunEnd(s, 8, 0, IsSpace) == 0;
    assert RunEnd(s, 8, 6, IsVarChar) == 6;
    assert RunEnd(s, 8, 5, IsVarChar) == 6;
    assert RunEnd(s, 8, 6, IsSpace) == 6;
    assert RunEnd(s, 8, 7, IsSpace) == 7;
    assert s[5..6] == "x";
    assert s[6..7] == "=" && s[7..8] != "=";
  }

  /** `this.x==1`: a comparison to the class parser, an assignment to the criteria scanner. */
  lemma DoubleEquals()
    ensures JavascriptParser.ParseAssignment("this.x==1", 9, 0).1 == None
    ensures CriteriaScanner.ParseVariableAssignment("this.x==1", 0) == Some("x")
  {
    var s := "this.x==1";
    assert s[0..5] == "this.";
    assert RunEnd(s, 9, 0, IsSpace) == 0;
    assert RunEnd(s, 9, 6, IsVarChar) == 6;
    assert RunEnd(s, 9, 5, IsVarChar) == 6;
    assert RunEnd(s, 9, 6, IsSpace) == 6;
    assert RunEnd(s, 9, 7, IsSpace) == 7;
    assert s[5..6] == "x";
    assert s[6..7] == "=" && s[7..8] == "=" && s[8..9] != "=";
  }

  /** An opener followed by a tab starts a doc for the class parser only. */
  lemma TabAfterOpener()
    ensures JavascriptParser.OpensDoc("/**\tx */", 8, 0)
    ensures !CriteriaScanner.OpensBlock("/**\tx */", 0)
  {
    assert "/**\tx */"[0..4][3] == '\t';
  }

  /**
   * Every `constructor(` token the criteria locator can stop at is also a token for
   * the class parser, which accepts `constructor` with anything after it.
   */
  lemma CriteriaTokenIsParserToken(s: string, i: nat)
    requires BraceScan.TokenAt(s, "constructor(", i)
    ensures BraceScan.TokenAt(s, "constructor", i)
  {
    assert s[i..i + 11] == s[i..i + 12][..11];
  }

  /** `constructor ()` with a space is a token for the class parser only. */
  lemma SpacedConstructor()
    ensures BraceScan.TokenAt("{constructor (){}}", "constructor", 1)
    ensures !BraceScan.TokenAt("{constructor (){}}", "constructor(", 1)
  {
    var s := "{constructor (){}}";
    assert BraceScan.Depth(s, 1) == 1;
    assert s[1..12] == "constructor";
    assert s[1..13][11] == ' ';
  }

  /**
   * Two doc blocks in a row before an assignment. The criteria scanner spends the
   * first non-blank character after the first block on its assignment test, finds
   * the second opener there, and so never opens the second block: nothing is
   * reported. The class parser reads the first block, finds no assignment, then
   * reads the second block and reports `x` with it.
   */
  lemma AdjacentDocBlocks()
    ensures CriteriaScanner.FindHits(Adjacent) == []
    ensures JavascriptParser.Assignments(Adjacent, |Adjacent|, 0)
            == [JavascriptParser.Assignment(18, "x", Some("/** b */"))]
  {
    AdjacentSpelled();
    CriteriaAdjacent(Adjacent);
    ParserAdjacent(Adjacent);
  }

  /** On any text spelled like `Adjacent`, the criteria scanner reports nothing. */
  lemma CriteriaAdjacent(s: string)
    requires Spelled(s)
    ensures CriteriaScanner.FindHits(s) == []
  {
    CriteriaFirstBlock(s);
    CriteriaSecondOpener(s);
    CriteriaSecondBlock(s);
    CriteriaTail(s);
  }

  /** On any text spelled like `Adjacent`, the class parser reports `x` with the second block. */
  lemma ParserAdjacent(s: string)
    requires Spelled(s)
    ensures JavascriptParser.Assignments(s, |s|, 0)
            == [JavascriptParser.Assignment(18, "x", Some("/** b */"))]
  {
    ParserFirstStep(s);
    ParserSecondStep(s);
    NoRoom(s, 27, 25);
    assert JavascriptParser.Assignments(s, 27, 9) == [JavascriptParser.Assignment(18, "x", Some("/** b */"))];
  }

  const Adjacent: string := "/** a */ /** b */ this.x =1"

  /** The text of `Adjacent`, character by character, in three parts. */
  ghost predicate Spelled(s: string) {
    |s| == 27 && SpelledHead(s) && SpelledMiddle(s) && SpelledTail(s)
  }

  ghost predicate SpelledHead(s: string)
    requires |s| == 27
  {
    && s[0] == '/' && s[1] == '*' && s[2] == '*' && s[3] == ' ' && s[4] == 'a'
    && s[5] == ' ' && s[6] == '*' && s[7] == '/' && s[8] == ' '
  }

  ghost predicate SpelledMiddle(s: string)
    requires |s| == 27
  {
    && s[9] == '/' && s[10] == '*' && s[11] == '*' && s[12] == ' ' && s[13] == 'b'
    && s[14] == ' ' && s[15] == '*' && s[16] == '/' && s[17] == ' '
  }

  ghost predicate SpelledTail(s: string)
    requires |s| == 27
  {
    && s[18] == 't' && s[19] == 'h' && s[20] == 'i' && s[21] == 's' && s[22] == '.'
    && s[23] == 'x' && s[24] == ' ' && s[25] == '=' && s[26] == '1'
  }

  lemma AdjacentSpelled()
    ensures Spelled(Adjacent)
  {
    AdjacentHead();
    AdjacentMiddle();
    AdjacentTail();
  }

  lemma AdjacentHead()
    ensures |Adjacent| == 27 && SpelledHead(Adjacent)
  {
  }

  lemma AdjacentMiddle()
    ensures |Adjacent| == 27 && SpelledMiddle(Adjacent)
  {
  }

  lemma AdjacentTail()
    ensures |Adjacent| == 27 && SpelledTail(Adjacent)
  {
  }

  /** `/** a */` is a doc block for the criteria scanner. */
  lemma FirstBlockIsDoc(s: string)
    requires Spelled(s)
    ensures CriteriaScanner.DocBlock(s, 0, 8)
  {
    assert s[0..4] == "/** ";
    assert s[6..8] == "*/";
    forall k | 0 < k < 6 ensures !PeekAt(s, k, "*/") && !CriteriaScanner.OpensBlock(s, k) {
      assert k == 1 || k == 2 || k == 3 || k == 4 || k == 5;
      CriteriaScanner.StartsNothing(s, k);
      PeekMismatch(s, k, "*/", 1);
    }
  }

  /** The criteria scanner opens the first block and closes it. */
  lemma CriteriaFirstBlock(s: string)
    requires Spelled(s)
    ensures CriteriaScanner.DocBlock(s, 0, 8)
    ensures CriteriaScanner.FindFrom(s, 0, CriteriaScanner.Idle)
            == CriteriaScanner.FindFrom(s, 8, CriteriaScanner.Shut(0, 8))
  {
    FirstBlockIsDoc(s);
    CriteriaOpenFirst(s);
    CriteriaCloseFirst(s);
  }

  lemma CriteriaOpenFirst(s: string)
    requires Spelled(s)
    ensures CriteriaScanner.OpensBlock(s, 0)
    ensures CriteriaScanner.FindFrom(s, 0, CriteriaScanner.Idle)
            == CriteriaScanner.FindFrom(s, 3, CriteriaScanner.Open(0))
  {
    assert s[0..4] == "/** ";
    assert RunEnd(s, 27, 0, IsSpace) == 0;
    CriteriaPassStars(s);
  }

  lemma CriteriaPassStars(s: string)
    requires Spelled(s) && CriteriaScanner.OpensBlock(s, 0)
    ensures CriteriaScanner.FindFrom(s, 1, CriteriaScanner.Open(0))
            == CriteriaScanner.FindFrom(s, 3, CriteriaScanner.Open(0))
  {
    PeekMismatch(s, 1, "*/", 1);
    PeekMismatch(s, 2, "*/", 1);
    assert RunEnd(s, 27, 1, IsSpace) == 1;
    assert CriteriaScanner.FindFrom(s, 1, CriteriaScanner.Open(0)) == CriteriaScanner.FindFrom(s, 2, CriteriaScanner.Open(0));
    assert RunEnd(s, 27, 2, IsSpace) == 2;
  }

  lemma CriteriaCloseFirst(s: string)
    requires Spelled(s) && CriteriaScanner.DocBlock(s, 0, 8)
    ensures CriteriaScanner.FindFrom(s, 3, CriteriaScanner.Open(0))
            == CriteriaScanner.FindFrom(s, 8, CriteriaScanner.Shut(0, 8))
  {
    assert s[6..8] == "*/";
    assert RunEnd(s, 27, 4, IsSpace) == 4;
    assert RunEnd(s, 27, 3, IsSpace) == 4;
    assert CriteriaScanner.FindFrom(s, 3, CriteriaScanner.Open(0)) == CriteriaScanner.FindFrom(s, 5, CriteriaScanner.Open(0));
    assert RunEnd(s, 27, 6, IsSpace) == 6;
    assert RunEnd(s, 27, 5, IsSpace) == 6;
  }

  /** Right after the first block the scanner finds `/` instead of `this.` and forgets the block. */
  lemma CriteriaSecondOpener(s: string)
    requires Spelled(s)
    ensures CriteriaScanner.DocBlock(s, 0, 8)
    ensures CriteriaScanner.FindFrom(s, 8, CriteriaScanner.Shut(0, 8))
            == CriteriaScanner.FindFrom(s, 10, CriteriaScanner.Idle)
  {
    FirstBlockIsDoc(s);
    assert RunEnd(s, 27, 9, IsSpace) == 9;
    assert RunEnd(s, 27, 8, IsSpace) == 9;
    PeekMismatch(s, 9, "this.", 0);
    assert CriteriaScanner.ParseVariableAssignment(s, 9) == None;
  }

  /** Idle, the scanner passes over the rest of the second block: a closer only counts inside an open block. */
  lemma CriteriaSecondBlock(s: string)
    requires Spelled(s)
    ensures CriteriaScanner.FindFrom(s, 10, CriteriaScanner.Idle)
            == CriteriaScanner.FindFrom(s, 17, CriteriaScanner.Idle)
  {
    assert RunEnd(s, 27, 10, IsSpace) == 10;
    assert CriteriaScanner.FindFrom(s, 10, CriteriaScanner.Idle) == CriteriaScanner.FindFrom(s, 11, CriteriaScanner.Idle);
    assert RunEnd(s, 27, 11, IsSpace) == 11;
    assert CriteriaScanner.FindFrom(s, 11, CriteriaScanner.Idle) == CriteriaScanner.FindFrom(s, 12, CriteriaScanner.Idle);
    assert RunEnd(s, 27, 13, IsSpace) == 13;
    assert RunEnd(s, 27, 12, IsSpace) == 13;
    assert CriteriaScanner.FindFrom(s, 12, CriteriaScanner.Idle) == CriteriaScanner.FindFrom(s, 14, CriteriaScanner.Idle);
    assert RunEnd(s, 27, 15, IsSpace) == 15;
    assert RunEnd(s, 27, 14, IsSpace) == 15;
    assert CriteriaScanner.FindFrom(s, 14, CriteriaScanner.Idle) == CriteriaScanner.FindFrom(s, 16, CriteriaScanner.Idle);
    assert RunEnd(s, 27, 16, IsSpace) == 16;
    PeekMismatch(s, 16, "/**\n", 1);
    PeekMismatch(s, 16, "/** ", 1);
  }

  /** No slash follows the second block, so nothing more is reported. */
  lemma CriteriaTail(s: string)
    requires Spelled(s)
    ensures CriteriaScanner.FindFrom(s, 17, CriteriaScanner.Idle) == []
  {
    forall k | 17 <= k < |s| ensures s[k] != '/' {
      assert k == 17 || k == 18 || k == 19 || k == 20 || k == 21 || k == 22 || k == 23 || k == 24 || k == 25 || k == 26;
    }
    CriteriaScanner.IdleWithoutSlash(s, 17);
  }

  /** The class parser reads `/** a */`, then finds `/` where an assignment was expected. */
  lemma ParserFirstStep(s: string)
    requires Spelled(s)
    ensures JavascriptParser.Step(s, 27, 0) == (9, None)
  {
    assert RunEnd(s, 27, 0, IsSpace) == 0;
    assert s[0..3] == "/**";
    assert s[6..8] == "*/";
    PeekMismatch(s, 5, "*/", 0);
    PeekMismatch(s, 4, "*/", 0);
    PeekMismatch(s, 3, "*/", 0);
    PeekMismatch(s, 2, "*/", 1);
    PeekMismatch(s, 1, "*/", 1);
    PeekMismatch(s, 0, "*/", 0);
    assert JavascriptParser.CommentEnd(s, 27, 6) == 8;
    assert JavascriptParser.CommentEnd(s, 27, 4) == 8;
    assert JavascriptParser.CommentEnd(s, 27, 2) == 8;
    assert JavascriptParser.CommentEnd(s, 27, 0) == 8;
    assert RunEnd(s, 27, 9, IsSpace) == 9;
    assert RunEnd(s, 27, 8, IsSpace) == 9;
    PeekMismatch(s, 9, "this.", 0);
  }

  /** The class parser reads `/** b */`, then the assignment `this.x =`. */
  lemma ParserSecondStep(s: string)
    requires Spelled(s)
    ensures JavascriptParser.Step(s, 27, 9)
            == (25, Some(JavascriptParser.Assignment(18, "x", Some("/** b */"))))
  {
    assert RunEnd(s, 27, 9, IsSpace) == 9;
    ParserSecondDoc(s);
    assert RunEnd(s, 27, 18, IsSpace) == 18;
    assert RunEnd(s, 27, 17, IsSpace) == 18;
    ParserSecondAssignment(s);
  }

  lemma ParserSecondDoc(s: string)
    requires Spelled(s)
    ensures JavascriptParser.ParseJSDoc(s, 27, 9) == (17, Some("/** b */"))
  {
    assert s[9..12] == "/**";
    assert s[15..17] == "*/";
    PeekMismatch(s, 14, "*/", 0);
    PeekMismatch(s, 13, "*/", 0);
    PeekMismatch(s, 12, "*/", 0);
    PeekMismatch(s, 11, "*/", 1);
    PeekMismatch(s, 10, "*/", 1);
    PeekMismatch(s, 9, "*/", 0);
    assert JavascriptParser.CommentEnd(s, 27, 15) == 17;
    assert JavascriptParser.CommentEnd(s, 27, 13) == 17;
    assert JavascriptParser.CommentEnd(s, 27, 11) == 17;
    assert JavascriptParser.CommentEnd(s, 27, 9) == 17;
    assert s[9..17] == "/** b */";
  }

  lemma ParserSecondAssignment(s: string)
    requires Spelled(s)
    ensures JavascriptParser.ParseAssignment(s, 27, 18) == (25, Some("x"))
  {
    assert s[18..23] == "this.";
    assert RunEnd(s, 27, 24, IsVarChar) == 24;
    assert RunEnd(s, 27, 23, IsVarChar) == 24;
    assert s[23..24] == "x";
    assert RunEnd(s, 27, 25, IsSpace) == 25;
    assert RunEnd(s, 27, 24, IsSpace) == 25;
    assert s[25..26] == "=";
    PeekMismatch(s, 26, "=", 0);
  }

  /** An assignment needs `this.` and a name before the bound, so fewer than six characters hold none. */
  lemma NoRoom(s: string, len: nat, i: nat)
    requires len < i + 6
    ensures JavascriptParser.Assignments(s, len, i) == []
  {
    if JavascriptParser.Assignments(s, len, i) != [] {
      JavascriptParser.AssignmentsRecognised(s, len, i, 0);
    }
  }
}
