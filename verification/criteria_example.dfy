/**
 * `findProperties` on a constructor shaped like the one in `criterias.js`: two doc
 * blocks, each followed on the next line by an assignment to the same field. Both
 * assignments are reported, in order, each with its own block.
 */
module CriteriaExample {
  import opened JsRuntime
  import CriteriaScanner

  const Twice: string := "/** a */\nthis.x = 1;\n/** b */\nthis.x = 2;"

  /** The scan reports `x` twice, once per doc block, and nothing else. */
  lemma RepeatedName()
    ensures CriteriaScanner.FindHits(Twice)
            == [CriteriaScanner.Hit(9, "x", 0, 8), CriteriaScanner.Hit(30, "x", 21, 29)]
  {
    TwiceSpelled();
    TwiceHits(Twice);
  }

  /** On any text spelled like `Twice`, the scan reports the two hits. */
  lemma TwiceHits(s: string)
    requires Spelled(s)
    ensures CriteriaScanner.FindHits(s)
            == [CriteriaScanner.Hit(9, "x", 0, 8), CriteriaScanner.Hit(30, "x", 21, 29)]
  {
    var first := CriteriaScanner.Hit(9, "x", 0, 8);
    var second := CriteriaScanner.Hit(30, "x", 21, 29);
    FirstDocumented(s);
    SecondDocumented(s);
    CriteriaScanner.IdleReachesHit(s, 0, first);
    NoSlashBetween(s);
    CriteriaScanner.IdleReachesHit(s, 10, second);
    NoSlashAfter(s);
    CriteriaScanner.IdleWithoutSlash(s, 31);
  }

  lemma FirstDocumented(s: string)
    requires Spelled(s)
    ensures CriteriaScanner.Documented(s, CriteriaScanner.Hit(9, "x", 0, 8))
  {
    OneLineBlock(s, 0);
    AssignsX(s, 9);
  }

  lemma SecondDocumented(s: string)
    requires Spelled(s)
    ensures CriteriaScanner.Documented(s, CriteriaScanner.Hit(30, "x", 21, 29))
  {
    OneLineBlock(s, 21);
    AssignsX(s, 30);
  }

  lemma NoSlashBetween(s: string)
    requires Spelled(s)
    ensures forall k | 10 <= k < 21 :: s[k] != '/'
  {
    forall k | 10 <= k < 21 ensures s[k] != '/' {
      assert k == 10 || k == 11 || k == 12 || k == 13 || k == 14 || k == 15
          || k == 16 || k == 17 || k == 18 || k == 19 || k == 20;
    }
  }

  lemma NoSlashAfter(s: string)
    requires Spelled(s)
    ensures forall k | 31 <= k < |s| :: s[k] != '/'
  {
    forall k | 31 <= k < |s| ensures s[k] != '/' {
      assert k == 31 || k == 32 || k == 33 || k == 34 || k == 35
          || k == 36 || k == 37 || k == 38 || k == 39 || k == 40;
    }
  }

  /** `/** c */` at `a`, for a character `c` that is neither a star nor a slash, is a doc block. */
  lemma OneLineBlock(s: string, a: nat)
    requires a + 8 <= |s|
    requires s[a] == '/' && s[a + 1] == '*' && s[a + 2] == '*' && s[a + 3] == ' '
    requires s[a + 4] != '*' && s[a + 4] != '/'
    requires s[a + 5] == ' ' && s[a + 6] == '*' && s[a + 7] == '/'
    ensures CriteriaScanner.DocBlock(s, a, a + 8)
  {
    assert s[a..a + 4] == "/** ";
    assert s[a + 6..a + 8] == "*/";
    forall k | a < k < a + 6 ensures !PeekAt(s, k, "*/") && !CriteriaScanner.OpensBlock(s, k) {
      assert k == a + 1 || k == a + 2 || k == a + 3 || k == a + 4 || k == a + 5;
      CriteriaScanner.StartsNothing(s, k);
      PeekMismatch(s, k, "*/", 1);
    }
  }

  /** `this.x = ` at `q` is an assignment to `x` as the criteria scanner reads one. */
  lemma AssignsX(s: string, q: nat)
    requires q + 9 <= |s|
    requires s[q] == 't' && s[q + 1] == 'h' && s[q + 2] == 'i' && s[q + 3] == 's' && s[q + 4] == '.'
    requires s[q + 5] == 'x' && s[q + 6] == ' ' && s[q + 7] == '=' && s[q + 8] == ' '
    ensures CriteriaScanner.CriteriaAssignmentAt(s, q, "x")
  {
    assert s[q..q + 5] == "this.";
    assert s[q + 5..q + 6] == "x";
    assert s[q + 7..q + 8] == "=";
    RunEndIs(s, |s|, q + 7, q + 7, IsSpace);
    PeekMismatch(s, q + 8, "=", 0);
  }

  /**
   * The text of `Twice`, character by character, in short parts: indexing a long
   * literal is expensive near its start, so the parts there are shortest.
   */
  ghost predicate Spelled(s: string) {
    && |s| == 41
    && SpelledPart1(s) && SpelledPart2(s) && SpelledPart3(s) && SpelledPart4(s)
    && SpelledPart5(s) && SpelledPart6(s) && SpelledPart7(s) && SpelledPart8(s)
    && SpelledPart9(s) && SpelledPart10(s) && SpelledPart11(s) && SpelledPart12(s)
  }

  ghost predicate SpelledPart1(s: string)
    requires |s| == 41
  {
    s[0] == '/' && s[1] == '*' && s[2] == '*'
  }

  ghost predicate SpelledPart2(s: string)
    requires |s| == 41
  {
    s[3] == ' ' && s[4] == 'a'
  }

  ghost predicate SpelledPart3(s: string)
    requires |s| == 41
  {
    s[5] == ' ' && s[6] == '*'
  }

  ghost predicate SpelledPart4(s: string)
    requires |s| == 41
  {
    s[7] == '/' && s[8] == '\n'
  }

  ghost predicate SpelledPart5(s: string)
    requires |s| == 41
  {
    s[9] == 't' && s[10] == 'h'
  }

  ghost predicate SpelledPart6(s: string)
    requires |s| == 41
  {
    s[11] == 'i' && s[12] == 's' && s[13] == '.'
  }

  ghost predicate SpelledPart7(s: string)
    requires |s| == 41
  {
    s[14] == 'x' && s[15] == ' ' && s[16] == '='
  }

  ghost predicate SpelledPart8(s: string)
    requires |s| == 41
  {
    s[17] == ' ' && s[18] == '1' && s[19] == ';' && s[20] == '\n'
  }

  ghost predicate SpelledPart9(s: string)
    requires |s| == 41
  {
    s[21] == '/' && s[22] == '*' && s[23] == '*' && s[24] == ' ' && s[25] == 'b'
  }

  ghost predicate SpelledPart10(s: string)
    requires |s| == 41
  {
    s[26] == ' ' && s[27] == '*' && s[28] == '/' && s[29] == '\n'
  }

  ghost predicate SpelledPart11(s: string)
    requires |s| == 41
  {
    s[30] == 't' && s[31] == 'h' && s[32] == 'i' && s[33] == 's' && s[34] == '.'
  }

  ghost predicate SpelledPart12(s: string)
    requires |s| == 41
  {
    s[35] == 'x' && s[36] == ' ' && s[37] == '=' && s[38] == ' ' && s[39] == '2' && s[40] == ';'
  }

  /**
   * `Spelled(Twice)`, one part per lemma: proving all forty-one characters of the
   * literal in one obligation costs more than the verifier is given.
   */
  lemma TwiceSpelled()
    ensures Spelled(Twice)
  {
    TwicePart1();
    TwicePart2();
    TwicePart3();
    TwicePart4();
    TwicePart5();
    TwicePart6();
    TwicePart7();
    TwicePart8();
    TwicePart9();
    TwicePart10();
    TwicePart11();
    TwicePart12();
  }

  lemma TwicePart1()
    ensures |Twice| == 41 && SpelledPart1(Twice)
  {
  }

  lemma TwicePart2()
    ensures |Twice| == 41 && SpelledPart2(Twice)
  {
  }

  lemma TwicePart3()
    ensures |Twice| == 41 && SpelledPart3(Twice)
  {
  }

  lemma TwicePart4()
    ensures |Twice| == 41 && SpelledPart4(Twice)
  {
  }

  lemma TwicePart5()
    ensures |Twice| == 41 && SpelledPart5(Twice)
  {
  }

  lemma TwicePart6()
    ensures |Twice| == 41 && SpelledPart6(Twice)
  {
  }

  lemma TwicePart7()
    ensures |Twice| == 41 && SpelledPart7(Twice)
  {
  }

  lemma TwicePart8()
    ensures |Twice| == 41 && SpelledPart8(Twice)
  {
  }

  lemma TwicePart9()
    ensures |Twice| == 41 && SpelledPart9(Twice)
  {
  }

  lemma TwicePart10()
    ensures |Twice| == 41 && SpelledPart10(Twice)
  {
  }

  lemma TwicePart11()
    ensures |Twice| == 41 && SpelledPart11(Twice)
  {
  }

  lemma TwicePart12()
    ensures |Twice| == 41 && SpelledPart12(Twice)
  {
  }
}
