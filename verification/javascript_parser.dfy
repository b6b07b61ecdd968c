/**
 * `JavascriptParser` of schema_tools.js: a cursor scanner over a class's source
 * text that finds the constructor by brace counting, then pairs each JSDoc block
 * (slash, two stars, ..., star, slash) with an immediately following `this.<name> =` assignment.
 *
 * The parser state is the source `s`, the loop bound `len` and the cursor `i`.
 * Loops stop at `len`, but every `peek` compares against the whole source, so a
 * token may be recognised across `len`. After the constructor is found, `len` is
 * the position just past the character following the closing brace, which can be
 * one beyond the end of `s`.
 */
module JavascriptParser {
  import opened Wrappers
  import opened JsRuntime
  import opened JsDoc
  import BraceScan

  /** An attribute descriptor `{name, doc}`: an assigned property and the doc parsed for it. */
  datatype Attribute = Attribute(name: string, doc: Option<Doc>)

  /** One recognised assignment: where its `this.` starts, the name, and the raw doc block read in the same step. */
  datatype Assignment = Assignment(at: nat, name: string, docText: Option<string>)

  // ---------------------------------------------------------------------------
  // Recognisers

  /** `name` is the maximal run of identifier characters starting at `i`, ending before `len`. */
  ghost predicate NameAt(s: string, len: nat, i: nat, name: string) {
    && |name| > 0
    && i + |name| <= len
    && i + |name| <= |s|
    && s[i..i + |name|] == name
    && (forall k | i <= k < i + |name| :: ClassAt(s, k, IsVarChar))
    && !(i + |name| < len && ClassAt(s, i + |name|, IsVarChar))
  }

  /**
   * An assignment statement starts at `p`: `this.`, a maximal identifier `name`,
   * optional whitespace, then `=` not followed by another `=`.
   */
  ghost predicate AssignmentAt(s: string, len: nat, p: nat, name: string) {
    && PeekAt(s, p, "this.")
    && NameAt(s, len, p + 5, name)
    && var k := RunEnd(s, len, p + 5 + |name|, IsSpace);
       PeekAt(s, k, "=") && !PeekAt(s, k + 1, "=")
  }

  /** `_parseVariable`: the identifier at the cursor and the cursor after it, or nothing. */
  function ParseVariable(s: string, len: nat, i: nat): (r: (nat, Option<string>))
    ensures r.1.Some? ==> r.0 == i + |r.1.value| && NameAt(s, len, i, r.1.value)
    ensures r.1.None? ==> r.0 == i && forall x :: !NameAt(s, len, i, x)
  {
    var j := RunEnd(s, len, i, IsVarChar);
    if j == i then
      (i, None)
    else
      (j, Some(s[i..j]))
  }

  /**
   * `_parseAssignment`: recognises an assignment at the cursor. The cursor moves past
   * `this.` whenever that prefix is present, even when no assignment follows.
   */
  function ParseAssignment(s: string, len: nat, i: nat): (r: (nat, Option<string>))
    ensures r.1.Some? ==> AssignmentAt(s, len, i, r.1.value) && i + 5 + |r.1.value| <= r.0
    ensures r.1.None? ==> forall x :: !AssignmentAt(s, len, i, x)
    ensures PeekAt(s, i, "this.") ==> i + 5 <= r.0
    ensures !PeekAt(s, i, "this.") ==> r == (i, None)
  {
    if !PeekAt(s, i, "this.") then
      (i, None)
    else
      AfterThis(s, len, i)
  }

  /** The rest of `_parseAssignment` once `this.` has been seen at `i`. */
  function AfterThis(s: string, len: nat, i: nat): (r: (nat, Option<string>))
    requires PeekAt(s, i, "this.")
    ensures r.1.Some? ==> AssignmentAt(s, len, i, r.1.value) && i + 5 + |r.1.value| <= r.0
    ensures r.1.None? ==> forall x :: !AssignmentAt(s, len, i, x)
    ensures i + 5 <= r.0
  {
    var q := i + 5;
    var pv := ParseVariable(s, len, q);
    if pv.1.None? then
      NoAssignmentWithoutName(s, len, i, q);
      (q, None)
    else
      var name := pv.1.value;
      var k := RunEnd(s, len, pv.0, IsSpace);
      if PeekAt(s, k, "=") && !PeekAt(s, k + 1, "=") then
        AssignmentFound(s, len, i, name);
        (k, Some(name))
      else
        NoAssignmentAfterName(s, len, i, name);
        (k, None)
  }

  /** `this.`, the maximal name and the `=` test make an assignment. */
  lemma AssignmentFound(s: string, len: nat, i: nat, name: string)
    requires PeekAt(s, i, "this.") && NameAt(s, len, i + 5, name)
    requires var k := RunEnd(s, len, i + 5 + |name|, IsSpace);
             PeekAt(s, k, "=") && !PeekAt(s, k + 1, "=")
    ensures AssignmentAt(s, len, i, name)
  {
  }

  /** When the maximal name at `i + 5` is not followed by `=`, no assignment starts at `i`. */
  lemma NoAssignmentAfterName(s: string, len: nat, i: nat, name: string)
    requires NameAt(s, len, i + 5, name)
    requires var k := RunEnd(s, len, i + 5 + |name|, IsSpace);
             !(PeekAt(s, k, "=") && !PeekAt(s, k + 1, "="))
    ensures forall x :: !AssignmentAt(s, len, i, x)
  {
    var p := i + 5;
    forall x ensures !AssignmentAt(s, len, i, x) {
      if NameAt(s, len, p, x) {
        NameAtUnique(s, len, p, x, name);
      }
    }
  }

  /** Without an identifier right after `this.`, no assignment starts at `i`. */
  lemma NoAssignmentWithoutName(s: string, len: nat, i: nat, q: nat)
    requires q == i + 5 && forall x :: !NameAt(s, len, q, x)
    ensures forall x :: !AssignmentAt(s, len, i, x)
  {
  }

  /** The name of an assignment starting at `p` is determined by the text. */
  lemma AssignmentAtUnique(s: string, len: nat, p: nat, x: string, y: string)
    requires AssignmentAt(s, len, p, x) && AssignmentAt(s, len, p, y)
    ensures x == y
  {
    NameAtUnique(s, len, p + 5, x, y);
  }

  /** A maximal identifier run is unique. */
  lemma NameAtUnique(s: string, len: nat, i: nat, x: string, y: string)
    requires NameAt(s, len, i, x) && NameAt(s, len, i, y)
    ensures x == y
  {
  }

  /**
   * The loop of `_parseJSDoc`: from `k`, the position just past the first `*` `/`
   * found before `len`, or `len` when none is found (and `k` itself when `k >= len`).
   */
  function CommentEnd(s: string, len: nat, k: nat): (e: nat)
    ensures k <= e
    ensures k >= len ==> e == k
    ensures k < len ==>
              || (k + 2 <= e <= len + 1 && PeekAt(s, e - 2, "*/")
                  && forall m | k <= m < e - 2 :: !PeekAt(s, m, "*/"))
              || (e == len && forall m | k <= m < len :: !PeekAt(s, m, "*/"))
    decreases len - k
  {
    if k >= len then k
    else if PeekAt(s, k, "*/") then k + 2
    else CommentEnd(s, len, k + 1)
  }

  /** A doc block can start at `d`: the doc opener (slash and two stars) is there and the cursor is still inside the bound. */
  predicate OpensDoc(s: string, len: nat, d: nat) {
    d < len && PeekAt(s, d, "/**")
  }

  /**
   * `_parseJSDoc`: at a doc opener (slash and two stars), reads up to and including the closing `*` `/` (or up to the
   * bound) and returns that raw block; anywhere else it returns nothing and stays put.
   */
  function ParseJSDoc(s: string, len: nat, i: nat): (r: (nat, Option<string>))
    ensures r.1.Some? <==> OpensDoc(s, len, i)
    ensures r.1.None? ==> r.0 == i
    ensures r.1.Some? ==> r.0 == CommentEnd(s, len, i) && i < r.0
    ensures r.1.Some? ==> r.1.value == JsSubstring(s, i, r.0)
  {
    if !PeekAt(s, i, "/**") then
      (i, None)
    else
      var e := CommentEnd(s, len, i);
      if e == i then
        (i, None)
      else
        (e, Some(JsSubstring(s, i, e)))
  }

  // ---------------------------------------------------------------------------
  // One step of the `parseAttributes` loop

  /** Where a step's doc block (if any) ends, the step starting from the non-space position `d`. */
  function DocEnd(s: string, len: nat, d: nat): nat {
    if OpensDoc(s, len, d) then CommentEnd(s, len, d) else d
  }

  /**
   * One iteration of `parseAttributes`: skip space, read an optional doc block, skip
   * space, read an optional assignment; move on by at least one character.
   */
  function Step(s: string, len: nat, i: nat): (r: (nat, Option<Assignment>))
    requires i < len
    ensures i < r.0
    ensures r.1.Some? ==> RecognisedFrom(s, len, i, r.1.value) && r.1.value.at < r.0
  {
    var i1 := RunEnd(s, len, i, IsSpace);
    var (i2, doc) := ParseJSDoc(s, len, i1);
    var i3 := RunEnd(s, len, i2, IsSpace);
    var (i4, name) := ParseAssignment(s, len, i3);
    var next := if i4 == i then i + 1 else i4;
    if name.Some? then (next, Some(Assignment(i3, name.value, doc))) else (next, None)
  }

  /**
   * What one step pairs: with `d` the first non-space position, the assignment is
   * looked for only after the whitespace that follows the doc block opening at `d`
   * (or at `d` itself when none opens there), and it carries exactly that block.
   * A doc followed by anything but whitespace and an assignment is dropped.
   */
  lemma StepPairsDocWithAssignment(s: string, len: nat, i: nat)
    requires i < len
    ensures var r := Step(s, len, i);
            var d := RunEnd(s, len, i, IsSpace);
            var p := RunEnd(s, len, DocEnd(s, len, d), IsSpace);
            && (r.1.None? <==> forall x :: !AssignmentAt(s, len, p, x))
            && (r.1.Some? ==>
                  && r.1.value.at == p
                  && AssignmentAt(s, len, p, r.1.value.name)
                  && (r.1.value.docText.Some? <==> OpensDoc(s, len, d))
                  && (r.1.value.docText.Some? ==>
                        r.1.value.docText.value == JsSubstring(s, d, CommentEnd(s, len, d))))
  {
  }

  /** `a` is an assignment recognised at or after `i`, with its name ending before `len`. */
  ghost predicate RecognisedFrom(s: string, len: nat, i: nat, a: Assignment) {
    i <= a.at && a.at + 5 + |a.name| <= len && AssignmentAt(s, len, a.at, a.name)
  }

  /**
   * The assignments the `parseAttributes` loop recognises from `i` up to the bound,
   * in strictly increasing position, each with the doc block read in its own step.
   */
  function Assignments(s: string, len: nat, i: nat): (r: seq<Assignment>)
    ensures forall k | 0 <= k < |r| :: i <= r[k].at
    ensures forall k | 0 <= k < |r| - 1 :: r[k].at < r[k + 1].at
    decreases len - i
  {
    if i >= len then
      []
    else
      var (next, found) := Step(s, len, i);
      var rest := Assignments(s, len, next);
      if found.Some? then
        ConsAssignment(found.value, rest, i, next);
        [found.value] + rest
      else rest
  }

  lemma ConsAssignment(a: Assignment, rest: seq<Assignment>, i: nat, next: nat)
    requires i <= a.at < next
    requires forall k | 0 <= k < |rest| :: next <= rest[k].at
    requires forall k | 0 <= k < |rest| - 1 :: rest[k].at < rest[k + 1].at
    ensures var r := [a] + rest;
            && (forall k | 0 <= k < |r| :: i <= r[k].at)
            && (forall k | 0 <= k < |r| - 1 :: r[k].at < r[k + 1].at)
  {
    var r := [a] + rest;
    forall k | 0 < k < |r| ensures r[k] == rest[k - 1] {
    }
  }

  /** Every element of `Assignments` is a genuine assignment whose name lies before the bound. */
  lemma {:induction false} AssignmentsRecognised(s: string, len: nat, i: nat, k: nat)
    requires k < |Assignments(s, len, i)|
    ensures RecognisedFrom(s, len, i, Assignments(s, len, i)[k])
    decreases len - i
  {
    var step := Step(s, len, i);
    var rest := Assignments(s, len, step.0);
    if step.1.Some? {
      if k > 0 {
        AssignmentsRecognised(s, len, step.0, k - 1);
        assert Assignments(s, len, i)[k] == rest[k - 1];
      }
    } else {
      AssignmentsRecognised(s, len, step.0, k);
    }
  }

  // ---------------------------------------------------------------------------
  // First-wins deduplication (`attributesByName`)

  function Names(attrs: seq<Attribute>): (r: seq<string>)
    ensures |r| == |attrs|
    ensures forall k | 0 <= k < |attrs| :: r[k] == attrs[k].name
  {
    seq(|attrs|, k requires 0 <= k < |attrs| => attrs[k].name)
  }

  function IndexOf(attrs: seq<Attribute>, name: string): (r: Option<nat>)
    ensures r.Some? ==> r.value < |attrs| && attrs[r.value].name == name
    ensures r.None? ==> name !in Names(attrs)
  {
    if |attrs| == 0 then None
    else if attrs[|attrs| - 1].name == name then Some(|attrs| - 1)
    else IndexOf(attrs[..|attrs| - 1], name)
  }

  /**
   * Records one assignment: a new name is appended; a name already present (or one
   * the lookup object answers for, in `reserved`) keeps its place and only gains the
   * doc if it had none.
   */
  function Record(acc: seq<Attribute>, a: Attribute, reserved: set<string>): seq<Attribute> {
    if a.name in reserved then acc
    else match IndexOf(acc, a.name)
      case Some(p) => acc[p := acc[p].(doc := if acc[p].doc.Some? then acc[p].doc else a.doc)]
      case None => acc + [a]
  }

  /** The assignments' attributes, folded through `Record` in order. */
  function Dedupe(events: seq<Attribute>, reserved: set<string>): seq<Attribute> {
    if |events| == 0 then []
    else Record(Dedupe(events[..|events| - 1], reserved), events[|events| - 1], reserved)
  }

  /** Index of the first event with name `x`, or -1 (reference definition). */
  ghost function FirstIndex(events: seq<Attribute>, x: string): (r: int)
    ensures -1 <= r < |events|
    ensures r >= 0 <==> x in Names(events)
  {
    if |events| == 0 then -1
    else
      var p := FirstIndex(events[..|events| - 1], x);
      NamesSnoc(events);
      if p >= 0 then p
      else if events[|events| - 1].name == x then |events| - 1
      else -1
  }

  /** The first doc among the events named `x`, in order (reference definition). */
  ghost function FirstDoc(events: seq<Attribute>, x: string): (r: Option<Doc>)
    ensures r.Some? ==> x in Names(events)
  {
    if |events| == 0 then None
    else
      var prev := FirstDoc(events[..|events| - 1], x);
      NamesSnoc(events);
      if prev.Some? then prev
      else if events[|events| - 1].name == x then events[|events| - 1].doc
      else None
  }

  lemma NamesSnoc(events: seq<Attribute>)
    requires |events| > 0
    ensures Names(events) == Names(events[..|events| - 1]) + [events[|events| - 1].name]
  {
  }

  ghost predicate DistinctNames(r: seq<Attribute>) {
    forall p, q | 0 <= p < q < |r| :: r[p].name != r[q].name
  }

  ghost predicate SameNames(events: seq<Attribute>, reserved: set<string>, r: seq<Attribute>) {
    forall x :: x in Names(r) <==> x in Names(events) && x !in reserved
  }

  ghost predicate FirstAssignmentOrder(events: seq<Attribute>, r: seq<Attribute>) {
    forall p, q | 0 <= p < q < |r| :: FirstIndex(events, r[p].name) < FirstIndex(events, r[q].name)
  }

  ghost predicate FirstDocs(events: seq<Attribute>, r: seq<Attribute>) {
    forall p | 0 <= p < |r| :: r[p].doc == FirstDoc(events, r[p].name)
  }

  /** What `Dedupe` computes, stated against the reference definitions. */
  ghost predicate DedupeSpec(events: seq<Attribute>, reserved: set<string>, r: seq<Attribute>) {
    && DistinctNames(r)
    && SameNames(events, reserved, r)
    && FirstAssignmentOrder(events, r)
    && FirstDocs(events, r)
  }

  /**
   * Deduplication keeps one attribute per (non-reserved) assigned name, in the order
   * names are first assigned, each carrying the first doc any of its assignments had.
   */
  lemma {:induction false} DedupeCorrect(events: seq<Attribute>, reserved: set<string>)
    ensures DedupeSpec(events, reserved, Dedupe(events, reserved))
    decreases |events|
  {
    if |events| > 0 {
      var n := |events| - 1;
      DedupeCorrect(events[..n], reserved);
      NamesSnoc(events);
      var acc := Dedupe(events[..n], reserved);
      var a := events[n];
      if a.name in reserved {
        RecordReserved(events, reserved, acc);
      } else {
        match IndexOf(acc, a.name)
        case Some(p) => RecordExisting(events, reserved, acc, p);
        case None => RecordNew(events, reserved, acc);
      }
    }
  }

  lemma RecordReserved(events: seq<Attribute>, reserved: set<string>, acc: seq<Attribute>)
    requires |events| > 0 && events[|events| - 1].name in reserved
    requires DedupeSpec(events[..|events| - 1], reserved, acc)
    requires Names(events) == Names(events[..|events| - 1]) + [events[|events| - 1].name]
    ensures DedupeSpec(events, reserved, acc)
  {
    var n := |events| - 1;
    forall p | 0 <= p < |acc|
      ensures FirstIndex(events, acc[p].name) == FirstIndex(events[..n], acc[p].name)
      ensures FirstDoc(events, acc[p].name) == FirstDoc(events[..n], acc[p].name)
    {
      assert acc[p].name in Names(acc);
    }
  }

  lemma RecordExisting(events: seq<Attribute>, reserved: set<string>, acc: seq<Attribute>, p: nat)
    requires |events| > 0 && events[|events| - 1].name !in reserved
    requires DedupeSpec(events[..|events| - 1], reserved, acc)
    requires Names(events) == Names(events[..|events| - 1]) + [events[|events| - 1].name]
    requires IndexOf(acc, events[|events| - 1].name) == Some(p)
    ensures DedupeSpec(events, reserved, Record(acc, events[|events| - 1], reserved))
  {
    var n := |events| - 1;
    var a := events[n];
    var r := Record(acc, a, reserved);
    assert r == acc[p := acc[p].(doc := if acc[p].doc.Some? then acc[p].doc else a.doc)];
    assert Names(r) == Names(acc);
    assert a.name in Names(acc);
    forall q | 0 <= q < |acc|
      ensures FirstIndex(events, acc[q].name) == FirstIndex(events[..n], acc[q].name)
    {
      assert acc[q].name in Names(acc);
    }
  }

  lemma RecordNew(events: seq<Attribute>, reserved: set<string>, acc: seq<Attribute>)
    requires |events| > 0 && events[|events| - 1].name !in reserved
    requires DedupeSpec(events[..|events| - 1], reserved, acc)
    requires Names(events) == Names(events[..|events| - 1]) + [events[|events| - 1].name]
    requires IndexOf(acc, events[|events| - 1].name).None?
    ensures DedupeSpec(events, reserved, Record(acc, events[|events| - 1], reserved))
  {
    var n := |events| - 1;
    var a := events[n];
    var r := Record(acc, a, reserved);
    assert r == acc + [a];
    assert Names(r) == Names(acc) + [a.name];
    assert a.name !in Names(events[..n]);
    forall q | 0 <= q < |acc|
      ensures FirstIndex(events, acc[q].name) == FirstIndex(events[..n], acc[q].name) < n
      ensures FirstDoc(events, acc[q].name) == FirstDoc(events[..n], acc[q].name)
    {
      assert acc[q].name in Names(acc);
    }
    assert FirstIndex(events, a.name) == n;
    assert FirstDoc(events, a.name) == a.doc;
  }

  /** `attrs` without the attributes whose names are in `reserved`, in order. */
  function Without(attrs: seq<Attribute>, reserved: set<string>): (r: seq<Attribute>)
    ensures forall b <- r :: b in attrs && b.name !in reserved
    ensures forall x :: x in Names(r) <==> x in Names(attrs) && x !in reserved
  {
    if |attrs| == 0 then []
    else
      var n := |attrs| - 1;
      var w := Without(attrs[..n], reserved);
      NamesSnoc(attrs);
      if attrs[n].name in reserved then w
      else
        NamesSnoc(w + [attrs[n]]);
        assert (w + [attrs[n]])[..|w|] == w;
        w + [attrs[n]]
  }

  lemma WithoutSnoc(c: seq<Attribute>, l: Attribute, reserved: set<string>)
    ensures Without(c + [l], reserved) == if l.name in reserved then Without(c, reserved) else Without(c, reserved) + [l]
  {
    assert (c + [l])[..|c|] == c;
  }

  /** Removing names keeps the remaining names distinct. */
  lemma {:induction false} WithoutDistinct(attrs: seq<Attribute>, reserved: set<string>)
    requires DistinctNames(attrs)
    ensures DistinctNames(Without(attrs, reserved))
    decreases |attrs|
  {
    if |attrs| > 0 {
      var n := |attrs| - 1;
      var c, l := attrs[..n], attrs[n];
      assert attrs == c + [l];
      WithoutDistinct(c, reserved);
      WithoutSnoc(c, l, reserved);
      if l.name !in reserved {
        assert l.name !in Names(c);
        DistinctSnoc(Without(c, reserved), l);
      }
    }
  }

  lemma DistinctSnoc(w: seq<Attribute>, l: Attribute)
    requires DistinctNames(w) && l.name !in Names(w)
    ensures DistinctNames(w + [l])
  {
    forall p | 0 <= p < |w| ensures w[p].name != l.name {
      assert Names(w)[p] == w[p].name;
    }
  }

  /** Recording past a trailing attribute with another name touches only the prefix. */
  lemma RecordPastLast(c: seq<Attribute>, l: Attribute, a: Attribute, reserved: set<string>)
    requires l.name != a.name && a.name !in reserved && a.name in Names(c)
    ensures Record(c + [l], a, reserved) == Record(c, a, reserved) + [l]
  {
    assert (c + [l])[..|c|] == c;
    assert IndexOf(c + [l], a.name) == IndexOf(c, a.name);
  }

  /** Removing reserved names commutes with recording one more assignment. */
  lemma {:induction false} WithoutRecord(acc: seq<Attribute>, a: Attribute, reserved: set<string>)
    ensures a.name in reserved ==> Without(Record(acc, a, {}), reserved) == Without(acc, reserved)
    ensures a.name !in reserved ==> Without(Record(acc, a, {}), reserved) == Record(Without(acc, reserved), a, reserved)
    decreases |acc|
  {
    if |acc| == 0 {
      assert Record(acc, a, {}) == [a];
      WithoutSnoc([], a, reserved);
    } else {
      var n := |acc| - 1;
      var c, l := acc[..n], acc[n];
      assert acc == c + [l];
      if l.name == a.name {
        WithoutRecordLast(c, l, a, reserved);
      } else if IndexOf(acc, a.name).None? {
        WithoutRecordNew(acc, a, reserved);
      } else {
        WithoutRecord(c, a, reserved);
        WithoutRecordPast(c, l, a, reserved);
      }
    }
  }

  /** The case where the last recorded attribute has the new name. */
  lemma WithoutRecordLast(c: seq<Attribute>, l: Attribute, a: Attribute, reserved: set<string>)
    requires l.name == a.name
    ensures a.name in reserved ==> Without(Record(c + [l], a, {}), reserved) == Without(c + [l], reserved)
    ensures a.name !in reserved ==>
              Without(Record(c + [l], a, {}), reserved) == Record(Without(c + [l], reserved), a, reserved)
  {
    var l' := l.(doc := if l.doc.Some? then l.doc else a.doc);
    RecordOverLast(c, l, a, {});
    WithoutSnoc(c, l, reserved);
    WithoutSnoc(c, l', reserved);
    if a.name !in reserved {
      RecordOverLast(Without(c, reserved), l, a, reserved);
    }
  }

  /** Recording a name equal to the last attribute's updates that attribute's doc in place. */
  lemma RecordOverLast(c: seq<Attribute>, l: Attribute, a: Attribute, reserved: set<string>)
    requires l.name == a.name && a.name !in reserved
    ensures Record(c + [l], a, reserved) == c + [l.(doc := if l.doc.Some? then l.doc else a.doc)]
  {
    assert IndexOf(c + [l], a.name) == Some(|c|);
  }

  /** The case where the new name was never recorded. */
  lemma WithoutRecordNew(acc: seq<Attribute>, a: Attribute, reserved: set<string>)
    requires IndexOf(acc, a.name).None?
    ensures a.name in reserved ==> Without(Record(acc, a, {}), reserved) == Without(acc, reserved)
    ensures a.name !in reserved ==> Without(Record(acc, a, {}), reserved) == Record(Without(acc, reserved), a, reserved)
  {
    assert Record(acc, a, {}) == acc + [a];
    WithoutSnoc(acc, a, reserved);
    if a.name !in reserved {
      assert a.name !in Names(Without(acc, reserved));
    }
  }

  /** The case where the new name was recorded before the last attribute. */
  lemma WithoutRecordPast(c: seq<Attribute>, l: Attribute, a: Attribute, reserved: set<string>)
    requires l.name != a.name && IndexOf(c, a.name).Some?
    requires a.name in reserved ==> Without(Record(c, a, {}), reserved) == Without(c, reserved)
    requires a.name !in reserved ==> Without(Record(c, a, {}), reserved) == Record(Without(c, reserved), a, reserved)
    ensures a.name in reserved ==> Without(Record(c + [l], a, {}), reserved) == Without(c + [l], reserved)
    ensures a.name !in reserved ==>
              Without(Record(c + [l], a, {}), reserved) == Record(Without(c + [l], reserved), a, reserved)
  {
    assert a.name in Names(c);
    RecordPastLast(c, l, a, {});
    WithoutSnoc(Record(c, a, {}), l, reserved);
    WithoutSnoc(c, l, reserved);
    if a.name !in reserved && l.name !in reserved {
      assert a.name in Names(Without(c, reserved));
      RecordPastLast(Without(c, reserved), l, a, reserved);
    }
  }

  /** Deduplicating with reserved names skipped is deduplicating freely, then removing them. */
  lemma {:induction false} DedupeWithout(events: seq<Attribute>, reserved: set<string>)
    ensures Dedupe(events, reserved) == Without(Dedupe(events, {}), reserved)
    decreases |events|
  {
    if |events| > 0 {
      var n := |events| - 1;
      DedupeWithout(events[..n], reserved);
      WithoutRecord(Dedupe(events[..n], {}), events[n], reserved);
    }
  }

  // ---------------------------------------------------------------------------
  // parseAttributes

  function ToAttributes(found: seq<Assignment>, parse: string -> Doc): (r: seq<Attribute>)
    ensures |r| == |found|
    ensures forall k | 0 <= k < |found| ::
              r[k].name == found[k].name
              && r[k].doc == (if found[k].docText.Some? then Some(parse(found[k].docText.value)) else None)
  {
    seq(|found|, k requires 0 <= k < |found| =>
      Attribute(found[k].name, if found[k].docText.Some? then Some(parse(found[k].docText.value)) else None))
  }

  /**
   * `_enterConstructor`: the cursor start and the new loop bound (two past the
   * closing brace), or nothing when no `constructor` token opens a closed span.
   */
  function EnterConstructor(s: string): (r: Option<(nat, nat)>)
    ensures BraceScan.NoTokenBetween(s, "constructor", -1, |s|) ==> r.None?
    ensures r.Some? ==>
              && BraceScan.TokenAt(s, "constructor", r.value.0)
              && r.value.0 + 2 < r.value.1
              && BraceScan.CloseAt(s, r.value.1 - 2)
              && BraceScan.NoTokenBetween(s, "constructor", r.value.0, r.value.1 - 2)
              && BraceScan.NoCloseAfterToken(s, "constructor", r.value.1 - 2)
    ensures r.None? ==>
              BraceScan.NoTokenBetween(s, "constructor", -1, |s|) || BraceScan.NoCloseAfterToken(s, "constructor", |s|)
  {
    match BraceScan.ScanSpan(s, "constructor")
    case Closed(a, c) => Some((a, c + 2))
    case _ => None
  }

  /** The attributes of the constructor span `[start, bound)`, deduplicated with `reserved` names skipped. */
  function SpanAttributes(s: string, start: nat, bound: nat, parse: string -> Doc, reserved: set<string>): seq<Attribute> {
    Dedupe(ToAttributes(Assignments(s, bound, start), parse), reserved)
  }

  /** `x` is assigned by a statement lying wholly inside `[start, bound)`. */
  ghost predicate AssignedInSpan(s: string, start: nat, bound: nat, x: string) {
    exists at: nat :: start <= at && at + 5 + |x| <= bound && AssignmentAt(s, bound, at, x)
  }

  /** Every attribute comes from an assignment recognised inside `[start, bound)`. */
  ghost predicate AssignedWithin(s: string, start: nat, bound: nat, r: seq<Attribute>) {
    forall p | 0 <= p < |r| :: AssignedInSpan(s, start, bound, r[p].name)
  }

  /**
   * `parseAttributes` with `attributesByName` a true dictionary: no `constructor` token
   * at depth 1, or one with no closing brace after it, gives `[]` (never an error); otherwise names are unique and each was
   * assigned inside the span from the token to two past its closing brace, so text
   * after the constructor (a later `Constructor()` method, say) contributes nothing.
   */
  function ParseAttributes(s: string, parse: string -> Doc): (r: seq<Attribute>)
    ensures BraceScan.NoTokenBetween(s, "constructor", -1, |s|) ==> r == []
    ensures EnterConstructor(s).None? ==> r == []
    ensures DistinctNames(r)
    ensures EnterConstructor(s).Some? ==> AssignedWithin(s, EnterConstructor(s).value.0, EnterConstructor(s).value.1, r)
    ensures EnterConstructor(s).Some? ==>
              var (start, bound) := EnterConstructor(s).value;
              DedupeSpec(ToAttributes(Assignments(s, bound, start), parse), {}, r)
  {
    match EnterConstructor(s)
    case None => []
    case Some((start, bound)) =>
      SpanAttributesConfined(s, start, bound, parse, {});
      DedupeCorrect(ToAttributes(Assignments(s, bound, start), parse), {});
      SpanAttributes(s, start, bound, parse, {})
  }

  lemma SpanAttributesConfined(s: string, start: nat, bound: nat, parse: string -> Doc, reserved: set<string>)
    ensures var r := SpanAttributes(s, start, bound, parse, reserved);
            && AssignedWithin(s, start, bound, r)
            && DistinctNames(r)
            && (forall p | 0 <= p < |r| :: r[p].name !in reserved)
  {
    var r := SpanAttributes(s, start, bound, parse, reserved);
    var events := ToAttributes(Assignments(s, bound, start), parse);
    assert r == Dedupe(events, reserved);
    DedupeCorrect(events, reserved);
    forall p | 0 <= p < |r|
      ensures r[p].name !in reserved
      ensures AssignedInSpan(s, start, bound, r[p].name)
    {
      assert r[p].name in Names(r);
      AttributeWitness(s, parse, start, bound, r[p].name);
    }
  }

  /** A name among the assignments' attributes was assigned inside `[start, bound)`. */
  lemma AttributeWitness(s: string, parse: string -> Doc, start: nat, bound: nat, x: string)
    requires x in Names(ToAttributes(Assignments(s, bound, start), parse))
    ensures AssignedInSpan(s, start, bound, x)
  {
    var found := Assignments(s, bound, start);
    var events := ToAttributes(found, parse);
    var k :| 0 <= k < |events| && Names(events)[k] == x;
    AssignmentsRecognised(s, bound, start, k);
    assert found[k].name == x;
  }

  /**
   * `parseAttributes` as written: `attributesByName[name]` is a plain object, so a name
   * it inherits from `Object.prototype` (`constructor`, `toString`, ...) reads as
   * already recorded and is never emitted.
   */
  function ParseAttributesAsWritten(s: string, parse: string -> Doc): (r: seq<Attribute>)
    ensures forall p | 0 <= p < |r| :: r[p].name !in ObjectPrototypeKeys
    ensures DistinctNames(r)
    ensures r == Without(ParseAttributes(s, parse), ObjectPrototypeKeys)
  {
    match EnterConstructor(s)
    case None => []
    case Some((start, bound)) =>
      var events := ToAttributes(Assignments(s, bound, start), parse);
      SpanAttributesConfined(s, start, bound, parse, ObjectPrototypeKeys);
      DedupeWithout(events, ObjectPrototypeKeys);
      SpanAttributes(s, start, bound, parse, ObjectPrototypeKeys)
  }

  /** A lone `this.toString = ...` is recorded by a true dictionary and lost by the plain-object lookup. */
  lemma PrototypeNameLost(doc: Option<Doc>)
    ensures Dedupe([Attribute("toString", doc)], {}) == [Attribute("toString", doc)]
    ensures Dedupe([Attribute("toString", doc)], ObjectPrototypeKeys) == []
  {
    assert [Attribute("toString", doc)][..0] == [];
    assert "toString" in ObjectPrototypeKeys;
  }
}
