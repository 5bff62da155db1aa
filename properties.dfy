/** Properties of the indentation detector: what the line filter keeps, what
    the tab check tests, why the unit is the greatest divisor of the levels,
    and the documented examples. */
module IndentProperties {
  import opened Arith
  import opened TextLines
  import opened Indent

  // ---------------------------------------------------------------------------
  // Line scanning

  /** A line is skipped exactly when it holds only whitespace or its first
      non-whitespace character is `'#'`. */
  lemma {:induction false} BlankOrCommentByFirstContent(line: string)
    ensures IsBlankOrComment(line) <==>
      (forall k :: 0 <= k < |line| ==> IsWhitespace(line[k]))
      || (exists k :: 0 <= k < |line| && line[k] == '#' && forall j :: 0 <= j < k ==> IsWhitespace(line[j]))
  {
    var t := TrimStart(line);
    var n := |line| - |t|;
    TrimStartIsSuffix(line);
    assert !IsWhitespace('#');
    if t == [] {
      assert n == |line|;
    } else {
      assert line[n] == t[0] && !IsWhitespace(line[n]);
      if t[0] == '#' {
        assert forall j :: 0 <= j < n ==> IsWhitespace(line[j]);
      } else {
        // every '#' stands after the first non-whitespace character `line[n]`
        forall k | 0 <= k < |line| && line[k] == '#' ensures n < k {
        }
      }
    }
  }

  /** A tab before a comment does not make a tab-indented content line: the
      line `"\t# note"` has a tab indent, but it is a comment line, which is
      skipped before the tab test, so detection does not fail on it. */
  lemma {:induction false} TabBeforeCommentIsSkipped()
    ensures IsBlankOrComment("\t# note") && HasTabIndent("\t# note")
    ensures !AnyTabIndented(["\t# note"])
  {
    assert TrimStart("\t# note") == "# note";
  }

  /** A line of `n` spaces followed by a non-whitespace character: trimming
      leaves the text from that character on, and its level is `n`. */
  lemma {:induction false} SpaceIndentedLine(line: string, n: nat)
    requires n < |line| && !IsWhitespace(line[n])
    requires forall k :: 0 <= k < n ==> line[k] == ' '
    ensures TrimStart(line) == line[n..] && LeadingSpaces(line) == n
    decreases n
  {
    if n > 0 {
      var rest := line[1..];
      assert forall k :: 0 <= k < n - 1 ==> rest[k] == line[k + 1];
      SpaceIndentedLine(rest, n - 1);
      assert rest[n - 1..] == line[n..];
    }
  }

  /** Every content line contributes exactly one level, its leading-space count,
      in line order. */
  lemma {:induction false} LevelsOfContentLines(lines: seq<string>)
    requires forall j :: 0 <= j < |lines| ==> !IsBlankOrComment(lines[j])
    ensures |Levels(lines)| == |lines|
    ensures forall j :: 0 <= j < |lines| ==> Levels(lines)[j] == LeadingSpaces(lines[j])
    decreases |lines|
  {
    if lines != [] {
      LevelsOfContentLines(lines[1..]);
      assert Levels(lines) == [LeadingSpaces(lines[0])] + Levels(lines[1..]);
    }
  }

  /** A blank or comment line, wherever it stands, adds nothing to the level sequence. */
  lemma {:induction false} BlankOrCommentLineAddsNoLevel(a: seq<string>, line: string, b: seq<string>)
    requires IsBlankOrComment(line)
    ensures Levels(a + [line] + b) == Levels(a + b)
  {
    var front := a + [line];
    LevelsAppend(front, b);
    LevelsAppend(a, [line]);
    LevelsAppend(a, b);
    LevelsOfOneLine(line);
    assert Levels(front) == Levels(a);
  }

  /** A blank or comment line, wherever it stands, never trips the tab check. */
  lemma {:induction false} BlankOrCommentLinePassesTabCheck(a: seq<string>, line: string, b: seq<string>)
    requires IsBlankOrComment(line)
    ensures AnyTabIndented(a + [line] + b) <==> AnyTabIndented(a + b)
  {
    AnyTabIndentedAppend(a + [line], b);
    AnyTabIndentedAppend(a, [line]);
    AnyTabIndentedAppend(a, b);
    assert !IsTabIndentedLine([line][0]);
  }

  /** Splitting a text with one line `c` inserted after a line break: the
      line list gains `c`, less a `'\r'` that ends it (a `"\r\n"` ending). */
  lemma {:induction false} LinesWithLineInserted(p: string, c: string, q: string)
    requires p == [] || p[|p| - 1] == '\n'
    requires '\n' !in c
    ensures Lines(p + c + "\n" + q) == Lines(p) + [StripCr(c)] + Lines(q)
  {
    ConcatAssoc(p + c, "\n", q);
    ConcatAssoc(p, c, "\n" + q);
    ConcatAssoc(c, "\n", q);
    LinesAppend(p, c + "\n" + q);
    LinesOfOneLine(c, q);
  }

  /** On whole texts: inserting a blank or comment line `c` after a line break,
      ended by `"\n"` or `"\r\n"`, leaves every possible detection outcome unchanged. */
  lemma {:induction false} CommentLineIgnoredInText(p: string, c: string, q: string)
    requires p == [] || p[|p| - 1] == '\n'
    requires '\n' !in c && IsBlankOrComment(StripCr(c))
    ensures forall r :: IsDetection(p + c + "\n" + q, r) <==> IsDetection(p + q, r)
  {
    LinesWithLineInserted(p, c, q);
    LinesAppend(p, q);
    BlankOrCommentLineAddsNoLevel(Lines(p), StripCr(c), Lines(q));
    BlankOrCommentLinePassesTabCheck(Lines(p), StripCr(c), Lines(q));
  }

  /** A blank or comment last line `c`, with no terminator, is ignored. */
  lemma {:induction false} CommentLastLineIgnored(p: string, c: string)
    requires p == [] || p[|p| - 1] == '\n'
    requires c != [] && '\n' !in c && IsBlankOrComment(c)
    ensures forall r :: IsDetection(p + c, r) <==> IsDetection(p, r)
  {
    LinesAppend(p, c);
    LinesOfLastLine(c);
    // match the shape `a + [line] + b` of the two lemmas below, with `b` empty
    assert Lines(p) + [c] == Lines(p) + [c] + [];
    assert Lines(p) == Lines(p) + [];
    BlankOrCommentLineAddsNoLevel(Lines(p), c, []);
    BlankOrCommentLinePassesTabCheck(Lines(p), c, []);
  }

  /** A blank or comment line `c` at the start of a text is ignored. */
  lemma {:induction false} CommentLineIgnoredAtStart(c: string, q: string)
    requires '\n' !in c && IsBlankOrComment(StripCr(c))
    ensures forall r :: IsDetection(c + "\n" + q, r) <==> IsDetection(q, r)
  {
    CommentLineIgnoredInText([], c, q);
    assert [] + c + "\n" + q == c + "\n" + q;
    assert [] + q == q;
  }

  /** An empty first line is ignored. */
  lemma {:induction false} EmptyLineIgnoredAtStart(q: string)
    ensures forall r :: IsDetection("\n" + q, r) <==> IsDetection(q, r)
  {
    var blank: string := [];
    assert IsBlankOrComment(StripCr(blank));
    CommentLineIgnoredAtStart(blank, q);
    assert blank + "\n" + q == "\n" + q;
  }

  /** A blank or comment line `c` right after a line `a` is ignored. */
  lemma {:induction false} CommentLineIgnoredAfterLine(a: string, c: string, q: string)
    requires '\n' !in c && IsBlankOrComment(StripCr(c))
    ensures forall r :: IsDetection(a + "\n" + (c + "\n" + q), r) <==> IsDetection(a + "\n" + q, r)
  {
    var p := a + "\n";
    CommentLineIgnoredInText(p, c, q);
    assert p + c + "\n" + q == a + "\n" + (c + "\n" + q);
  }

  /** A tab-indented content line anywhere makes the whole detection fail,
      with no partial result. */
  lemma {:induction false} TabLineFailsDetection(p: string, c: string, q: string, r: Result<Option<Indentation>, DetectError>)
    requires p == [] || p[|p| - 1] == '\n'
    requires '\n' !in c && IsTabIndentedLine(StripCr(c))
    requires IsDetection(p + c + "\n" + q, r)
    ensures r == Err(TabIndentation)
  {
    LinesWithLineInserted(p, c, q);
    var lines := Lines(p) + [StripCr(c)] + Lines(q);
    assert lines[|Lines(p)|] == StripCr(c);
    assert AnyTabIndented(lines);
  }

  /** A tab-indented last line with no terminator fails detection too. */
  lemma {:induction false} TabLastLineFailsDetection(p: string, c: string, r: Result<Option<Indentation>, DetectError>)
    requires p == [] || p[|p| - 1] == '\n'
    requires c != [] && '\n' !in c && IsTabIndentedLine(c)
    requires IsDetection(p + c, r)
    ensures r == Err(TabIndentation)
  {
    LinesAppend(p, c);
    LinesOfLastLine(c);
    var lines := Lines(p) + [c];
    assert lines[|Lines(p)|] == c;
    assert AnyTabIndented(lines);
  }

  // ---------------------------------------------------------------------------
  // Unit inference

  /** The contract of `find_indentation_unit` determines its result. */
  lemma {:induction false} UnitResultIsUnique(levels: seq<nat>, r1: Option<nat>, r2: Option<nat>)
    requires IsUnitResult(levels, r1) && IsUnitResult(levels, r2)
    ensures r1 == r2
  {
    if r1.Some? && r2.Some? {
      GcdOfIsUnique(r1.value, r2.value, levels);
    }
  }

  /** The contract of `detect_from_text` determines its result: detection is
      a function of the text, so running it twice gives the same answer. */
  lemma {:induction false} DetectionIsDeterministic(text: string, r1: Result<Option<Indentation>, DetectError>,
                                 r2: Result<Option<Indentation>, DetectError>)
    requires IsDetection(text, r1) && IsDetection(text, r2)
    ensures r1 == r2
  {
    if r1.Ok? && r2.Ok? {
      UnitResultIsUnique(Levels(Lines(text)), UnitOf(r1.value), UnitOf(r2.value));
    }
  }

  /** The unit divides every level and every change between consecutive
      levels, the first line counting as a change from level 0. */
  lemma {:induction false} UnitDividesEveryStep(levels: seq<nat>, u: nat, i: nat)
    requires IsIndentUnit(u, levels) && i < |levels|
    ensures Divides(u, levels[i])
    ensures var prev := if i == 0 then 0 else levels[i - 1];
            Divides(u, if levels[i] >= prev then levels[i] - prev else prev - levels[i])
  {
    DividesBasics(u);
    DividesAbsDiff(u, levels[i], if i == 0 then 0 else levels[i - 1]);
  }

  /** The walk's changes cannot move the result: the distinct non-zero
      levels alone have the same common divisors, hence the same gcd, as
      all the levels, and so as the changes followed by those levels. */
  lemma {:induction false} StepsDoNotChangeUnit(levels: seq<nat>, unique: seq<nat>)
    requires forall x :: x in unique <==> x in levels && x > 0
    ensures forall g :: IsGcdOf(g, unique) <==> IsGcdOf(g, levels)
    ensures forall g :: IsGcdOf(g, Changes(0, levels) + unique) <==> IsGcdOf(g, unique)
  {
    forall d ensures CommonDivisor(d, unique) <==> CommonDivisor(d, levels) {
      DividesBasics(d);
      if CommonDivisor(d, levels) {
        forall k | 0 <= k < |unique| ensures Divides(d, unique[k]) {
          assert unique[k] in levels;
        }
      }
      if CommonDivisor(d, unique) {
        forall k | 0 <= k < |levels| ensures Divides(d, levels[k]) {
          if levels[k] > 0 {
            assert levels[k] in unique;
          }
        }
      }
    }
    forall d | CommonDivisor(d, levels) ensures CommonDivisor(d, Changes(0, levels)) {
      DividesBasics(d);
      ChangesShareDivisors(d, 0, levels);
    }
    DifferencesShareDivisors(levels, Changes(0, levels), unique);
  }

  /** No common divisor of the levels is larger than the unit. */
  lemma {:induction false} UnitIsGreatest(levels: seq<nat>, u: nat, d: nat)
    requires IsIndentUnit(u, levels) && CommonDivisor(d, levels)
    ensures d <= u
  {
    DividesBound(d, u);
  }

  /** The unit is at most the smallest non-zero level. */
  lemma {:induction false} UnitAtMostLevel(levels: seq<nat>, u: nat, i: nat)
    requires IsIndentUnit(u, levels) && i < |levels| && levels[i] > 0
    ensures u <= levels[i]
  {
    DividesBound(u, levels[i]);
  }

  /** If some level `k` divides all the levels (a document indented by a
      constant multiple of `k` at every transition), the unit is `k`. */
  lemma {:induction false} UnitOfConstantStep(levels: seq<nat>, k: nat, r: Option<nat>)
    requires k >= 1 && k in levels && CommonDivisor(k, levels)
    requires IsUnitResult(levels, r)
    ensures r == Some(k)
  {
    var u := r.value;
    assert Divides(k, u);
    var i :| 0 <= i < |levels| && levels[i] == k;
    assert Divides(u, k);
    DividesAntisymmetric(u, k);
  }

  // ---------------------------------------------------------------------------
  // The examples the source's tests use

  lemma {:induction false} ExampleDeeplyNested(r: Option<nat>)
    requires IsUnitResult([0, 4, 8, 12], r)
    ensures r == Some(4)
  {
    UnitOfConstantStep([0, 4, 8, 12], 4, r);
  }

  lemma {:induction false} ExampleThreeSpaces(r: Option<nat>)
    requires IsUnitResult([0, 3], r)
    ensures r == Some(3)
  {
    UnitOfConstantStep([0, 3], 3, r);
  }

  lemma {:induction false} ExampleNested(r: Option<nat>)
    requires IsUnitResult([0, 2, 4], r)
    ensures r == Some(2)
  {
    UnitOfConstantStep([0, 2, 4], 2, r);
  }

  lemma {:induction false} ExampleFourSpaces(r: Option<nat>)
    requires IsUnitResult([0, 4], r)
    ensures r == Some(4)
  {
    UnitOfConstantStep([0, 4], 4, r);
  }

  lemma {:induction false} ExampleEightSpaces(r: Option<nat>)
    requires IsUnitResult([0, 8], r)
    ensures r == Some(8)
  {
    UnitOfConstantStep([0, 8], 8, r);
  }

  /** Two sequence items at the same depth repeat a level without adding a step. */
  lemma {:induction false} ExampleSequence(r: Option<nat>)
    requires IsUnitResult([0, 2, 2], r)
    ensures r == Some(2)
  {
    UnitOfConstantStep([0, 2, 2], 2, r);
  }

  /** A mapping and a sequence side by side, both two spaces deep. */
  lemma {:induction false} ExampleMixedContent(r: Option<nat>)
    requires IsUnitResult([0, 2, 0, 2, 2], r)
    ensures r == Some(2)
  {
    UnitOfConstantStep([0, 2, 0, 2, 2], 2, r);
  }

  lemma {:induction false} ExampleOneStep(r: Option<nat>)
    requires IsUnitResult([0, 2], r)
    ensures r == Some(2)
  {
    UnitOfConstantStep([0, 2], 2, r);
  }

  lemma {:induction false} ExampleFlat(r: Option<nat>)
    requires IsUnitResult([0, 0], r)
    ensures r == None
  {
  }

  /** Mixed widths of 2 and 5 collapse to a unit of 1, which is returned as is. */
  lemma {:induction false} ExampleMixedWidths(r: Option<nat>)
    requires IsUnitResult([0, 2, 0, 5], r)
    ensures r == Some(1)
  {
    var levels := [0, 2, 0, 5];
    assert levels[1] == 2 && levels[3] == 5;
    var u := r.value;
    DividesBound(u, 2);
    DividesBound(u, 5);
  }

  /** `"root:"`: a content line at level 0. */
  lemma {:induction false} RootLine(line: string)
    requires line == "root:"
    ensures '\n' !in line && '\r' !in line
    ensures LevelOf(line) == [0] && !IsTabIndentedLine(line)
  {
    assert '\n' !in line && '\r' !in line;
    assert TrimStart(line) == line;
  }

  /** `"  child: value"`: a content line at level 2. */
  lemma {:induction false} ChildLine(line: string)
    requires line == "  child: value"
    ensures '\n' !in line && '\r' !in line
    ensures LevelOf(line) == [2] && !IsTabIndentedLine(line)
  {
    assert '\n' !in line && '\r' !in line;
    assert line[0] == ' ' && line[1] == ' ' && line[2] == 'c';
    SpaceIndentedLine(line, 2);
  }

  /** `"\tchild: value"`: a content line indented by a tab. */
  lemma {:induction false} TabChildLine(line: string)
    requires line == "\tchild: value"
    ensures '\n' !in line && '\r' !in line
    ensures IsTabIndentedLine(line)
  {
    assert '\n' !in line && '\r' !in line;
    var rest := line[1..];
    assert rest == "child: value";
    assert TrimStart(line) == TrimStart(rest) == rest;
  }

  lemma {:induction false} ExampleTwoSpaceText(text: string, r: Result<Option<Indentation>, DetectError>)
    requires text == "root:" + "\n" + "  child: value" + "\n" && IsDetection(text, r)
    ensures r == Ok(Some(Indentation(2)))
  {
    var root, child := "root:", "  child: value";
    RootLine(root);
    ChildLine(child);
    TwoLineText(root, child, r);
    assert LevelOf(root) + LevelOf(child) == [0, 2];
    ExampleOneStep(UnitOf(r.value));
  }

  lemma {:induction false} ExampleFlatText(text: string, r: Result<Option<Indentation>, DetectError>)
    requires text == "key: value" + "\n" && IsDetection(text, r)
    ensures r == Ok(None)
  {
    var line := "key: value";
    assert TrimStart(line) == line;
    OneLineText(line, r);
  }

  lemma {:induction false} ExampleTabText(text: string, r: Result<Option<Indentation>, DetectError>)
    requires text == "root:" + "\n" + "\tchild: value" + "\n" && IsDetection(text, r)
    ensures r == Err(TabIndentation)
  {
    var root, child := "root:", "\tchild: value";
    RootLine(root);
    TabChildLine(child);
    TwoLineText(root, child, r);
  }

  /** `"  # Comment at level 1"`: an indented comment line. */
  lemma {:induction false} IndentedCommentLine(line: string)
    requires line == "  # Comment at level 1"
    ensures '\n' !in line && '\r' !in line && IsBlankOrComment(line)
  {
    assert '\n' !in line && '\r' !in line;
    assert line[0] == ' ' && line[1] == ' ' && line[2] == '#';
    SpaceIndentedLine(line, 2);
  }

  /** `"# Comment at root"`: a comment line at column 0. */
  lemma {:induction false} RootCommentLine(line: string)
    requires line == "# Comment at root"
    ensures '\n' !in line && '\r' !in line && IsBlankOrComment(line)
  {
    assert '\n' !in line && '\r' !in line;
    assert TrimStart(line) == line;
  }

  /** A leading empty line and comment lines at two depths do not change the
      two-space result. (The text is written right-nested, line by line.) */
  lemma {:induction false} ExampleWithComments(text: string, r: Result<Option<Indentation>, DetectError>)
    requires text == "\n" + ("# Comment at root" + "\n" + ("root:" + "\n"
      + ("  # Comment at level 1" + "\n" + ("  child: value" + "\n"))))
    requires IsDetection(text, r)
    ensures r == Ok(Some(Indentation(2)))
  {
    var c1, root, c2, child := "# Comment at root", "root:", "  # Comment at level 1", "  child: value";
    RootCommentLine(c1);
    IndentedCommentLine(c2);
    var tail := child + "\n";
    var t2 := c2 + "\n" + tail;
    var t1 := root + "\n" + t2;
    var t0 := c1 + "\n" + t1;
    EmptyLineIgnoredAtStart(t0);
    assert IsDetection(t0, r);
    CommentLineIgnoredAtStart(c1, t1);
    assert IsDetection(t1, r);
    CommentLineIgnoredAfterLine(root, c2, tail);
    assert IsDetection(root + "\n" + tail, r);
    ConcatAssoc(root + "\n", child, "\n");
    ExampleTwoSpaceText(root + "\n" + child + "\n", r);
  }

  /** Detection on a one-line text `a + "\n"`. */
  lemma {:induction false} OneLineText(a: string, r: Result<Option<Indentation>, DetectError>)
    requires '\n' !in a && '\r' !in a
    requires IsDetection(a + "\n", r)
    ensures r.Err? <==> IsTabIndentedLine(a)
    ensures r.Ok? ==> IsUnitResult(LevelOf(a), UnitOf(r.value))
  {
    LinesOfOneLine(a, "");
    var text := a + "\n";
    assert text == a + "\n" + "";
    var lines := Lines(text);
    assert lines == [a];
    LevelsOfOneLine(a);
    assert AnyTabIndented(lines) <==> IsTabIndentedLine(a) by {
      assert lines[0] == a;
    }
  }

  /** Detection on a two-line text `a + "\n" + b + "\n"`. */
  lemma {:induction false} TwoLineText(a: string, b: string, r: Result<Option<Indentation>, DetectError>)
    requires '\n' !in a && '\r' !in a && '\n' !in b && '\r' !in b
    requires IsDetection(a + "\n" + b + "\n", r)
    ensures r.Err? <==> IsTabIndentedLine(a) || IsTabIndentedLine(b)
    ensures r.Ok? ==> IsUnitResult(LevelOf(a) + LevelOf(b), UnitOf(r.value))
  {
    var text := a + "\n" + b + "\n";
    TwoLines(a, b);
    var lines := Lines(text);
    assert lines == [a, b];
    LevelsAppend([a], [b]);
    LevelsOfOneLine(a);
    LevelsOfOneLine(b);
    assert Levels(lines) == LevelOf(a) + LevelOf(b) by {
      assert lines == [a] + [b];
    }
    AnyTabIndentedAppend([a], [b]);
    assert AnyTabIndented([a]) <==> IsTabIndentedLine(a) by { assert [a][0] == a; }
    assert AnyTabIndented([b]) <==> IsTabIndentedLine(b) by { assert [b][0] == b; }
    assert lines == [a] + [b];
  }

  /** The lines of a two-line text `a + "\n" + b + "\n"`. */
  lemma {:induction false} TwoLines(a: string, b: string)
    requires '\n' !in a && '\r' !in a && '\n' !in b && '\r' !in b
    ensures Lines(a + "\n" + b + "\n") == [a, b]
  {
    var tail := b + "\n";
    LinesOfOneLine(b, "");
    assert tail == b + "\n" + "";
    assert Lines(tail) == [b];
    LinesOfOneLine(a, tail);
    assert a + "\n" + b + "\n" == a + "\n" + tail;
  }
}
