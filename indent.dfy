/** Indentation detection for YAML documents (src/indent.rs).

    After the document has passed a YAML validity check, the detector looks
    only at its text: it records the leading-space count of every content
    line, rejects tab indentation, and reduces the levels to one indentation
    unit by a greatest-common-divisor fold. */
module Indent {
  import opened Arith
  import opened TextLines

  datatype Option<+T> = None | Some(value: T)

  datatype Result<+T, +E> = Ok(value: T) | Err(error: E)

  /** Why detection failed. */
  datatype DetectError =
    | InvalidYaml     // the YAML event parser reported a syntax error
    | InvalidUtf8     // the bytes are not UTF-8
    | TabIndentation  // a content line is indented with a tab

  /** What the external YAML event parser reports after being drained to the
      end of the stream: every event read, or a syntax error. */
  datatype ParseOutcome = Parsed | ParseFailed

  /** A count that is at least 1. */
  type Positive = n: nat | n >= 1 witness 1

  /** The detected number of spaces per indentation level. A unit of 0 means
      "no signal" and is never wrapped, so the count is positive. */
  datatype Indentation = Indentation(indent: Positive) {
    /** `spaces()`: the number of spaces per level, never 0. */
    function Spaces(): (r: nat)
      ensures r >= 1
    {
      indent
    }
  }

  // ---------------------------------------------------------------------------
  // Line classification

  /** A line that is empty or a comment once leading whitespace is trimmed;
      such lines are skipped before any other check. */
  predicate IsBlankOrComment(line: string) {
    var trimmed := TrimStart(line);
    trimmed == [] || trimmed[0] == '#'
  }

  /** The number of leading `' '` characters (tabs and other whitespace do not count). */
  function LeadingSpaces(line: string): (n: nat)
    ensures n <= |line|
    ensures n < |line| ==> line[n] != ' '
  {
    if line != [] && line[0] == ' ' then 1 + LeadingSpaces(line[1..]) else 0
  }

  /** Every character `LeadingSpaces` counts is a `' '`; with its contract,
      the count is the maximal run of spaces at the start of the line. */
  lemma {:induction false} LeadingSpacesIsSpaceRun(line: string)
    ensures forall k :: 0 <= k < LeadingSpaces(line) ==> line[k] == ' '
  {
    if line != [] && line[0] == ' ' {
      LeadingSpacesIsSpaceRun(line[1..]);
      forall k | 0 < k < LeadingSpaces(line) ensures line[k] == ' ' {
        assert line[k] == line[1..][k - 1];
      }
    }
  }

  /** The tab test as the source writes it: the line starts with a tab, or it
      has leading spaces and the character right after them is a tab. (The
      source reads the byte at index `leading_spaces`; since all the bytes
      before it are ASCII spaces, that byte is a tab exactly when the
      character at that index is.) The two arms together test exactly the
      character right after the leading spaces. */
  predicate HasTabIndent(line: string): (b: bool)
    ensures b <==> LeadingSpaces(line) < |line| && line[LeadingSpaces(line)] == '\t'
  {
    var leading := LeadingSpaces(line);
    (line != [] && line[0] == '\t') || (leading > 0 && leading < |line| && line[leading] == '\t')
  }

  /** A content line whose indentation the detector rejects. */
  predicate IsTabIndentedLine(line: string) {
    !IsBlankOrComment(line) && HasTabIndent(line)
  }

  /** Some line of `lines` is a tab-indented content line. */
  predicate AnyTabIndented(lines: seq<string>) {
    exists j :: 0 <= j < |lines| && IsTabIndentedLine(lines[j])
  }

  /** What one line adds to the level sequence: nothing for a blank or
      comment line, its leading-space count otherwise. */
  function LevelOf(line: string): seq<nat> {
    if IsBlankOrComment(line) then [] else [LeadingSpaces(line)]
  }

  /** The indentation levels of the content lines, in document order. */
  function Levels(lines: seq<string>): (r: seq<nat>)
    ensures |r| <= |lines|
  {
    if lines == [] then [] else LevelOf(lines[0]) + Levels(lines[1..])
  }

  /** The level sequence of a concatenation is the concatenation of the level sequences. */
  lemma {:induction false} LevelsAppend(a: seq<string>, b: seq<string>)
    ensures Levels(a + b) == Levels(a) + Levels(b)
    decreases |a|
  {
    if a == [] {
      assert a + b == b;
    } else {
      assert (a + b)[1..] == a[1..] + b;
      LevelsAppend(a[1..], b);
    }
  }

  /** A single line contributes exactly what `LevelOf` gives. */
  lemma {:induction false} LevelsOfOneLine(line: string)
    ensures Levels([line]) == LevelOf(line)
  {
    assert [line][1..] == [];
  }

  lemma {:induction false} AnyTabIndentedAppend(a: seq<string>, b: seq<string>)
    ensures AnyTabIndented(a + b) <==> AnyTabIndented(a) || AnyTabIndented(b)
  {
    var ab := a + b;
    if AnyTabIndented(a) {
      var j :| 0 <= j < |a| && IsTabIndentedLine(a[j]);
      assert ab[j] == a[j];
    }
    if AnyTabIndented(b) {
      var j :| 0 <= j < |b| && IsTabIndentedLine(b[j]);
      assert ab[|a| + j] == b[j];
    }
    if AnyTabIndented(ab) {
      var j :| 0 <= j < |ab| && IsTabIndentedLine(ab[j]);
      if j < |a| {
        assert ab[j] == a[j];
      } else {
        assert ab[j] == b[j - |a|];
      }
    }
  }

  // ---------------------------------------------------------------------------
  // Specification of the result

  predicate AllZero(levels: seq<nat>) {
    forall k :: 0 <= k < |levels| ==> levels[k] == 0
  }

  /** `u` is the indentation unit of `levels`: a positive common divisor of
      every level that every other common divisor divides. */
  ghost predicate IsIndentUnit(u: nat, levels: seq<nat>) {
    u >= 1 && IsGcdOf(u, levels)
  }

  /** The outcome `find_indentation_unit` promises: no unit exactly when every
      level is 0 (an empty sequence included), otherwise the unit. */
  ghost predicate IsUnitResult(levels: seq<nat>, r: Option<nat>) {
    (r.None? <==> AllZero(levels)) && (r.Some? ==> IsIndentUnit(r.value, levels))
  }

  /** The unit an `Indentation` result carries, if any. */
  function UnitOf(ind: Option<Indentation>): Option<nat> {
    if ind.Some? then Some(ind.value.indent) else None
  }

  /** The outcome of `detect_from_text` on decoded text: a tab-indentation
      error exactly when some content line is tab-indented, otherwise the
      unit of the content lines' levels, wrapped in `Indentation`. */
  ghost predicate IsDetection(text: string, r: Result<Option<Indentation>, DetectError>) {
    var lines := Lines(text);
    (r.Err? <==> AnyTabIndented(lines))
    && (r.Err? ==> r.error == TabIndentation)
    && (r.Ok? ==> IsUnitResult(Levels(lines), UnitOf(r.value)))
  }

  // ---------------------------------------------------------------------------
  // Operations

  /** `gcd`: Euclid's algorithm by repeated remainder. */
  method Gcd(a: nat, b: nat) returns (g: nat)
    ensures Divides(g, a) && Divides(g, b)
    ensures forall d :: Divides(d, a) && Divides(d, b) ==> Divides(d, g)
    ensures b == 0 ==> g == a
    ensures g == 0 <==> a == 0 && b == 0
  {
    var x, y := a, b;
    while y != 0
      invariant forall d :: Divides(d, x) && Divides(d, y) <==> Divides(d, a) && Divides(d, b)
      invariant b == 0 ==> x == a && y == 0
      invariant (x == 0 && y == 0) <==> (a == 0 && b == 0)
      decreases y
    {
      forall d ensures Divides(d, x) && Divides(d, y) <==> Divides(d, y) && Divides(d, x % y) {
        DividesModStep(d, x, y);
      }
      var t := y;
      y := x % y;
      x := t;
    }
    DividesBasics(x);
    g := x;
  }

  predicate StrictlyIncreasing(s: seq<nat>) {
    forall i, j :: 0 <= i < j < |s| ==> s[i] < s[j]
  }

  /** Inserts `x` into a strictly increasing sequence unless it is already there. */
  function InsertSorted(s: seq<nat>, x: nat): (r: seq<nat>)
    requires StrictlyIncreasing(s)
    ensures StrictlyIncreasing(r)
    ensures forall y :: y in r <==> y in s || y == x
  {
    if s == [] then [x]
    else if x < s[0] then [x] + s
    else if x == s[0] then s
    else
      var rest := InsertSorted(s[1..], x);
      assert forall y :: y in s[1..] ==> s[0] < y by {
        forall y | y in s[1..] ensures s[0] < y {
          var k :| 0 <= k < |s[1..]| && s[1..][k] == y;
          assert s[k + 1] == y;
        }
      }
      ConsIncreasing(s[0], rest);
      [s[0]] + rest
  }

  /** A head below every element of a strictly increasing tail keeps it strictly increasing. */
  lemma {:induction false} ConsIncreasing(h: nat, t: seq<nat>)
    requires StrictlyIncreasing(t) && forall y :: y in t ==> h < y
    ensures StrictlyIncreasing([h] + t)
  {
    var r := [h] + t;
    forall i, j | 0 <= i < j < |r| ensures r[i] < r[j] {
      assert r[j] == t[j - 1] && t[j - 1] in t;
      if i > 0 {
        assert r[i] == t[i - 1];
      }
    }
  }

  /** `sort_unstable` followed by `dedup`: the distinct values of `xs` in increasing order. */
  method SortUnstableDedup(xs: seq<nat>) returns (ys: seq<nat>)
    ensures StrictlyIncreasing(ys)
    ensures forall x :: x in ys <==> x in xs
  {
    ys := [];
    for i := 0 to |xs|
      invariant StrictlyIncreasing(ys)
      invariant forall x :: x in ys <==> x in xs[..i]
    {
      assert xs[..i + 1] == xs[..i] + [xs[i]];
      ys := InsertSorted(ys, xs[i]);
    }
    assert xs[..|xs|] == xs;
  }

  /** The non-zero levels, in order (the `filter(|&l| l > 0)` that feeds
      the sort). */
  method NonZeroLevels(levels: seq<nat>) returns (positive: seq<nat>)
    ensures forall x :: x in positive <==> x in levels && x > 0
  {
    positive := [];
    for i := 0 to |levels|
      invariant forall x :: x in positive <==> x in levels[..i] && x > 0
    {
      assert levels[..i + 1] == levels[..i] + [levels[i]];
      if levels[i] > 0 {
        positive := positive + [levels[i]];
      }
    }
    assert levels[..|levels|] == levels;
  }

  /** The distance between two levels (`usize::abs_diff`). */
  function AbsDiff(a: nat, b: nat): nat {
    if a >= b then a - b else b - a
  }

  /** The changes the walk over `levels` records when the previous level is
      `prev`: for each level that differs from the one before it, the
      distance between them, in order. */
  function Changes(prev: nat, levels: seq<nat>): (r: seq<nat>)
    ensures |r| <= |levels|
    ensures forall k :: 0 <= k < |r| ==> r[k] > 0
    decreases |levels|
  {
    if levels == [] then []
    else
      var diff := AbsDiff(levels[0], prev);
      (if levels[0] != prev && diff > 0 then [diff] else []) + Changes(levels[0], levels[1..])
  }

  /** A divisor of the starting level and of every level divides every
      recorded change. */
  lemma {:induction false} ChangesShareDivisors(d: nat, prev: nat, levels: seq<nat>)
    requires Divides(d, prev) && CommonDivisor(d, levels)
    ensures CommonDivisor(d, Changes(prev, levels))
    decreases |levels|
  {
    if levels != [] {
      assert CommonDivisor(d, levels[1..]) by {
        forall k | 0 <= k < |levels[1..]| ensures Divides(d, levels[1..][k]) {
          assert levels[1..][k] == levels[k + 1];
        }
      }
      assert Divides(d, levels[0]);
      ChangesShareDivisors(d, levels[0], levels[1..]);
      DividesAbsDiff(d, levels[0], prev);
      var head: seq<nat> := if levels[0] != prev && AbsDiff(levels[0], prev) > 0 then [AbsDiff(levels[0], prev)] else [];
      var rest := Changes(levels[0], levels[1..]);
      forall k | 0 <= k < |head + rest| ensures Divides(d, (head + rest)[k]) {
        if k >= |head| {
          assert (head + rest)[k] == rest[k - |head|];
        }
      }
    }
  }

  /** One step of the walk: at index `i`, the change from `prev` (if any)
      comes before the changes of the levels after `i`. */
  lemma {:induction false} ChangesStep(prev: nat, levels: seq<nat>, i: nat)
    requires i < |levels|
    ensures Changes(prev, levels[i..]) ==
      (if levels[i] != prev && AbsDiff(levels[i], prev) > 0 then [AbsDiff(levels[i], prev)] else [])
      + Changes(levels[i], levels[i + 1..])
  {
    assert levels[i..][0] == levels[i];
    assert levels[i..][1..] == levels[i + 1..];
  }

  /** The walk over the levels from an implicit level 0: every non-zero
      change between consecutive levels, in order. */
  method LevelSteps(levels: seq<nat>) returns (steps: seq<nat>)
    ensures steps == Changes(0, levels)
  {
    steps := [];
    var prev: nat := 0;
    for i := 0 to |levels|
      invariant prev == if i == 0 then 0 else levels[i - 1]
      invariant steps + Changes(prev, levels[i..]) == Changes(0, levels)
    {
      var level := levels[i];
      ChangesStep(prev, levels, i);
      ghost var rest := Changes(level, levels[i + 1..]);
      if level != prev {
        var diff := AbsDiff(level, prev);
        if diff > 0 {
          ConcatAssoc(steps, [diff], rest);
          steps := steps + [diff];
        } else {
          assert Changes(prev, levels[i..]) == rest;
        }
      } else {
        assert Changes(prev, levels[i..]) == rest;
      }
      prev := level;
    }
    assert levels[|levels|..] == [];
  }

  /** The gcd fold over a non-empty list of positive differences, stopping
      early once the running value is 1. */
  method GcdFold(differences: seq<nat>) returns (result: nat)
    requires |differences| > 0
    requires forall k :: 0 <= k < |differences| ==> differences[k] > 0
    ensures result >= 1 && IsGcdOf(result, differences)
  {
    result := differences[0];
    assert IsGcdOf(result, differences[..1]) by {
      DividesBasics(result);
    }
    var i := 1;
    while i < |differences|
      invariant 1 <= i <= |differences|
      invariant result >= 1
      invariant IsGcdOf(result, differences[..i])
    {
      var g := Gcd(result, differences[i]);
      assert differences[..i + 1] == differences[..i] + [differences[i]];
      GcdOfSnoc(differences[..i], differences[i], result, g);
      result := g;
      if result == 1 {
        GcdOneExtends(differences, i + 1);
        return;
      }
      i := i + 1;
    }
    assert differences[..|differences|] == differences;
  }

  /** `find_indentation_unit`: the gcd of the "differences" (every change
      between consecutive levels, starting from level 0, followed by every
      distinct non-zero level), or `None` when no level is indented. */
  method FindIndentationUnit(levels: seq<nat>) returns (r: Option<nat>)
    ensures IsUnitResult(levels, r)
  {
    if |levels| == 0 {
      return None;
    }

    var positive := NonZeroLevels(levels);
    var unique := SortUnstableDedup(positive);

    if |unique| == 0 {
      forall k | 0 <= k < |levels| ensures levels[k] == 0 {
        assert levels[k] !in unique;
      }
      return None;
    }

    var differences := LevelSteps(levels);
    forall d | CommonDivisor(d, levels) ensures CommonDivisor(d, differences) {
      DividesBasics(d);
      ChangesShareDivisors(d, 0, levels);
    }
    ghost var steps := differences;
    for j := 0 to |unique|
      invariant differences == steps + unique[..j]
      invariant forall k :: 0 <= k < |differences| ==> differences[k] > 0
    {
      assert unique[..j + 1] == unique[..j] + [unique[j]];
      assert unique[j] in positive;
      differences := differences + [unique[j]];
    }
    assert unique[..|unique|] == unique;
    DifferencesShareDivisors(levels, steps, unique);

    if |differences| == 0 {
      assert false;
      return None;
    }

    var result := GcdFold(differences);
    assert IsGcdOf(result, levels);

    if result == 0 {
      assert false;
      return None;
    }

    assert unique[0] in levels;
    r := Some(result);
  }

  /** The differences have the same common divisors as the levels: a divisor
      of every level divides every step between levels, and every non-zero
      level is itself among the differences. */
  lemma {:induction false} DifferencesShareDivisors(levels: seq<nat>, steps: seq<nat>, unique: seq<nat>)
    requires forall d :: CommonDivisor(d, levels) ==> CommonDivisor(d, steps)
    requires forall x :: x in unique <==> x in levels && x > 0
    ensures forall d :: CommonDivisor(d, steps + unique) <==> CommonDivisor(d, levels)
    ensures forall g :: IsGcdOf(g, steps + unique) ==> IsGcdOf(g, levels)
  {
    var diffs := steps + unique;
    forall d ensures CommonDivisor(d, diffs) <==> CommonDivisor(d, levels) {
      if CommonDivisor(d, levels) {
        forall k | 0 <= k < |diffs| ensures Divides(d, diffs[k]) {
          if k >= |steps| {
            assert diffs[k] == unique[k - |steps|];
            assert diffs[k] in levels;
          }
        }
      }
      if CommonDivisor(d, diffs) {
        forall k | 0 <= k < |levels| ensures Divides(d, levels[k]) {
          DividesBasics(d);
          if levels[k] > 0 {
            assert levels[k] in unique;
            var j :| 0 <= j < |unique| && unique[j] == levels[k];
            assert diffs[|steps| + j] == levels[k];
          }
        }
      }
    }
  }

  /** Scanning one more line extends the levels by that line's level, and
      the prefix holds a tab-indented line exactly when the shorter one or
      the new line does. */
  lemma {:induction false} ScanStep(lines: seq<string>, i: nat)
    requires i < |lines|
    ensures Levels(lines[..i + 1]) == Levels(lines[..i]) + LevelOf(lines[i])
    ensures AnyTabIndented(lines[..i + 1]) <==> AnyTabIndented(lines[..i]) || IsTabIndentedLine(lines[i])
  {
    var line := lines[i];
    assert lines[..i + 1] == lines[..i] + [line];
    LevelsAppend(lines[..i], [line]);
    AnyTabIndentedAppend(lines[..i], [line]);
    LevelsOfOneLine(line);
    assert [line][0] == line;
  }

  /** `detect_from_text`, after UTF-8 decoding: scan the lines, skip blank
      and comment lines, fail on the first tab-indented content line, collect
      the leading-space counts and reduce them to the unit. */
  method DetectLevelsAndUnit(text: string) returns (r: Result<Option<Indentation>, DetectError>)
    ensures IsDetection(text, r)
  {
    var lines := Lines(text);
    var levels: seq<nat> := [];
    for i := 0 to |lines|
      invariant levels == Levels(lines[..i])
      invariant !AnyTabIndented(lines[..i])
    {
      var line := lines[i];
      ScanStep(lines, i);
      if IsBlankOrComment(line) {
        continue;
      }
      var leadingSpaces := LeadingSpaces(line);
      if HasTabIndent(line) {
        assert IsTabIndentedLine(lines[i]);
        return Err(TabIndentation);
      }
      levels := levels + [leadingSpaces];
    }
    assert lines[..|lines|] == lines;
    var unit := FindIndentationUnit(levels);
    r := Ok(if unit.Some? then Some(Indentation(unit.value)) else None);
  }

  /** `detect_from_text`: the undecodable case fails with `InvalidUtf8`;
      `decoded` is the outcome of UTF-8 decoding of the input bytes. */
  method DetectFromText(decoded: Option<string>) returns (r: Result<Option<Indentation>, DetectError>)
    ensures decoded.None? ==> r == Err(InvalidUtf8)
    ensures decoded.Some? ==> IsDetection(decoded.value, r)
  {
    if decoded.None? {
      return Err(InvalidUtf8);
    }
    r := DetectLevelsAndUnit(decoded.value);
  }

  /** `detect_indentation_slice`: the validity gate first, then text analysis.
      `gate` is what the YAML event parser reported for the same bytes. */
  method DetectIndentationSlice(gate: ParseOutcome, decoded: Option<string>)
    returns (r: Result<Option<Indentation>, DetectError>)
    ensures gate == ParseFailed ==> r == Err(InvalidYaml)
    ensures gate == Parsed && decoded.None? ==> r == Err(InvalidUtf8)
    ensures gate == Parsed && decoded.Some? ==> IsDetection(decoded.value, r)
  {
    if gate == ParseFailed {
      return Err(InvalidYaml);
    }
    r := DetectFromText(decoded);
  }

  /** `detect_indentation`: text is already valid UTF-8. */
  method DetectIndentation(gate: ParseOutcome, text: string)
    returns (r: Result<Option<Indentation>, DetectError>)
    ensures gate == ParseFailed ==> r == Err(InvalidYaml)
    ensures gate == Parsed ==> IsDetection(text, r)
  {
    r := DetectIndentationSlice(gate, Some(text));
  }
}
