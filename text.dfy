/** The parts of Rust's string library that the detector relies on, over
    decoded text (`string` is a sequence of Unicode scalar values):
    `char::is_whitespace`, `str::trim_start` and `str::lines`. */
module TextLines {

  /** Unicode `White_Space`, the set `char::is_whitespace` and `str::trim_start` use:
      U+0009..U+000D, U+0020, U+0085, U+00A0, U+1680, U+2000..U+200A,
      U+2028, U+2029, U+202F, U+205F and U+3000. */
  predicate IsWhitespace(c: char) {
    ('\t' <= c <= '\r') || c == ' ' || c == '\U{0085}' || c == '\U{00A0}' || c == '\U{1680}'
    || ('\U{2000}' <= c <= '\U{200A}') || c == '\U{2028}' || c == '\U{2029}'
    || c == '\U{202F}' || c == '\U{205F}' || c == '\U{3000}'
  }

  /** `str::trim_start`: the text after its leading whitespace. */
  function TrimStart(s: string): (r: string)
    ensures |r| <= |s|
    ensures r != [] ==> !IsWhitespace(r[0])
  {
    if s != [] && IsWhitespace(s[0]) then TrimStart(s[1..]) else s
  }

  /** Everything `TrimStart` drops is whitespace, so what it leaves is the
      longest suffix of `s` that does not start with whitespace. */
  lemma {:induction false} TrimStartIsSuffix(s: string)
    ensures TrimStart(s) == s[|s| - |TrimStart(s)|..]
    ensures forall k :: 0 <= k < |s| - |TrimStart(s)| ==> IsWhitespace(s[k])
  {
    if s != [] && IsWhitespace(s[0]) {
      TrimStartIsSuffix(s[1..]);
      assert s[1..][|s| - 1 - |TrimStart(s)|..] == s[|s| - |TrimStart(s)|..];
      forall k | 0 < k < |s| - |TrimStart(s)| ensures IsWhitespace(s[k]) {
        assert s[k] == s[1..][k - 1];
      }
    }
  }

  /** The index of the first `'\n'` of `s`, or `|s|` when there is none. */
  function FirstNewline(s: string): (i: nat)
    ensures i <= |s|
  {
    if s == [] || s[0] == '\n' then 0 else 1 + FirstNewline(s[1..])
  }

  /** `FirstNewline` is the position of the first `'\n'`: none comes before it. */
  lemma {:induction false} FirstNewlineIsFirst(s: string)
    ensures FirstNewline(s) < |s| ==> s[FirstNewline(s)] == '\n'
    ensures forall k :: 0 <= k < FirstNewline(s) ==> s[k] != '\n'
  {
    if s != [] && s[0] != '\n' {
      FirstNewlineIsFirst(s[1..]);
      forall k | 0 < k < FirstNewline(s) ensures s[k] != '\n' {
        assert s[k] == s[1..][k - 1];
      }
    }
  }

  /** One line ending removed: a `'\r'` directly before the `'\n'` goes with it. */
  function StripCr(line: string): string {
    if line != [] && line[|line| - 1] == '\r' then line[..|line| - 1] else line
  }

  /** `str::lines`: the text split after every `'\n'`, each piece losing its
      `"\n"` or `"\r\n"`. The last line needs no terminator, and a final
      terminator does not start an empty line. A `'\r'` that ends the text
      without a `'\n'` after it stays in the last line. */
  function Lines(s: string): (r: seq<string>)
    ensures s == [] <==> r == []
    decreases |s|
  {
    if s == [] then []
    else
      var i := FirstNewline(s);
      if i == |s| then [s]
      else [StripCr(s[..i])] + Lines(s[i + 1..])
  }

  /** No line holds a `'\n'`. */
  lemma {:induction false} LinesHaveNoNewline(s: string)
    ensures forall j :: 0 <= j < |Lines(s)| ==> '\n' !in Lines(s)[j]
    decreases |s|
  {
    if s != [] {
      var i := FirstNewline(s);
      FirstNewlineIsFirst(s);
      if i < |s| {
        LinesHaveNoNewline(s[i + 1..]);
        var head := s[..i];
        assert '\n' !in head by {
          forall k | 0 <= k < |head| ensures head[k] != '\n' { assert head[k] == s[k]; }
        }
        assert '\n' !in StripCr(head);
      } else {
        assert '\n' !in s by {
          forall k | 0 <= k < |s| ensures s[k] != '\n' { }
        }
      }
    }
  }

  /** A text that ends with a line terminator splits independently of what follows it. */
  lemma {:induction false} LinesAppend(p: string, q: string)
    requires p == [] || p[|p| - 1] == '\n'
    ensures Lines(p + q) == Lines(p) + Lines(q)
    decreases |p|
  {
    if p != [] {
      FirstNewlineInside(p);
      var i := FirstNewline(p);
      var rest := p[i + 1..];
      SuffixKeepsLastChar(p, i + 1);
      LinesAppend(rest, q);
      LinesOfAppendHead(p, q);
      LinesOfHead(p);
      ConcatAssoc([StripCr(p[..i])], Lines(rest), Lines(q));
    } else {
      assert p + q == q;
    }
  }

  /** A non-empty suffix ends with the character that ends the whole text. */
  lemma {:induction false} SuffixKeepsLastChar(p: string, k: nat)
    requires k <= |p|
    ensures p[k..] != [] ==> p[k..][|p[k..]| - 1] == p[|p| - 1]
  {
  }

  /** Concatenation is associative; stated as a lemma so that proofs about
      `Lines` can use it without unfolding the sequences involved. */
  lemma {:induction false} ConcatAssoc<T>(a: seq<T>, b: seq<T>, c: seq<T>)
    ensures a + (b + c) == a + b + c
  {
  }

  /** A text ending in `'\n'` has its first `'\n'` inside it. */
  lemma {:induction false} FirstNewlineInside(p: string)
    requires p != [] && p[|p| - 1] == '\n'
    ensures FirstNewline(p) < |p|
  {
    FirstNewlineIsFirst(p);
  }

  /** A text with a `'\n'` splits into its first line and the lines after it. */
  lemma {:induction false} LinesOfHead(p: string)
    requires FirstNewline(p) < |p|
    ensures var i := FirstNewline(p);
      Lines(p) == [StripCr(p[..i])] + Lines(p[i + 1..])
  {
  }

  /** The first line of `p` is split off `p + q` as it is off `p`. */
  lemma {:induction false} LinesOfAppendHead(p: string, q: string)
    requires FirstNewline(p) < |p|
    ensures var i := FirstNewline(p);
      Lines(p + q) == [StripCr(p[..i])] + Lines(p[i + 1..] + q)
  {
    var i := FirstNewline(p);
    FirstNewlineOfPrefix(p, q);
    assert (p + q)[..i] == p[..i];
    assert (p + q)[i + 1..] == p[i + 1..] + q;
  }

  /** A `'\n'` inside `p` is still the first one of `p + q`. */
  lemma {:induction false} FirstNewlineOfPrefix(p: string, q: string)
    requires FirstNewline(p) < |p|
    ensures FirstNewline(p + q) == FirstNewline(p)
  {
    var i := FirstNewline(p);
    FirstNewlineIsFirst(p);
    FirstNewlineIsFirst(p + q);
    assert (p + q)[i] == '\n';
  }

  /** One line `c` followed by `"\n"` is exactly one line; a `'\r'` ending
      `c` is the first half of a `"\r\n"` terminator and is dropped. */
  lemma {:induction false} LinesOfOneLine(c: string, q: string)
    requires '\n' !in c
    ensures Lines(c + "\n" + q) == [StripCr(c)] + Lines(q)
  {
    var s := c + "\n" + q;
    assert s[|c|] == '\n';
    assert forall k :: 0 <= k < |c| ==> s[k] == c[k];
    FirstNewlineIsFirst(s);
    assert FirstNewline(s) == |c|;
    assert s[..|c|] == c;
    assert s[|c| + 1..] == q;
  }

  /** A last line without a terminator is one line, kept as it is (a final
      `'\r'` included). */
  lemma {:induction false} LinesOfLastLine(c: string)
    requires c != [] && '\n' !in c
    ensures Lines(c) == [c]
  {
    FirstNewlineIsFirst(c);
  }
}
