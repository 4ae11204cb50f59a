/**
 The two string operations of Python that the corpus loader and the query
 shell rely on: `str.strip()` with no argument and `str.splitlines()`.
 Both are stated over Dafny strings (sequences of Unicode scalar values).
 */
module Text {

  /** `str.isspace()` for a single character: the characters Python strips by default. */
  predicate IsSpace(c: char) {
    || ('\t' <= c <= '\r')                 // U+0009 .. U+000D
    || ('\U{1C}' <= c <= ' ')              // U+001C .. U+001F, U+0020
    || c == '\U{85}' || c == '\U{A0}' || c == '\U{1680}'
    || ('\U{2000}' <= c <= '\U{200A}')
    || c == '\U{2028}' || c == '\U{2029}' || c == '\U{202F}' || c == '\U{205F}'
    || c == '\U{3000}'
  }

  /** The line boundaries of `str.splitlines()`; "\r\n" is one boundary (see NextLine). */
  predicate IsLineBreak(c: char) {
    || c == '\n' || c == '\r' || c == '\U{0B}' || c == '\U{0C}'
    || ('\U{1C}' <= c <= '\U{1E}')
    || c == '\U{85}' || c == '\U{2028}' || c == '\U{2029}'
  }

  predicate AllSpace(s: string) {
    forall k :: 0 <= k < |s| ==> IsSpace(s[k])
  }

  /** Number of whitespace characters at the start of `s`. */
  function LeadingSpace(s: string): (i: nat)
    ensures i <= |s|
  {
    if s == [] || !IsSpace(s[0]) then 0 else 1 + LeadingSpace(s[1..])
  }

  /** LeadingSpace stops at the first non-space character. */
  lemma {:induction false} LeadingSpaceSpec(s: string)
    ensures forall k :: 0 <= k < LeadingSpace(s) ==> IsSpace(s[k])
    ensures LeadingSpace(s) < |s| ==> !IsSpace(s[LeadingSpace(s)])
  {
    if s != [] && IsSpace(s[0]) {
      LeadingSpaceSpec(s[1..]);
      assert forall k :: 1 <= k < |s| ==> s[k] == s[1..][k - 1];
    }
  }

  /** Index at which the trailing run of whitespace of `s` begins. */
  function TrailingStart(s: string): (j: nat)
    ensures j <= |s|
  {
    if s == [] || !IsSpace(s[|s| - 1]) then |s| else TrailingStart(s[..|s| - 1])
  }

  /** Everything from TrailingStart on is whitespace, and the character before it is not. */
  lemma {:induction false} TrailingStartSpec(s: string)
    ensures forall k :: TrailingStart(s) <= k < |s| ==> IsSpace(s[k])
    ensures 0 < TrailingStart(s) ==> !IsSpace(s[TrailingStart(s) - 1])
  {
    if s != [] && IsSpace(s[|s| - 1]) {
      TrailingStartSpec(s[..|s| - 1]);
    }
  }

  /**
   `s.strip()`: `s` without its leading and trailing whitespace. Its
   properties are stated by StripSpec and StripSlice.
   */
  function Strip(s: string): (r: string)
    ensures |r| <= |s|
  {
    var t := s[LeadingSpace(s)..];
    t[..TrailingStart(t)]
  }

  /** A stripped string is empty exactly when `s` is all whitespace, and otherwise begins and ends with a non-space. */
  lemma StripSpec(s: string)
    ensures Strip(s) == [] <==> AllSpace(s)
    ensures Strip(s) != [] ==> !IsSpace(Strip(s)[0]) && !IsSpace(Strip(s)[|Strip(s)| - 1])
  {
    var i := StripSlice(s);
    var t := s[LeadingSpace(s)..];
    LeadingSpaceSpec(s);
    TrailingStartSpec(t);
    if Strip(s) != [] {
      assert Strip(s)[0] == t[0] == s[LeadingSpace(s)];
    }
  }

  /** What Strip keeps is one slice of `s`, and only whitespace lies outside it. */
  lemma StripSlice(s: string) returns (i: nat)
    ensures i + |Strip(s)| <= |s| && Strip(s) == s[i..i + |Strip(s)|]
    ensures forall k :: 0 <= k < |s| && !(i <= k < i + |Strip(s)|) ==> IsSpace(s[k])
  {
    i := LeadingSpace(s);
    var t := s[i..];
    TrailingStartSpec(t);
    LeadingSpaceSpec(s);
    assert forall k :: 0 <= k < |t| ==> t[k] == s[i + k];
  }

  /** Strip is the only way to cut `s` into whitespace, a trimmed middle and whitespace. */
  lemma StripUnique(a: string, m: string, b: string)
    requires AllSpace(a) && AllSpace(b)
    requires m != [] ==> !IsSpace(m[0]) && !IsSpace(m[|m| - 1])
    ensures Strip(a + m + b) == m
  {
    var s := a + m + b;
    var r := Strip(s);
    var i := StripSlice(s);
    StripSpec(s);
    if m == [] {
      assert forall k :: 0 <= k < |s| ==> s[k] == if k < |a| then a[k] else b[k - |a|];
    } else {
      assert s[|a|] == m[0];
      assert s[|a| + |m| - 1] == m[|m| - 1];
      assert i == |a|;
      assert |r| == |m|;
      assert s[|a|..|a| + |m|] == m;
    }
  }

  /** Stripping twice is stripping once. */
  lemma StripIdempotent(s: string)
    ensures Strip(Strip(s)) == Strip(s)
  {
    StripSpec(s);
    StripUnique([], Strip(s), []);
    assert [] + Strip(s) + [] == Strip(s);
  }

  lemma AllSpaceConcat(x: string, y: string)
    requires AllSpace(x) && AllSpace(y)
    ensures AllSpace(x + y)
  {
    forall k | 0 <= k < |x + y| ensures IsSpace((x + y)[k]) {
      if k >= |x| {
        assert (x + y)[k] == y[k - |x|];
      }
    }
  }

  /** Whitespace added around a string is stripped off with the string's own. */
  lemma StripPadding(a: string, s: string, b: string)
    requires AllSpace(a) && AllSpace(b)
    ensures Strip(a + s + b) == Strip(s)
  {
    var m := Strip(s);
    var i := StripSlice(s);
    StripSpec(s);
    var lead, trail := s[..i], s[i + |m|..];
    assert AllSpace(lead) by {
      forall k | 0 <= k < |lead| ensures IsSpace(lead[k]) {
        assert lead[k] == s[k];
      }
    }
    assert AllSpace(trail) by {
      forall k | 0 <= k < |trail| ensures IsSpace(trail[k]) {
        assert trail[k] == s[i + |m| + k];
      }
    }
    AllSpaceConcat(a, lead);
    AllSpaceConcat(trail, b);
    assert s == lead + m + trail;
    Regroup(a, lead, m, trail, b);
    StripUnique(a + lead, m, trail + b);
  }

  lemma Regroup(a: string, x: string, m: string, y: string, b: string)
    ensures (a + x) + m + (y + b) == a + (x + m + y) + b
  {
  }

  /** Length of the first line of `s`: the index of its first line boundary, or |s|. */
  function LineEnd(s: string): (i: nat)
    ensures i <= |s|
  {
    if s == [] || IsLineBreak(s[0]) then 0 else 1 + LineEnd(s[1..])
  }

  /** LineEnd stops at the first line boundary and at no character before it. */
  lemma {:induction false} LineEndSpec(s: string)
    ensures forall k :: 0 <= k < LineEnd(s) ==> !IsLineBreak(s[k])
    ensures LineEnd(s) < |s| ==> IsLineBreak(s[LineEnd(s)])
  {
    if s != [] && !IsLineBreak(s[0]) {
      LineEndSpec(s[1..]);
      assert forall k :: 1 <= k < |s| ==> s[k] == s[1..][k - 1];
    }
  }

  /** The first line ends at `i` when `s[i]` is the first line boundary. */
  lemma LineEndAt(s: string, i: nat)
    requires i <= |s| && (i < |s| ==> IsLineBreak(s[i]))
    requires forall k :: 0 <= k < i ==> !IsLineBreak(s[k])
    ensures LineEnd(s) == i
  {
    LineEndSpec(s);
  }

  /** Where the next line starts after the boundary at `i`; "\r\n" is consumed whole. */
  function NextLine(s: string, i: nat): (j: nat)
    requires i < |s|
    ensures i < j <= |s|
  {
    if s[i] == '\r' && i + 1 < |s| && s[i + 1] == '\n' then i + 2 else i + 1
  }

  /**
   `s.splitlines()`: the lines of `s` without their boundaries. A final
   boundary does not start an extra empty line, and the empty string has
   no lines.
   */
  function SplitLines(s: string): (lines: seq<string>)
    ensures lines == [] <==> s == []
    decreases |s|
  {
    if s == [] then []
    else
      var i := LineEnd(s);
      if i == |s| then [s] else [s[..i]] + SplitLines(s[NextLine(s, i)..])
  }

  /** No line that splitlines returns contains a line boundary. */
  lemma {:induction false} SplitLinesNoBreaks(s: string)
    ensures forall n, k :: 0 <= n < |SplitLines(s)| && 0 <= k < |SplitLines(s)[n]| ==> !IsLineBreak(SplitLines(s)[n][k])
    decreases |s|
  {
    if s != [] {
      var i := LineEnd(s);
      LineEndSpec(s);
      if i < |s| {
        SplitLinesNoBreaks(s[NextLine(s, i)..]);
      }
    }
  }

  /** A line boundary as written in a file: "\r\n", or any one boundary character. */
  predicate IsSeparator(sep: string) {
    sep == "\r\n" || (|sep| == 1 && IsLineBreak(sep[0]))
  }

  predicate BreakFree(line: string) {
    forall k :: 0 <= k < |line| ==> !IsLineBreak(line[k])
  }

  /**
   `lines` and their separators as they can be written so that splitlines
   reads them back: each line is free of boundaries and is followed by its
   separator, and a lone "\r" is never followed directly by a "\n" (the
   two would read as one "\r\n" boundary).
   */
  predicate WellSeparated(lines: seq<string>, seps: seq<string>) {
    && |seps| == |lines|
    && (forall n :: 0 <= n < |lines| ==> BreakFree(lines[n]) && IsSeparator(seps[n]))
    && (forall n :: 0 <= n < |lines| - 1 && seps[n] == "\r" && lines[n + 1] == [] ==> seps[n + 1][0] != '\n')
  }

  /** Lines written one after another, each followed by its separator. */
  function JoinLines(lines: seq<string>, seps: seq<string>): string
    requires |seps| == |lines|
  {
    if lines == [] then [] else lines[0] + seps[0] + JoinLines(lines[1..], seps[1..])
  }

  /**
   splitlines undoes writing the lines out, whatever their whitespace,
   emptiness or separators, and a last line without a boundary after it is
   read as one more line.
   */
  lemma {:induction false} SplitJoin(lines: seq<string>, seps: seq<string>, last: string)
    requires WellSeparated(lines, seps) && BreakFree(last)
    ensures SplitLines(JoinLines(lines, seps) + last) == lines + (if last == [] then [] else [last])
  {
    var s := JoinLines(lines, seps) + last;
    if lines == [] {
      assert s == last;
      if last != [] {
        LineEndAt(last, |last|);
      }
    } else {
      var rest := JoinLines(lines[1..], seps[1..]) + last;
      assert s == lines[0] + seps[0] + rest;
      if seps[0] == "\r" && rest != [] {
        RestHead(lines, seps, last);
      }
      SplitFirst(lines[0], seps[0], rest);
      assert WellSeparated(lines[1..], seps[1..]) by {
        assert forall n :: 0 <= n < |lines| - 1 ==> lines[1..][n] == lines[n + 1] && seps[1..][n] == seps[n + 1];
      }
      SplitJoin(lines[1..], seps[1..], last);
    }
  }

  /** A boundary-free line and its separator come off the front as one line. */
  lemma SplitFirst(line: string, sep: string, rest: string)
    requires BreakFree(line) && IsSeparator(sep)
    requires sep == "\r" && rest != [] ==> rest[0] != '\n'
    ensures SplitLines(line + sep + rest) == [line] + SplitLines(rest)
  {
    var s := line + sep + rest;
    assert s[|line|] == sep[0];
    assert forall k :: 0 <= k < |line| ==> s[k] == line[k];
    LineEndAt(s, |line|);
    assert s[..|line|] == line;
    if sep == "\r\n" {
      assert s[|line| + 1] == '\n';
    } else if |line| + 1 < |s| {
      assert s[|line| + 1] == rest[0];
    }
    assert NextLine(s, |line|) == |line| + |sep|;
    assert s[|line| + |sep|..] == rest;
  }

  /** What follows the first separator never starts with "\n" after a lone "\r". */
  lemma RestHead(lines: seq<string>, seps: seq<string>, last: string)
    requires WellSeparated(lines, seps) && BreakFree(last) && lines != [] && seps[0] == "\r"
    requires JoinLines(lines[1..], seps[1..]) + last != []
    ensures (JoinLines(lines[1..], seps[1..]) + last)[0] != '\n'
  {
    var rest := JoinLines(lines[1..], seps[1..]) + last;
    if lines[1..] == [] {
      assert rest == last;
    } else {
      assert rest == lines[1] + seps[1] + JoinLines(lines[2..], seps[2..]) + last;
      if lines[1] == [] {
        assert rest[0] == seps[1][0];
      } else {
        assert rest[0] == lines[1][0];
      }
    }
  }

  /** "\r\n" is one boundary, and a trailing boundary adds no empty line. */
  lemma SplitExample()
    ensures SplitLines("a\r\n\n") == ["a", ""]
  {
    var s := "a\r\n\n";
    LineEndAt(s, 1);
    assert NextLine(s, 1) == 3 && s[..1] == "a" && s[3..] == "\n";
    LineEndAt("\n", 0);
    assert NextLine("\n", 0) == 1 && "\n"[1..] == [];
  }
}
