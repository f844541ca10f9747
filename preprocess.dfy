/** preprocess_text: split the input into lines, remove a leading line-number
    marker ("   12→") from each, strip the lines, drop the blank ones and join
    the rest with single spaces. */
module Preprocess {
  import opened Text

  /** The arrow that ends a line-number marker, U+2192. */
  const Arrow: char := '\U{2192}'

  /** The length of the longest prefix of s holding no line boundary. */
  function LineEnd(s: string): (n: nat)
    ensures n <= |s|
    ensures forall k :: 0 <= k < n ==> !IsLineBreak(s[k])
    ensures n < |s| ==> IsLineBreak(s[n])
  {
    if s == [] || IsLineBreak(s[0]) then 0 else 1 + LineEnd(s[1..])
  }

  /** The width of the line boundary at s[n]: "\r\n" is one boundary. */
  function BreakWidth(s: string, n: nat): (w: nat)
    requires n < |s|
    ensures 1 <= w && n + w <= |s|
  {
    if s[n] == '\r' && n + 1 < |s| && s[n + 1] == '\n' then 2 else 1
  }

  /** Every character of line occurs in s and is not a line boundary. */
  predicate LineOf(line: string, s: string)
  {
    forall k :: 0 <= k < |line| ==> line[k] in s && !IsLineBreak(line[k])
  }

  /** str.splitlines(): the text between line boundaries; a boundary at the
      very end opens no further line, and the empty text has no lines. */
  function SplitLines(s: string): (lines: seq<string>)
    ensures |lines| <= |s|
    ensures s == [] <==> lines == []
    decreases |s|
  {
    if s == [] then []
    else
      var n := LineEnd(s);
      if n == |s| then [s]
      else
        var rest := SplitLines(s[n + BreakWidth(s, n)..]);
        [s[..n]] + rest
  }

  /** Every line holds only characters of the text and no line boundary. */
  lemma {:induction false} SplitLinesChars(s: string)
    ensures forall line :: line in SplitLines(s) ==> LineOf(line, s)
    decreases |s|
  {
    if s != [] {
      var n := LineEnd(s);
      FirstLineOf(s, n);
      if n == |s| {
        assert s[..n] == s;
      } else {
        var m := n + BreakWidth(s, n);
        SplitLinesChars(s[m..]);
        LinesOfSuffix(SplitLines(s[m..]), s, m);
        assert SplitLines(s) == [s[..n]] + SplitLines(s[m..]);
      }
    }
  }

  /** The lines of a suffix of s are lines of s. */
  lemma LinesOfSuffix(rest: seq<string>, s: string, m: nat)
    requires m <= |s| && forall line :: line in rest ==> LineOf(line, s[m..])
    ensures forall line :: line in rest ==> LineOf(line, s)
  {
    forall line, j | line in rest && 0 <= j < |line|
      ensures line[j] in s
    {
      var i :| 0 <= i < |s[m..]| && s[m..][i] == line[j];
      assert s[m + i] == line[j];
    }
  }

  /** The text before the first line boundary is a line of s. */
  lemma FirstLineOf(s: string, n: nat)
    requires n == LineEnd(s)
    ensures LineOf(s[..n], s)
  {
    forall j | 0 <= j < n
      ensures s[..n][j] in s
    {
      assert s[..n][j] == s[j];
    }
  }

  /** Splitting into lines loses exactly the line boundaries. */
  lemma {:induction false} SplitLinesContent(s: string)
    ensures Without(Concat(SplitLines(s)), LineBreaks) == Without(s, LineBreaks)
    decreases |s|
  {
    if s != [] {
      var n := LineEnd(s);
      if n == |s| {
        ConcatSingle(s);
      } else {
        var w := BreakWidth(s, n);
        var rest := s[n + w..];
        SplitLinesContent(rest);
        ConcatAppend([s[..n]], SplitLines(rest));
        ConcatSingle(s[..n]);
        SliceSplit(s, n, n + w);
        WithoutAppend(s[..n] + s[n..n + w], rest, LineBreaks);
        WithoutAppend(s[..n], s[n..n + w], LineBreaks);
        BoundaryVanishes(s, n);
        WithoutAppend(s[..n], Concat(SplitLines(rest)), LineBreaks);
      }
    }
  }

  /** Every line boundary of s is a '\n'. */
  predicate OnlyNewlines(s: string)
  {
    forall k :: 0 <= k < |s| && IsLineBreak(s[k]) ==> s[k] == '\n'
  }

  /** Where the cuts fall: when '\n' is the only line boundary in s, the lines
      are the pieces of split("\n"), less the empty piece after a final '\n';
      the empty text has no lines. */
  lemma {:induction false} SplitLinesAtNewlines(s: string)
    requires OnlyNewlines(s)
    ensures var pieces := SplitOn(s, iset{'\n'});
      SplitLines(s) ==
        if s == "" then []
        else if s[|s| - 1] == '\n' then pieces[..|pieces| - 1]
        else pieces
    decreases |s|
  {
    if s != [] {
      var n := LineEnd(s);
      assert IsLineBreak('\n');
      if n == |s| {
        SplitOnNone(s, iset{'\n'});
      } else {
        NewlineAt(s, n);
        NewlinesAfter(s, n + 1);
        SplitLinesAtNewlines(s[n + 1..]);
        CutAt(s, n);
      }
    }
  }

  /** One turn at a '\n': if the claim holds for the text after it, it holds for s. */
  lemma CutAt(s: string, n: nat)
    requires n == LineEnd(s) && n < |s| && s[n] == '\n'
    requires var rest, tail := s[n + 1..], SplitOn(s[n + 1..], iset{'\n'});
      SplitLines(rest) ==
        if rest == "" then []
        else if rest[|rest| - 1] == '\n' then tail[..|tail| - 1]
        else tail
    ensures var pieces := SplitOn(s, iset{'\n'});
      SplitLines(s) == if s[|s| - 1] == '\n' then pieces[..|pieces| - 1] else pieces
  {
    var rest := s[n + 1..];
    LinesStep(s, n, 1);
    PiecesCut(s, n);
    if rest == "" {
      SplitOnNone(rest, iset{'\n'});
    }
    CutTail(s, n, SplitOn(rest, iset{'\n'}), SplitLines(rest));
  }

  /** The first line boundary of such a text is a '\n' of width one. */
  lemma NewlineAt(s: string, n: nat)
    requires OnlyNewlines(s) && n == LineEnd(s) && n < |s|
    ensures s[n] == '\n' && BreakWidth(s, n) == 1
  {
  }

  lemma LinesStep(s: string, n: nat, w: nat)
    requires n == LineEnd(s) && n < |s| && w == BreakWidth(s, n)
    ensures SplitLines(s) == [s[..n]] + SplitLines(s[n + w..])
  {
  }

  lemma PiecesCut(s: string, n: nat)
    requires n == LineEnd(s) && n < |s| && s[n] == '\n'
    ensures SplitOn(s, iset{'\n'}) == [s[..n]] + SplitOn(s[n + 1..], iset{'\n'})
  {
    assert IsLineBreak('\n');
    SplitOnAt(s, iset{'\n'}, n);
  }

  lemma NewlinesAfter(s: string, m: nat)
    requires OnlyNewlines(s) && m <= |s|
    ensures OnlyNewlines(s[m..])
  {
    assert forall k :: 0 <= k < |s[m..]| ==> s[m..][k] == s[m + k];
  }

  lemma CutTail(s: string, n: nat, tail: seq<string>, restLines: seq<string>)
    requires n < |s| && s[n] == '\n' && tail != []
    requires s[n + 1..] == "" ==> tail == [""]
    requires var rest := s[n + 1..];
      restLines ==
        if rest == "" then []
        else if rest[|rest| - 1] == '\n' then tail[..|tail| - 1]
        else tail
    ensures var pieces := [s[..n]] + tail;
      [s[..n]] + restLines == if s[|s| - 1] == '\n' then pieces[..|pieces| - 1] else pieces
  {
    var rest := s[n + 1..];
    if rest != "" {
      assert s[|s| - 1] == rest[|rest| - 1];
    }
    if s[|s| - 1] == '\n' {
      ConsDropLast(s[..n], tail);
    }
  }

  lemma ConsDropLast<T>(x: T, tail: seq<T>)
    requires tail != []
    ensures ([x] + tail)[..|tail|] == [x] + tail[..|tail| - 1]
  {
  }

  /** For such a text not ending in '\n', joining the lines with '\n' gives
      it back. */
  lemma SplitLinesJoin(s: string)
    requires OnlyNewlines(s) && (s == "" || s[|s| - 1] != '\n')
    ensures Join("\n", SplitLines(s)) == s
  {
    SplitLinesAtNewlines(s);
    if s != "" {
      JoinSplitOn(s, '\n');
    }
  }

  lemma BoundaryVanishes(s: string, n: nat)
    requires n < |s| && IsLineBreak(s[n])
    ensures Without(s[n..n + BreakWidth(s, n)], LineBreaks) == ""
  {
    var b := s[n..n + BreakWidth(s, n)];
    forall c | c in b ensures c in LineBreaks {
      var k :| 0 <= k < |b| && b[k] == c;
      assert b[k] == s[n + k];
    }
    WithoutAll(b, LineBreaks);
  }

  /** The number of decimal digits of s starting at index i. */
  function DigitsFrom(s: string, i: nat): (d: nat)
    requires i <= |s|
    ensures i + d <= |s|
    ensures forall k :: i <= k < i + d ==> IsDigit(s[k])
    ensures i + d < |s| ==> !IsDigit(s[i + d])
    decreases |s| - i
  {
    if i < |s| && IsDigit(s[i]) then 1 + DigitsFrom(s, i + 1) else 0
  }

  /** The length of the match of ^\s*\d+→ at the start of line, or 0 when
      the line does not start with such a marker. */
  function MarkerLength(line: string): (n: nat)
    ensures n <= |line|
    ensures n == 0 || (2 <= n && line[n - 1] == Arrow && IsDigit(line[n - 2]))
  {
    var a := LeadingSpace(line);
    var d := DigitsFrom(line, a);
    if d > 0 && a + d < |line| && line[a + d] == Arrow then a + d + 1 else 0
  }

  /** line[..m] is a line-number marker whose digits start at a: whitespace,
      at least one digit, and the arrow. */
  predicate IsMarker(line: string, m: nat, a: nat)
  {
    a + 1 < m <= |line| && line[m - 1] == Arrow &&
    (forall k :: 0 <= k < a ==> IsSpace(line[k])) &&
    (forall k :: a <= k < m - 1 ==> IsDigit(line[k]))
  }

  /** What the substitution removes is a marker. */
  lemma MarkerFound(line: string)
    requires MarkerLength(line) > 0
    ensures IsMarker(line, MarkerLength(line), LeadingSpace(line))
  {
    var a := LeadingSpace(line);
    var d := DigitsFrom(line, a);
    assert MarkerLength(line) == a + d + 1;
  }

  /** A marker at the start of a line is the one the substitution removes: the
      match is unique, since whitespace, digits and the arrow are disjoint. */
  lemma MarkerUnique(line: string, m: nat, a: nat)
    requires IsMarker(line, m, a)
    ensures MarkerLength(line) == m
  {
    assert IsDigit(line[a]);
    DigitNotSpace(line[a]);
    SpaceRun(line, a);
    DigitsFromIs(line, a, m - 1 - a);
  }

  lemma SpaceRun(s: string, a: nat)
    requires a < |s| && !IsSpace(s[a]) && forall k :: 0 <= k < a ==> IsSpace(s[k])
    ensures LeadingSpace(s) == a
  {
  }

  lemma DigitsFromIs(s: string, i: nat, d: nat)
    requires i + d < |s| && !IsDigit(s[i + d]) && forall k :: i <= k < i + d ==> IsDigit(s[k])
    ensures DigitsFrom(s, i) == d
  {
  }

  /** A line with no marker is left as it is by the substitution. */
  lemma NoMarker(line: string)
    requires forall m: nat, a: nat :: !IsMarker(line, m, a)
    ensures MarkerLength(line) == 0
  {
    if MarkerLength(line) > 0 {
      MarkerFound(line);
      assert false;
    }
  }

  /** One line after the substitution: the line with its marker removed. */
  function Body(line: string): (b: string)
    ensures IsSuffix(b, line)
  {
    line[MarkerLength(line)..]
  }

  /** b is what remains of s once a prefix is removed. */
  predicate IsSuffix(b: string, s: string)
  {
    |b| <= |s| && b == s[|s| - |b|..]
  }

  /** One line after the substitution (the marker removed) and strip(). */
  function CleanLine(line: string): (r: string)
    ensures Trimmed(r)
  {
    var b := Body(line);
    StripTrimmed(b);
    Strip(b)
  }

  /** Cleaning a line adds no character. */
  lemma CleanLineChars(line: string)
    ensures forall c :: c in CleanLine(line) ==> c in line
  {
    var body := Body(line);
    StripChars(body);
    SliceChars(line, MarkerLength(line), |line|);
  }

  /** What the loop appends for one cleaned line: nothing when it is empty. */
  function Kept(c: string): (p: seq<string>)
    ensures |p| <= 1 && "" !in p
  {
    if c == "" then [] else [c]
  }

  /** cleaned_lines after a prefix of the lines. */
  function CleanLines(lines: seq<string>): (r: seq<string>)
    ensures |r| <= |lines| && "" !in r
  {
    if lines == [] then []
    else
      var c := CleanLine(lines[|lines| - 1]);
      var init, piece := CleanLines(lines[..|lines| - 1]), Kept(c);
      NotInAppend("", init, piece);
      init + piece
  }

  /** preprocess_text(text) */
  function PreprocessText(text: string): (r: string)
    ensures Trimmed(r)
  {
    LinesHaveNoBreaks(text);
    JoinCleanTrimmed(SplitLines(text));
    Join(" ", CleanLines(SplitLines(text)))
  }

  /** preprocess_text, with the loop of the source. */
  method Preprocess(text: string) returns (result: string)
    ensures result == PreprocessText(text)
  {
    var lines := SplitLines(text);
    var cleanedLines: seq<string> := [];
    for i := 0 to |lines|
      invariant cleanedLines == CleanLines(lines[..i])
    {
      CleanLinesStep(lines, i);
      var cleaned := CleanLine(lines[i]);
      if cleaned != "" {
        cleanedLines := cleanedLines + [cleaned];
      } else {
        AppendEmpty(cleanedLines);
      }
    }
    TakeAll(lines);
    result := Join(" ", cleanedLines);
  }

  lemma CleanLinesStep(lines: seq<string>, i: nat)
    requires i < |lines|
    ensures CleanLines(lines[..i + 1]) ==
      CleanLines(lines[..i]) + Kept(CleanLine(lines[i]))
  {
    assert lines[..i + 1][..i] == lines[..i];
  }

  predicate Clean(s: string)
  {
    s != "" && !IsSpace(s[0]) && !IsSpace(s[|s| - 1]) && forall c :: c in s ==> !IsLineBreak(c)
  }

  predicate AllClean(ss: seq<string>)
  {
    forall k :: 0 <= k < |ss| ==> Clean(ss[k])
  }

  predicate NoBreaks(lines: seq<string>)
  {
    forall k :: 0 <= k < |lines| ==> forall c :: c in lines[k] ==> !IsLineBreak(c)
  }

  /** The cleaned lines are non-empty, stripped, and hold no line boundary. */
  lemma {:induction false} CleanLinesShape(lines: seq<string>)
    requires NoBreaks(lines)
    ensures AllClean(CleanLines(lines))
  {
    if lines != [] {
      var init, line := lines[..|lines| - 1], lines[|lines| - 1];
      NoBreaksPrefix(lines);
      CleanLinesShape(init);
      var c := CleanLine(line);
      assert forall ch :: ch in line ==> !IsLineBreak(ch);
      CleanLineClean(line);
      AllCleanAppend(CleanLines(init), Kept(c));
    }
  }

  lemma CleanLineClean(line: string)
    requires forall ch :: ch in line ==> !IsLineBreak(ch)
    ensures var c := CleanLine(line); AllClean(Kept(c))
  {
    var c := CleanLine(line);
    CleanLineChars(line);
    if c != "" {
      assert forall ch :: ch in c ==> !IsLineBreak(ch);
      OneClean(c);
    }
  }

  lemma OneClean(c: string)
    requires Clean(c)
    ensures AllClean([c])
  {
  }

  lemma NoBreaksPrefix(lines: seq<string>)
    requires lines != [] && NoBreaks(lines)
    ensures NoBreaks(lines[..|lines| - 1])
  {
    var init := lines[..|lines| - 1];
    assert forall k :: 0 <= k < |init| ==> init[k] == lines[k];
  }

  lemma AllCleanAppend(a: seq<string>, b: seq<string>)
    requires AllClean(a) && AllClean(b)
    ensures AllClean(a + b)
  {
    assert forall k :: |a| <= k < |a + b| ==> (a + b)[k] == b[k - |a|];
  }

  const NotLineBreaks: iset<char> := iset c | !IsLineBreak(c)

  /** The result is one line: it holds no line boundary. */
  lemma PreprocessSingleLine(text: string)
    ensures forall c :: c in PreprocessText(text) ==> !IsLineBreak(c)
  {
    var lines := SplitLines(text);
    LinesHaveNoBreaks(text);
    JoinedSingleLine(lines);
  }

  lemma JoinedSingleLine(lines: seq<string>)
    requires NoBreaks(lines)
    ensures forall c :: c in Join(" ", CleanLines(lines)) ==> !IsLineBreak(c)
  {
    CleanLinesShape(lines);
    CleanChars(CleanLines(lines));
    JoinChars(" ", CleanLines(lines), NotLineBreaks);
  }

  lemma CleanChars(ss: seq<string>)
    requires AllClean(ss)
    ensures forall k, c :: 0 <= k < |ss| && c in ss[k] ==> c in NotLineBreaks
  {
    forall k, c | 0 <= k < |ss| && c in ss[k] ensures c in NotLineBreaks {
      assert Clean(ss[k]);
    }
  }

  /** The result has no whitespace at either end. */
  lemma JoinCleanTrimmed(lines: seq<string>)
    requires NoBreaks(lines)
    ensures Trimmed(Join(" ", CleanLines(lines)))
  {
    CleanLinesShape(lines);
    JoinEnds(CleanLines(lines));
  }

  lemma LinesHaveNoBreaks(text: string)
    ensures NoBreaks(SplitLines(text))
  {
    var lines := SplitLines(text);
    SplitLinesChars(text);
    forall k | 0 <= k < |lines| ensures forall c :: c in lines[k] ==> !IsLineBreak(c) {
      assert LineOf(lines[k], text);
    }
  }

  /** Joining clean strings with spaces starts with the first one's first
      character and ends with the last one's last character. */
  lemma {:induction false} JoinEnds(ss: seq<string>)
    requires AllClean(ss)
    ensures Trimmed(Join(" ", ss))
  {
    if |ss| > 1 {
      JoinEnds(ss[1..]);
      var tail := Join(" ", ss[1..]);
      assert Clean(ss[0]) && Clean(ss[1]);
      assert tail != "" by {
        JoinNonEmpty(ss[1..]);
      }
      assert (ss[0] + " " + tail)[0] == ss[0][0];
      assert (ss[0] + " " + tail)[|ss[0] + " " + tail| - 1] == tail[|tail| - 1];
    } else if |ss| == 1 {
      assert Clean(ss[0]);
    }
  }

  lemma JoinNonEmpty(ss: seq<string>)
    requires ss != [] && ss[0] != ""
    ensures Join(" ", ss) != ""
  {
  }

  /** The line bodies once their markers are removed. */
  function Bodies(lines: seq<string>): (r: seq<string>)
    ensures |r| == |lines|
    ensures forall k :: 0 <= k < |r| ==> IsSuffix(r[k], lines[k])
  {
    if lines == [] then []
    else
      var init, line := Bodies(lines[..|lines| - 1]), lines[|lines| - 1];
      SuffixesSnoc(init, lines[..|lines| - 1], Body(line), line);
      InitLast(lines);
      init + [Body(line)]
  }

  /** Appending a suffix of a line to the suffixes of the lines before it. */
  lemma SuffixesSnoc(r: seq<string>, lines: seq<string>, b: string, line: string)
    requires |r| == |lines| && forall k :: 0 <= k < |r| ==> IsSuffix(r[k], lines[k])
    requires IsSuffix(b, line)
    ensures forall k :: 0 <= k < |r| + 1 ==> IsSuffix((r + [b])[k], (lines + [line])[k])
  {
    forall k | 0 <= k < |r| + 1
      ensures IsSuffix((r + [b])[k], (lines + [line])[k])
    {
      if k < |r| {
        assert (r + [b])[k] == r[k] && (lines + [line])[k] == lines[k];
      }
    }
  }

  /** Cleaning keeps every non-whitespace character of the line bodies. */
  lemma {:induction false} CleanLinesContent(lines: seq<string>)
    ensures Without(Concat(CleanLines(lines)), Whitespace) == Without(Concat(Bodies(lines)), Whitespace)
  {
    if lines != [] {
      var init, line := lines[..|lines| - 1], lines[|lines| - 1];
      var body := Body(line);
      var c := CleanLine(line);
      var piece := Kept(c);
      CleanLinesContent(init);
      StripKeepsContent(body);
      PieceContent(c);
      ConcatAppend(CleanLines(init), piece);
      ConcatAppend(Bodies(init), [body]);
      ConcatSingle(body);
      WithoutJoined(Concat(CleanLines(init)), Concat(piece), Concat(Bodies(init)), body, Whitespace);
    }
  }

  lemma PieceContent(c: string)
    ensures Without(Concat(Kept(c)), Whitespace) == Without(c, Whitespace)
  {
    ConcatSingle(c);
  }

  /** Joining with spaces adds nothing but whitespace. */
  lemma {:induction false} JoinSpaces(ss: seq<string>)
    ensures Without(Join(" ", ss), Whitespace) == Without(Concat(ss), Whitespace)
  {
    if |ss| == 1 {
      assert ss == [ss[0]];
      ConcatSingle(ss[0]);
    } else if |ss| > 1 {
      JoinSpaces(ss[1..]);
      WithoutAppend(ss[0] + " ", Join(" ", ss[1..]), Whitespace);
      WithoutAppend(ss[0], " ", Whitespace);
      WithoutAppend(ss[0], Concat(ss[1..]), Whitespace);
    }
  }

  /** Apart from whitespace, the result is the text of the lines with their
      markers removed. */
  lemma PreprocessContent(text: string)
    ensures Without(PreprocessText(text), Whitespace) == Without(Concat(Bodies(SplitLines(text))), Whitespace)
  {
    JoinSpaces(CleanLines(SplitLines(text)));
    CleanLinesContent(SplitLines(text));
  }

  predicate Unmarked(lines: seq<string>)
  {
    forall k :: 0 <= k < |lines| ==> MarkerLength(lines[k]) == 0
  }

  lemma {:induction false} BodiesWithoutMarkers(lines: seq<string>)
    requires Unmarked(lines)
    ensures Bodies(lines) == lines
  {
    if lines != [] {
      var init, line := lines[..|lines| - 1], lines[|lines| - 1];
      UnmarkedPrefix(lines);
      BodiesWithoutMarkers(init);
      assert MarkerLength(line) == 0;
      assert Body(line) == line;
      InitLast(lines);
    }
  }

  lemma UnmarkedPrefix(lines: seq<string>)
    requires lines != [] && Unmarked(lines)
    ensures Unmarked(lines[..|lines| - 1])
  {
    var init := lines[..|lines| - 1];
    assert forall k :: 0 <= k < |init| ==> init[k] == lines[k];
  }

  /** Text in which no line starts with a line-number marker loses only
      whitespace. */
  lemma PreprocessKeepsUnmarkedText(text: string)
    requires forall k, m: nat, a: nat :: 0 <= k < |SplitLines(text)| ==> !IsMarker(SplitLines(text)[k], m, a)
    ensures Without(PreprocessText(text), Whitespace) == Without(text, Whitespace)
  {
    var lines := SplitLines(text);
    forall k | 0 <= k < |lines| ensures MarkerLength(lines[k]) == 0 {
      NoMarker(lines[k]);
    }
    PreprocessContent(text);
    BodiesWithoutMarkers(lines);
    SplitLinesContent(text);
    LineBreaksAreSpace();
    WithoutTwice(Concat(lines), LineBreaks, Whitespace);
    WithoutTwice(text, LineBreaks, Whitespace);
  }
}
