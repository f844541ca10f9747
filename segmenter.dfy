/** split_sentences: break whitespace between two ideographs into a line
    break, split into lines, strip them, split each line on the delimiters
    of the mode, and balance the pieces in sentence mode. */
module Segmenter {
  import opened Text
  import opened Tokens
  import Balance

  const ModeRaw := "raw"
  const ModeSentence := "sentence"
  const ModeClause := "clause"

  /** The sentence endings 。.？?！! */
  predicate IsSentenceMark(c: char)
  {
    c == '。' || c == '.' || c == '？' || c == '?' || c == '！' || c == '!'
  }

  /** The clause endings ，,、；; */
  predicate IsClauseMark(c: char)
  {
    c == '，' || c == ',' || c == '、' || c == '；' || c == ';'
  }

  const SentenceMarks: iset<char> := iset c | IsSentenceMark(c)

  const AllMarks: iset<char> := iset c | IsSentenceMark(c) || IsClauseMark(c)

  /** The characters that the content comparison of the repository's tests
      removes: every delimiter of either mode and all whitespace. */
  predicate IsIgnored(c: char)
  {
    IsSentenceMark(c) || IsClauseMark(c) || IsSpace(c)
  }

  const Ignored: iset<char> := iset c | IsIgnored(c)

  /** The delimiter class of lines 125-130: any mode other than "clause"
      splits on the sentence marks only. */
  function Delimiters(mode: string): (d: iset<char>)
    ensures d <= AllMarks && d <= Ignored
    ensures forall c :: IsSentenceMark(c) ==> c in d
    ensures mode == ModeClause <==> forall c :: IsClauseMark(c) ==> c in d
    ensures forall c :: IsClauseMark(c) ==> (c in d <==> mode == ModeClause)
    ensures forall c :: c in d <==> IsSentenceMark(c) || (mode == ModeClause && IsClauseMark(c))
  {
    if mode == ModeClause then AllMarks
    else
      assert IsClauseMark(',') && ',' !in SentenceMarks;
      SentenceMarks
  }

  /** The substitution at line 136: an ideograph, a run of whitespace and an
      ideograph become the two ideographs around a line break. Matches do not
      overlap: scanning resumes after the second ideograph, so in "一 二 三"
      only the first gap is replaced. */
  function BreakCjkSpaces(s: string): (r: string)
    ensures |r| <= |s|
    ensures forall c :: c in r ==> c in s || c == '\n'
    decreases |s|
  {
    if s == [] then ""
    else
      var n := LeadingSpace(s[1..]);
      if IsCjk(s[0]) && n > 0 && n + 1 < |s| && IsCjk(s[n + 1]) then
        var rest := BreakCjkSpaces(s[n + 2..]);
        assert forall c :: c in s[n + 2..] ==> c in s;
        [s[0]] + "\n" + [s[n + 1]] + rest
      else
        var rest := BreakCjkSpaces(s[1..]);
        assert forall c :: c in s[1..] ==> c in s;
        [s[0]] + rest
  }

  /** t[i] and t[j] are ideographs with a non-empty run of whitespace, and
      nothing else, between them: a match of the pattern at line 136. */
  predicate GapIn(t: string, i: nat, j: nat)
  {
    i + 1 < j < |t| && IsCjk(t[i]) && IsCjk(t[j]) && forall m :: i < m < j ==> IsSpace(t[m])
  }

  /** keep[0] + gaps[0] + keep[1] + ... + gaps[|gaps| - 1] + keep[|gaps|] */
  function Interleave(keep: seq<string>, gaps: seq<string>): string
    requires |keep| == |gaps| + 1
  {
    if gaps == [] then keep[0] else keep[0] + gaps[0] + Interleave(keep[1..], gaps[1..])
  }

  /** Each gap is a non-empty run of whitespace between an ideograph that
      ends the piece before it and an ideograph that starts the piece after it. */
  predicate GapsBetweenIdeographs(keep: seq<string>, gaps: seq<string>)
  {
    |keep| == |gaps| + 1 && forall k :: 0 <= k < |gaps| ==> Between(keep[k], gaps[k], keep[k + 1])
  }

  /** gap is a non-empty run of whitespace, left ends with an ideograph and
      right starts with one. */
  predicate Between(left: string, gap: string, right: string)
  {
    gap != "" && AllSpace(gap) &&
    left != "" && IsCjk(left[|left| - 1]) && right != "" && IsCjk(right[0])
  }

  /** The only whitespace runs between ideographs left inside the pieces
      start at the ideograph that closed the gap before the piece. */
  predicate OnlyChainedGapsLeft(keep: seq<string>)
  {
    forall k, i, j :: 0 <= k < |keep| && 0 <= i < j < |keep[k]| && GapIn(keep[k], i, j) ==> 0 < k && i == 0
  }

  /** [t.strip() for t in ss if t.strip()] */
  function StrippedNonBlank(ss: seq<string>): (r: seq<string>)
    ensures |r| <= |ss| && "" !in r
  {
    if ss == [] then []
    else (if Strip(ss[0]) == "" then [] else [Strip(ss[0])]) + StrippedNonBlank(ss[1..])
  }

  /** What one stripped, non-empty line contributes (lines 147-156): its
      delimiter-free pieces, stripped, or the whole line when it consists of
      delimiters only. */
  function LinePieces(segment: string, delims: iset<char>): (r: seq<string>)
    ensures segment != "" ==> "" !in r
  {
    var sub := NonEmpty(SplitOn(segment, delims));
    if sub != [] then StrippedNonBlank(sub) else [segment]
  }

  /** One turn of the loop at lines 142-156. */
  function LineContribution(line: string, delims: iset<char>): (r: seq<string>)
    ensures "" !in r
  {
    var segment := Strip(line);
    if segment == "" then [] else LinePieces(segment, delims)
  }

  function PiecesOf(lines: seq<string>, delims: iset<char>): (r: seq<string>)
    ensures "" !in r
  {
    if lines == [] then []
    else PiecesOf(lines[..|lines| - 1], delims) + LineContribution(lines[|lines| - 1], delims)
  }

  lemma PiecesOfStep(lines: seq<string>, i: nat, delims: iset<char>)
    requires i < |lines|
    ensures PiecesOf(lines[..i + 1], delims) == PiecesOf(lines[..i], delims) + LineContribution(lines[i], delims)
  {
    assert lines[..i + 1][..i] == lines[..i];
  }

  /** The list sentences after line 156, before balancing. */
  function Pieces(text: string, mode: string): (r: seq<string>)
    ensures "" !in r
  {
    PiecesOf(SplitOn(BreakCjkSpaces(text), iset{'\n'}), Delimiters(mode))
  }

  /** split_sentences(text, mode, max_tokens) */
  function SplitSentences(text: string, mode: string, maxTokens: int): (r: seq<string>)
    ensures mode != ModeRaw ==> "" !in r
  {
    if mode == ModeRaw then [text]
    else if mode == ModeSentence then Balance.Balance(Pieces(text, mode), maxTokens)
    else Pieces(text, mode)
  }

  /** split_sentences, with the loop of the source. */
  method SplitSentencesLoop(text: string, mode: string, maxTokens: int) returns (sentences: seq<string>)
    ensures sentences == SplitSentences(text, mode, maxTokens)
    ensures mode == ModeRaw ==> sentences == [text]
    ensures mode == ModeSentence ==> sentences == Balance.Balance(Pieces(text, ModeSentence), maxTokens)
    ensures mode != ModeRaw && mode != ModeSentence ==> sentences == Pieces(text, mode)
  {
    if mode == ModeRaw {
      return [text];
    }
    var delimiters := if mode == ModeClause then AllMarks else SentenceMarks;
    var broken := BreakCjkSpaces(text);
    var segments := SplitOn(broken, iset{'\n'});
    sentences := [];
    for i := 0 to |segments|
      invariant sentences == PiecesOf(segments[..i], delimiters)
    {
      PiecesOfStep(segments, i, delimiters);
      var segment := Strip(segments[i]);
      if segment == "" {
        continue;
      }
      var subSentences := NonEmpty(SplitOn(segment, delimiters));
      if subSentences != [] {
        sentences := sentences + StrippedNonBlank(subSentences);
      } else {
        sentences := sentences + [segment];
      }
    }
    assert segments[..|segments|] == segments;
    if mode == ModeSentence {
      sentences := Balance.BalanceSegments(sentences, maxTokens);
    }
  }

  /** A piece as the loop emits it: not empty, no whitespace at either end,
      no line break, and either free of the mode's delimiters or made of
      nothing but them. */
  predicate WellFormedPiece(p: string, delims: iset<char>)
  {
    p != "" && !IsSpace(p[0]) && !IsSpace(p[|p| - 1]) && '\n' !in p &&
    ((forall c :: c in p ==> c !in delims) || (forall c :: c in p ==> c in delims))
  }

  lemma {:induction false} StrippedNonBlankWellFormed(ss: seq<string>, delims: iset<char>)
    requires forall k :: 0 <= k < |ss| ==> forall c :: c in ss[k] ==> c !in delims && c != '\n'
    ensures forall p :: p in StrippedNonBlank(ss) ==> WellFormedPiece(p, delims)
  {
    if ss != [] {
      var rest := ss[1..];
      assert forall k :: 0 <= k < |rest| ==> rest[k] == ss[k + 1];
      StrippedNonBlankWellFormed(rest, delims);
      if Strip(ss[0]) != "" {
        StrippedLineWellFormed(ss[0], delims);
      }
    }
  }

  lemma StrippedLineWellFormed(line: string, delims: iset<char>)
    requires forall c :: c in line ==> c !in delims && c != '\n'
    requires Strip(line) != ""
    ensures WellFormedPiece(Strip(line), delims)
  {
    StripChars(line);
  }

  lemma LinePiecesWellFormed(segment: string, delims: iset<char>)
    requires segment != "" && !IsSpace(segment[0]) && !IsSpace(segment[|segment| - 1]) && '\n' !in segment
    ensures forall p :: p in LinePieces(segment, delims) ==> WellFormedPiece(p, delims)
  {
    var sub := NonEmpty(SplitOn(segment, delims));
    if sub != [] {
      SubPiecesClean(segment, delims);
      StrippedNonBlankWellFormed(sub, delims);
    } else {
      DelimitersOnly(segment, delims);
    }
  }

  /** The non-empty pieces of a line without '\n' hold neither a delimiter nor '\n'. */
  lemma SubPiecesClean(segment: string, delims: iset<char>)
    requires '\n' !in segment
    ensures var sub := NonEmpty(SplitOn(segment, delims));
      forall k :: 0 <= k < |sub| ==> forall c :: c in sub[k] ==> c !in delims && c != '\n'
  {
    var split := SplitOn(segment, delims);
    var sub := NonEmpty(split);
    forall k | 0 <= k < |sub| ensures forall c :: c in sub[k] ==> c !in delims && c != '\n' {
      var j :| 0 <= j < |split| && split[j] == sub[k];
    }
  }

  /** A line whose split has no non-empty piece is a well-formed piece of delimiters. */
  lemma DelimitersOnly(segment: string, delims: iset<char>)
    requires segment != "" && !IsSpace(segment[0]) && !IsSpace(segment[|segment| - 1]) && '\n' !in segment
    requires NonEmpty(SplitOn(segment, delims)) == []
    ensures WellFormedPiece(segment, delims)
  {
    SplitOnConcat(segment, delims);
    WithoutEmpty(segment, delims);
  }

  lemma {:induction false} PiecesOfWellFormed(lines: seq<string>, delims: iset<char>)
    requires forall k :: 0 <= k < |lines| ==> '\n' !in lines[k]
    ensures forall p :: p in PiecesOf(lines, delims) ==> WellFormedPiece(p, delims)
  {
    if lines != [] {
      var init, line := lines[..|lines| - 1], lines[|lines| - 1];
      assert forall k :: 0 <= k < |init| ==> init[k] == lines[k];
      PiecesOfWellFormed(init, delims);
      var segment := Strip(line);
      if segment != "" {
        StripChars(line);
        LinePiecesWellFormed(segment, delims);
      }
    }
  }

  /** Every piece before balancing is non-empty, has no whitespace at either
      end, holds no line break, and holds none of the mode's delimiters,
      except a line made of delimiters only, which is kept whole. */
  lemma PiecesWellFormed(text: string, mode: string)
    ensures forall p :: p in Pieces(text, mode) ==> WellFormedPiece(p, Delimiters(mode))
  {
    var lines := SplitOn(BreakCjkSpaces(text), iset{'\n'});
    PiecesOfWellFormed(lines, Delimiters(mode));
  }

  /** What the substitution at line 136 does: the text is cut into pieces
      and gaps, each gap a run of whitespace between two ideographs, and the
      result is the pieces joined by single line breaks. Matching is left to
      right without overlap, so the only gaps left inside a piece are those
      whose left ideograph closed the gap just before the piece. */
  lemma {:induction false} BreakGaps(s: string) returns (keep: seq<string>, gaps: seq<string>)
    ensures GapsBetweenIdeographs(keep, gaps)
    ensures s == Interleave(keep, gaps)
    ensures BreakCjkSpaces(s) == Join("\n", keep)
    ensures OnlyChainedGapsLeft(keep)
    ensures |keep[0]| <= |s| && keep[0] == s[..|keep[0]|]
    decreases |s|
  {
    if s == [] {
      keep, gaps := [""], [];
    } else if IsCjk(s[0]) && 0 < LeadingSpace(s[1..]) && LeadingSpace(s[1..]) + 1 < |s|
              && IsCjk(s[LeadingSpace(s[1..]) + 1]) {
      var n := LeadingSpace(s[1..]);
      var keep', gaps' := BreakGaps(s[n + 2..]);
      keep := GapKeep(s, n, keep');
      gaps := [s[1..n + 1]] + gaps';
      GapCase(s, n, keep', gaps');
    } else {
      var keep', gaps' := BreakGaps(s[1..]);
      keep := SkipKeep(s, keep');
      gaps := gaps';
      SkipCase(s, keep', gaps');
    }
  }

  /** The pieces after a gap at the start: the first ideograph alone, then
      the second ideograph in front of the rest's first piece. */
  function GapKeep(s: string, n: nat, keep': seq<string>): seq<string>
    requires n + 1 < |s| && keep' != []
  {
    [[s[0]], [s[n + 1]] + keep'[0]] + keep'[1..]
  }

  /** The step of BreakGaps where a gap starts at the first character. */
  lemma GapCase(s: string, n: nat, keep': seq<string>, gaps': seq<string>)
    requires 0 < n && n + 1 < |s| && n == LeadingSpace(s[1..]) && IsCjk(s[0]) && IsCjk(s[n + 1])
    requires GapsBetweenIdeographs(keep', gaps') && OnlyChainedGapsLeft(keep')
    requires s[n + 2..] == Interleave(keep', gaps') && BreakCjkSpaces(s[n + 2..]) == Join("\n", keep')
    ensures var keep := GapKeep(s, n, keep');
      var gaps := [s[1..n + 1]] + gaps';
      GapsBetweenIdeographs(keep, gaps) && s == Interleave(keep, gaps) &&
      BreakCjkSpaces(s) == Join("\n", keep) && OnlyChainedGapsLeft(keep) &&
      |keep[0]| <= |s| && keep[0] == s[..|keep[0]|]
  {
    GapCaseGaps(s, n, keep', gaps');
    GapCaseText(s, n, keep', gaps');
    GapCaseJoin(s, n, keep');
    GapCaseChained(s, n, keep');
  }

  lemma GapCaseGaps(s: string, n: nat, keep': seq<string>, gaps': seq<string>)
    requires 0 < n && n + 1 < |s| && n == LeadingSpace(s[1..]) && IsCjk(s[0]) && IsCjk(s[n + 1])
    requires GapsBetweenIdeographs(keep', gaps')
    ensures GapsBetweenIdeographs(GapKeep(s, n, keep'), [s[1..n + 1]] + gaps')
  {
    var keep := GapKeep(s, n, keep');
    var gaps := [s[1..n + 1]] + gaps';
    forall k | 0 <= k < |gaps| ensures Between(keep[k], gaps[k], keep[k + 1]) {
      if k == 0 {
        assert forall m :: 0 <= m < n ==> gaps[0][m] == s[1..][m];
      } else {
        assert Between(keep'[k - 1], gaps'[k - 1], keep'[k]);
        assert gaps[k] == gaps'[k - 1] && keep[k + 1] == keep'[k];
        if k == 1 {
          assert keep[1] == [s[n + 1]] + keep'[0];
        } else {
          assert keep[k] == keep'[k - 1];
        }
      }
    }
  }

  lemma GapCaseText(s: string, n: nat, keep': seq<string>, gaps': seq<string>)
    requires 0 < n && n + 1 < |s|
    requires |keep'| == |gaps'| + 1 && s[n + 2..] == Interleave(keep', gaps')
    ensures s == Interleave(GapKeep(s, n, keep'), [s[1..n + 1]] + gaps')
  {
    var head := [s[n + 1]] + keep'[0];
    var keep := GapKeep(s, n, keep');
    var gaps := [s[1..n + 1]] + gaps';
    ConsTwo([s[0]], head, keep'[1..]);
    ConsOne(s[1..n + 1], gaps');
    InterleaveHead([s[n + 1]], keep', gaps');
    assert Interleave(keep, gaps) == [s[0]] + s[1..n + 1] + ([s[n + 1]] + s[n + 2..]);
    SliceSplit(s, 1, n + 1);
    assert s[n + 1..] == [s[n + 1]] + s[n + 2..];
    assert s[..1] == [s[0]];
  }

  lemma GapCaseJoin(s: string, n: nat, keep': seq<string>)
    requires 0 < n && n + 1 < |s| && n == LeadingSpace(s[1..]) && IsCjk(s[0]) && IsCjk(s[n + 1])
    requires keep' != [] && BreakCjkSpaces(s[n + 2..]) == Join("\n", keep')
    ensures BreakCjkSpaces(s) == Join("\n", GapKeep(s, n, keep'))
  {
    var head := [s[n + 1]] + keep'[0];
    var keep := GapKeep(s, n, keep');
    ConsTwo([s[0]], head, keep'[1..]);
    JoinHead("\n", [s[n + 1]], keep');
    assert Join("\n", keep) == [s[0]] + "\n" + Join("\n", [head] + keep'[1..]);
    GapUnfold(s, n);
    AppendAssoc([s[0]] + "\n", [s[n + 1]], BreakCjkSpaces(s[n + 2..]));
  }

  lemma GapCaseChained(s: string, n: nat, keep': seq<string>)
    requires n + 1 < |s| && keep' != [] && OnlyChainedGapsLeft(keep')
    ensures OnlyChainedGapsLeft(GapKeep(s, n, keep'))
    ensures var keep := GapKeep(s, n, keep'); |keep[0]| <= |s| && keep[0] == s[..|keep[0]|]
  {
    var keep := GapKeep(s, n, keep');
    forall k, i, j | 0 <= k < |keep| && 0 <= i < j < |keep[k]| && GapIn(keep[k], i, j) ensures 0 < k && i == 0 {
      if k == 1 && i > 0 {
        GapShiftOne(s[n + 1], keep'[0], i, j);
      } else if k > 1 {
        assert keep[k] == keep'[k - 1];
      }
    }
  }

  /** The pieces after no gap at the start: the first character in front of
      the rest's first piece. */
  function SkipKeep(s: string, keep': seq<string>): seq<string>
    requires s != [] && keep' != []
  {
    [[s[0]] + keep'[0]] + keep'[1..]
  }

  /** The step of BreakGaps where no gap starts at the first character. */
  lemma SkipCase(s: string, keep': seq<string>, gaps': seq<string>)
    requires s != []
    requires !(IsCjk(s[0]) && 0 < LeadingSpace(s[1..]) && LeadingSpace(s[1..]) + 1 < |s|
               && IsCjk(s[LeadingSpace(s[1..]) + 1]))
    requires GapsBetweenIdeographs(keep', gaps') && OnlyChainedGapsLeft(keep')
    requires s[1..] == Interleave(keep', gaps') && BreakCjkSpaces(s[1..]) == Join("\n", keep')
    requires |keep'[0]| <= |s[1..]| && keep'[0] == s[1..][..|keep'[0]|]
    ensures var keep := SkipKeep(s, keep');
      GapsBetweenIdeographs(keep, gaps') && s == Interleave(keep, gaps') &&
      BreakCjkSpaces(s) == Join("\n", keep) && OnlyChainedGapsLeft(keep) &&
      |keep[0]| <= |s| && keep[0] == s[..|keep[0]|]
  {
    SkipCaseGaps(s, keep', gaps');
    SkipCaseText(s, keep', gaps');
    SkipCaseJoin(s, keep');
    SkipCaseChained(s, keep');
  }

  lemma SkipCaseGaps(s: string, keep': seq<string>, gaps': seq<string>)
    requires s != [] && GapsBetweenIdeographs(keep', gaps')
    ensures GapsBetweenIdeographs(SkipKeep(s, keep'), gaps')
  {
    var keep := SkipKeep(s, keep');
    forall k | 0 <= k < |gaps'| ensures Between(keep[k], gaps'[k], keep[k + 1]) {
      assert Between(keep'[k], gaps'[k], keep'[k + 1]);
      assert keep[k + 1] == keep'[k + 1];
      if k > 0 {
        assert keep[k] == keep'[k];
      } else {
        assert keep[0] == [s[0]] + keep'[0];
      }
    }
  }

  lemma SkipCaseText(s: string, keep': seq<string>, gaps': seq<string>)
    requires s != [] && |keep'| == |gaps'| + 1 && s[1..] == Interleave(keep', gaps')
    ensures s == Interleave(SkipKeep(s, keep'), gaps')
  {
    InterleaveHead([s[0]], keep', gaps');
    assert [s[0]] + s[1..] == s;
  }

  lemma SkipCaseJoin(s: string, keep': seq<string>)
    requires s != []
    requires !(IsCjk(s[0]) && 0 < LeadingSpace(s[1..]) && LeadingSpace(s[1..]) + 1 < |s|
               && IsCjk(s[LeadingSpace(s[1..]) + 1]))
    requires keep' != [] && BreakCjkSpaces(s[1..]) == Join("\n", keep')
    ensures BreakCjkSpaces(s) == Join("\n", SkipKeep(s, keep'))
  {
    assert BreakCjkSpaces(s) == [s[0]] + BreakCjkSpaces(s[1..]);
    JoinHead("\n", [s[0]], keep');
  }

  lemma SkipCaseChained(s: string, keep': seq<string>)
    requires s != []
    requires !(IsCjk(s[0]) && 0 < LeadingSpace(s[1..]) && LeadingSpace(s[1..]) + 1 < |s|
               && IsCjk(s[LeadingSpace(s[1..]) + 1]))
    requires keep' != [] && OnlyChainedGapsLeft(keep')
    requires |keep'[0]| <= |s[1..]| && keep'[0] == s[1..][..|keep'[0]|]
    ensures OnlyChainedGapsLeft(SkipKeep(s, keep'))
    ensures var keep := SkipKeep(s, keep'); |keep[0]| <= |s| && keep[0] == s[..|keep[0]|]
  {
    var keep := SkipKeep(s, keep');
    assert keep[0] == [s[0]] + keep'[0];
    assert keep[0] == s[..|keep[0]|];
    forall k, i, j | 0 <= k < |keep| && 0 <= i < j < |keep[k]| && GapIn(keep[k], i, j) ensures 0 < k && i == 0 {
      if k == 0 {
        if i == 0 {
          GapAtStart(s, keep[0], j);
        } else {
          GapShiftOne(s[0], keep'[0], i, j);
        }
      } else {
        assert keep[k] == keep'[k];
      }
    }
  }

  /** Chained gaps: in "一 二 三" the match for the first gap takes the
      ideograph 二, so the gap after it is not matched. The line keeps a
      whitespace run between two ideographs, and the clause-mode pieces are
      "一" and "二 三" rather than three. */
  lemma BreakSkipsChainedGap()
    ensures BreakCjkSpaces("一 二 三") == "一\n二 三"
    ensures GapIn(BreakCjkSpaces("一 二 三"), 2, 4)
    ensures Pieces("一 二 三", ModeClause) == ["一", "二 三"]
  {
    BreakThree('一', '二', '三');
    GapOfExample();
    PiecesThree('一', '二', '三');
  }

  lemma GapOfExample()
    ensures GapIn("一\n二 三", 2, 4)
  {
    assert IsSpace(' ');
  }

  /** Three ideographs with single spaces between them give two pieces. */
  lemma PiecesThree(a: char, b: char, c: char)
    requires IsCjk(a) && IsCjk(b) && IsCjk(c)
    ensures Pieces([a, ' ', b, ' ', c], ModeClause) == [[a], [b, ' ', c]]
  {
    BreakThree(a, b, c);
    LinesThree(a, b, c);
    PiecesOfLines(a, b, c);
  }

  lemma PiecesOfLines(a: char, b: char, c: char)
    requires IsCjk(a) && IsCjk(b) && IsCjk(c)
    ensures PiecesOf([[a], [b, ' ', c]], AllMarks) == [[a], [b, ' ', c]]
  {
    OneIdeographLine(a);
    SpacedLine(b, c);
    PiecesOfTwo([a], [b, ' ', c], AllMarks);
    PairAppend([a], [b, ' ', c]);
  }

  lemma OneIdeographLine(a: char)
    requires IsCjk(a)
    ensures LineContribution([a], AllMarks) == [[a]]
  {
    LineWithoutMarks([a]);
  }

  lemma SpacedLine(b: char, c: char)
    requires IsCjk(b) && IsCjk(c)
    ensures LineContribution([b, ' ', c], AllMarks) == [[b, ' ', c]]
  {
    LineWithoutMarks([b, ' ', c]);
  }

  lemma PairAppend<T>(x: T, y: T)
    ensures [x] + [y] == [x, y]
  {
  }

  lemma BreakThree(a: char, b: char, c: char)
    requires IsCjk(a) && IsCjk(b) && IsCjk(c)
    ensures BreakCjkSpaces([a, ' ', b, ' ', c]) == [a, '\n', b, ' ', c]
  {
    var s := [a, ' ', b, ' ', c];
    CjkNotSpace(b);
    assert IsSpace(' ');
    SpaceRunIs(s[1..], 1);
    GapUnfold(s, 1);
    assert s[3..] == [' ', c];
    BreakNonCjk([' ', c]);
    assert [' ', c][1..] == [c];
    BreakSingle(c);
  }

  lemma LinesThree(a: char, b: char, c: char)
    requires IsCjk(a) && IsCjk(b) && IsCjk(c)
    ensures SplitOn([a, '\n', b, ' ', c], iset{'\n'}) == [[a], [b, ' ', c]]
  {
    var broken := [a, '\n', b, ' ', c];
    CjkNotSpace(a);
    CjkNotSpace(b);
    CjkNotSpace(c);
    assert IsSpace('\n');
    SplitOnAt(broken, iset{'\n'}, 1);
    assert broken[..1] == [a] && broken[2..] == [b, ' ', c];
    SplitOnNone([b, ' ', c], iset{'\n'});
  }

  /** Under the lookahead substitution, a non-empty whitespace run between two
      ideographs becomes exactly one '\n', wherever it stands: the text on
      either side is substituted as if it stood alone. */
  lemma {:induction false} BreakAllGapBecomesNewline(x: string, gap: string, y: string)
    requires x != [] && IsCjk(x[|x| - 1])
    requires gap != [] && AllSpace(gap)
    requires y != [] && IsCjk(y[0])
    ensures BreakAllCjkSpaces(x + gap + y) == BreakAllCjkSpaces(x) + "\n" + BreakAllCjkSpaces(y)
    decreases |x|
  {
    if |x| == 1 {
      BreakAllLastGap(x[0], gap, y);
      BreakAllOne(x[0]);
      assert x == [x[0]];
    } else {
      CjkNotSpace(x[|x| - 1]);
      var k, h := BreakAllFront(x, gap + y);
      var rest := x[k..];
      assert rest[|rest| - 1] == x[|x| - 1];
      BreakAllGapBecomesNewline(rest, gap, y);
      AppendAssoc(x, gap, y);
      AppendAssoc(rest, gap, y);
      Regroup(h, BreakAllCjkSpaces(rest), "\n", BreakAllCjkSpaces(y));
    }
  }

  /** The first step of the scan over x is the same whatever follows x, as
      long as x ends in a character that is not whitespace: it emits h and
      moves on by k. */
  lemma BreakAllFront(x: string, z: string) returns (k: nat, h: string)
    requires |x| >= 2 && !IsSpace(x[|x| - 1])
    ensures 1 <= k < |x|
    ensures BreakAllCjkSpaces(x) == h + BreakAllCjkSpaces(x[k..])
    ensures BreakAllCjkSpaces(x + z) == h + BreakAllCjkSpaces(x[k..] + z)
  {
    LastNotSpace(x);
    var m := LeadingSpace(x[1..]);
    SameLeadingSpace(x, z);
    if IsCjk(x[0]) && m > 0 && IsCjk(x[m + 1]) {
      k, h := m + 1, [x[0]] + "\n";
      FrontGap(x, z, m);
    } else {
      k, h := 1, [x[0]];
      FrontPass(x, z, m);
    }
  }

  lemma FrontGap(x: string, z: string, m: nat)
    requires 0 < m && m + 1 < |x| && m == LeadingSpace(x[1..]) && IsCjk(x[0]) && IsCjk(x[m + 1])
    requires LeadingSpace((x + z)[1..]) == m && (x + z)[m + 1] == x[m + 1]
    ensures BreakAllCjkSpaces(x) == [x[0]] + "\n" + BreakAllCjkSpaces(x[m + 1..])
    ensures BreakAllCjkSpaces(x + z) == [x[0]] + "\n" + BreakAllCjkSpaces(x[m + 1..] + z)
  {
    BreakAllGapUnfold(x, m);
    BreakAllGapUnfold(x + z, m);
    DropAppend(x, z, m + 1);
  }

  lemma FrontPass(x: string, z: string, m: nat)
    requires m + 1 < |x| && m == LeadingSpace(x[1..])
    requires !(IsCjk(x[0]) && 0 < m && IsCjk(x[m + 1]))
    requires LeadingSpace((x + z)[1..]) == m && (x + z)[m + 1] == x[m + 1]
    ensures BreakAllCjkSpaces(x) == [x[0]] + BreakAllCjkSpaces(x[1..])
    ensures BreakAllCjkSpaces(x + z) == [x[0]] + BreakAllCjkSpaces(x[1..] + z)
  {
    BreakAllPass(x, m);
    BreakAllPass(x + z, m);
    DropAppend(x, z, 1);
  }

  /** The gap after a single ideograph. */
  lemma BreakAllLastGap(c: char, gap: string, y: string)
    requires IsCjk(c) && gap != [] && AllSpace(gap) && y != [] && IsCjk(y[0])
    ensures BreakAllCjkSpaces([c] + gap + y) == [c] + "\n" + BreakAllCjkSpaces(y)
  {
    var s := [c] + gap + y;
    var t := gap + y;
    assert s[1..] == t;
    assert forall k :: 0 <= k < |gap| ==> t[k] == gap[k];
    assert t[|gap|] == y[0];
    CjkNotSpace(y[0]);
    LeadingSpaceUnique(t, |gap|);
    assert s[|gap| + 1..] == y;
    BreakAllGapUnfold(s, |gap|);
  }

  /** Text ending in a non-whitespace character: the whitespace run after
      its first character stops inside it. */
  lemma LastNotSpace(x: string)
    requires |x| >= 2 && !IsSpace(x[|x| - 1])
    ensures LeadingSpace(x[1..]) + 1 < |x|
  {
    assert x[1..][|x| - 2] == x[|x| - 1];
  }

  /** Appending text after a run that stops inside x leaves the run unchanged. */
  lemma SameLeadingSpace(x: string, z: string)
    requires |x| >= 2 && LeadingSpace(x[1..]) + 1 < |x|
    ensures LeadingSpace((x + z)[1..]) == LeadingSpace(x[1..])
    ensures (x + z)[LeadingSpace(x[1..]) + 1] == x[LeadingSpace(x[1..]) + 1]
  {
    var m := LeadingSpace(x[1..]);
    var t := (x + z)[1..];
    assert forall k :: 0 <= k <= m ==> t[k] == x[1..][k];
    LeadingSpaceUnique(t, m);
  }

  /** Where no gap starts, the first character is kept and scanning moves on by one. */
  lemma BreakAllPass(s: string, n: nat)
    requires s != [] && n == LeadingSpace(s[1..])
    requires !(IsCjk(s[0]) && 0 < n && n + 1 < |s| && IsCjk(s[n + 1]))
    ensures BreakAllCjkSpaces(s) == [s[0]] + BreakAllCjkSpaces(s[1..])
  {
  }

  /** A character that is not an ideograph is kept and scanning moves on. */
  lemma BreakNonCjk(x: string)
    requires x != [] && !IsCjk(x[0])
    ensures BreakCjkSpaces(x) == [x[0]] + BreakCjkSpaces(x[1..])
  {
  }

  /** A single character is left as it is. */
  lemma BreakSingle(c: char)
    ensures BreakCjkSpaces([c]) == [c]
  {
    assert [c][1..] == [];
  }

  lemma PiecesOfTwo(a: string, b: string, delims: iset<char>)
    ensures PiecesOf([a, b], delims) == LineContribution(a, delims) + LineContribution(b, delims)
  {
    var lines := [a, b];
    PairPrefixes(a, b);
    PiecesOfStep(lines, 1, delims);
    PiecesOfStep(lines, 0, delims);
    AppendEmpty(LineContribution(a, delims));
  }

  lemma PairPrefixes<T>(a: T, b: T)
    ensures [a, b][..2] == [a, b] && [a, b][..1] == [a] && [a, b][..0] == [] && [a, b][1] == b
  {
  }

  /** A line with ideographs and spaces only, an ideograph at each end, is
      one piece. */
  lemma LineWithoutMarks(line: string)
    requires line != [] && IsCjk(line[0]) && IsCjk(line[|line| - 1])
    requires forall k :: 0 <= k < |line| ==> IsCjk(line[k]) || line[k] == ' '
    ensures LineContribution(line, AllMarks) == [line]
  {
    CjkNotSpace(line[0]);
    CjkNotSpace(line[|line| - 1]);
    assert StripLeft(line) == line;
    assert StripRight(line) == line;
    SplitOnNone(line, AllMarks);
    OneNonEmpty(line);
  }

  lemma OneNonEmpty(line: string)
    requires line != [] && Strip(line) == line
    ensures NonEmpty([line]) == [line] && StrippedNonBlank([line]) == [line]
  {
    assert [line][1..] == [];
  }

  /** The substitution as the comment at lines 132-135 describes it, "split on
      spaces/tabs that appear between Chinese characters": every whitespace
      run between two ideographs becomes a line break, chained runs included.
      The second ideograph is not consumed, as with a lookahead
      (?=[\u4e00-\u9fff]) in the pattern. */
  function BreakAllCjkSpaces(s: string): (r: string)
    ensures |r| <= |s|
    ensures s != [] ==> r != [] && r[0] == s[0]
    decreases |s|
  {
    if s == [] then ""
    else
      var n := LeadingSpace(s[1..]);
      if IsCjk(s[0]) && n > 0 && n + 1 < |s| && IsCjk(s[n + 1]) then
        [s[0]] + "\n" + BreakAllCjkSpaces(s[n + 1..])
      else
        [s[0]] + BreakAllCjkSpaces(s[1..])
  }

  /** The only whitespace between two ideographs in r is a single line break. */
  predicate OnlyLineBreakGaps(r: string)
  {
    forall i, j :: 0 <= i < j < |r| && GapIn(r, i, j) ==> j == i + 2 && r[i + 1] == '\n'
  }

  /** After the intended substitution, the only whitespace between two
      ideographs is a single line break. */
  lemma {:induction false} BreakAllLeavesNoGap(s: string)
    ensures OnlyLineBreakGaps(BreakAllCjkSpaces(s))
    decreases |s|
  {
    if s != [] {
      var n := LeadingSpace(s[1..]);
      if IsCjk(s[0]) && n > 0 && n + 1 < |s| && IsCjk(s[n + 1]) {
        BreakAllLeavesNoGap(s[n + 1..]);
        BreakAllGapUnfold(s, n);
        NewlineKeepsNoGap(s[0], BreakAllCjkSpaces(s[n + 1..]));
      } else {
        BreakAllLeavesNoGap(s[1..]);
        assert BreakAllCjkSpaces(s) == [s[0]] + BreakAllCjkSpaces(s[1..]);
        forall j | 0 <= j < |s| ensures !GapIn([s[0]] + BreakAllCjkSpaces(s[1..]), 0, j) {
          if GapIn([s[0]] + BreakAllCjkSpaces(s[1..]), 0, j) {
            GapMeansMatch(s, j);
            assert false;
          }
        }
        ConsKeepsNoGap(s[0], BreakAllCjkSpaces(s[1..]));
      }
    }
  }

  lemma NewlineKeepsNoGap(a: char, rest: string)
    requires rest != [] && IsCjk(rest[0]) && OnlyLineBreakGaps(rest)
    ensures OnlyLineBreakGaps([a] + "\n" + rest)
  {
    var r := [a] + "\n" + rest;
    assert r == [a, '\n'] + rest;
    forall i, j | 0 <= i < j < |r| && GapIn(r, i, j) ensures j == i + 2 && r[i + 1] == '\n' {
      if i == 0 {
        CjkNotSpace(rest[0]);
        assert r[2] == rest[0];
      } else if i >= 2 {
        GapShiftPair(a, '\n', rest, i, j);
        assert r[i + 1] == rest[i - 1];
      }
    }
  }

  lemma ConsKeepsNoGap(a: char, rest: string)
    requires OnlyLineBreakGaps(rest)
    requires forall j :: 0 <= j < |rest| + 1 ==> !GapIn([a] + rest, 0, j)
    ensures OnlyLineBreakGaps([a] + rest)
  {
    var r := [a] + rest;
    forall i, j | 0 <= i < j < |r| && GapIn(r, i, j) ensures j == i + 2 && r[i + 1] == '\n' {
      GapShiftOne(a, rest, i, j);
      assert r[i + 1] == rest[i];
    }
  }

  /** A gap past the first two characters is a gap of the text after them. */
  lemma GapShiftPair(a: char, b: char, t: string, i: nat, j: nat)
    requires i >= 2 && GapIn([a, b] + t, i, j)
    ensures GapIn(t, i - 2, j - 2)
  {
    var u := [a, b] + t;
    forall m | i - 2 < m < j - 2 ensures IsSpace(t[m]) {
      assert t[m] == u[m + 2];
    }
    assert t[i - 2] == u[i] && t[j - 2] == u[j];
  }

  /** A gap at the start of the result, where the first character is kept
      on its own, means a match starts at the first character of the text. */
  lemma GapMeansMatch(s: string, j: nat)
    requires s != []
    requires GapIn([s[0]] + BreakAllCjkSpaces(s[1..]), 0, j)
    ensures IsCjk(s[0]) && 0 < LeadingSpace(s[1..]) && LeadingSpace(s[1..]) + 1 < |s|
      && IsCjk(s[LeadingSpace(s[1..]) + 1])
  {
    var x := s[1..];
    var n := LeadingSpace(x);
    var q := BreakAllCjkSpaces(x[n..]);
    BreakAllKeepsLeadingSpace(x);
    AllSpacePrefix(x, n);
    GapAfterSpaces(s[0], x[..n], q, j);
    assert x[n..][0] == s[n + 1];
  }

  lemma AllSpacePrefix(x: string, n: nat)
    requires n == LeadingSpace(x)
    ensures AllSpace(x[..n])
  {
  }

  /** A gap from the first character over a whitespace run p ends where p
      ends, at an ideograph. */
  lemma GapAfterSpaces(a: char, p: string, q: string, j: nat)
    requires AllSpace(p) && (q == [] || !IsSpace(q[0]))
    requires GapIn([a] + (p + q), 0, j)
    ensures j == |p| + 1 && p != [] && q != [] && IsCjk(q[0])
  {
    var r := [a] + (p + q);
    if j <= |p| {
      assert r[j] == p[j - 1];
      CjkNotSpace(r[j]);
    } else {
      assert r[|p| + 1] == q[0];
    }
  }

  /** The intended substitution keeps leading whitespace as it is. */
  lemma {:induction false} BreakAllKeepsLeadingSpace(x: string)
    ensures var m := LeadingSpace(x); BreakAllCjkSpaces(x) == x[..m] + BreakAllCjkSpaces(x[m..])
    decreases |x|
  {
    var m := LeadingSpace(x);
    if m > 0 {
      SpaceRunAfter(x, m);
      BreakAllKeepsLeadingSpace(x[1..]);
      LeadingCase(x, m);
    } else {
      SliceAtZero(x, BreakAllCjkSpaces(x));
    }
  }

  lemma SliceAtZero<T>(x: seq<T>, y: seq<T>)
    ensures x[0..] == x && x[..0] + y == y
  {
  }

  lemma LeadingCase(x: string, m: nat)
    requires 0 < m && m == LeadingSpace(x)
    requires BreakAllCjkSpaces(x[1..]) == x[1..][..m - 1] + BreakAllCjkSpaces(x[1..][m - 1..])
    ensures BreakAllCjkSpaces(x) == x[..m] + BreakAllCjkSpaces(x[m..])
  {
    SpaceNotCjk(x[0]);
    BreakAllSkip(x);
    LeadingStep(x, m, BreakAllCjkSpaces(x[m..]), BreakAllCjkSpaces(x[1..]));
  }

  lemma LeadingStep(x: string, m: nat, b: string, tail: string)
    requires 0 < m <= |x|
    requires tail == x[1..][..m - 1] + BreakAllCjkSpaces(x[1..][m - 1..])
    requires b == BreakAllCjkSpaces(x[m..])
    ensures [x[0]] + tail == x[..m] + b
  {
    assert x[1..][m - 1..] == x[m..];
    assert x[1..][..m - 1] == x[1..m];
    AppendAssoc([x[0]], x[1..m], b);
    assert x[..m] == [x[0]] + x[1..m];
  }

  /** A character that is not an ideograph is kept and scanning moves on. */
  lemma BreakAllSkip(x: string)
    requires x != [] && !IsCjk(x[0])
    ensures BreakAllCjkSpaces(x) == [x[0]] + BreakAllCjkSpaces(x[1..])
  {
  }

  /** Whitespace is never an ideograph. */
  lemma SpaceNotCjk(c: char)
    requires IsSpace(c)
    ensures !IsCjk(c)
  {
    if IsCjk(c) {
      CjkNotSpace(c);
    }
  }

  lemma SpaceRunAfter(x: string, m: nat)
    requires 0 < m && m == LeadingSpace(x)
    ensures LeadingSpace(x[1..]) == m - 1
  {
    if m < |x| {
      SpaceRunIs(x[1..], m - 1);
    }
  }

  /** The intended substitution also changes nothing but whitespace. */
  lemma {:induction false} BreakAllKeepsContent(s: string)
    ensures Without(BreakAllCjkSpaces(s), Whitespace) == Without(s, Whitespace)
    decreases |s|
  {
    if s != [] {
      var n := LeadingSpace(s[1..]);
      if IsCjk(s[0]) && n > 0 && n + 1 < |s| && IsCjk(s[n + 1]) {
        BreakAllKeepsContent(s[n + 1..]);
        BreakAllGapStep(s, n);
      } else {
        BreakAllKeepsContent(s[1..]);
        BreakAllSkipStep(s);
      }
    }
  }

  lemma BreakAllGapUnfold(s: string, n: nat)
    requires 0 < n && n + 1 < |s| && n == LeadingSpace(s[1..])
    requires IsCjk(s[0]) && IsCjk(s[n + 1])
    ensures BreakAllCjkSpaces(s) == [s[0]] + "\n" + BreakAllCjkSpaces(s[n + 1..])
  {
  }

  lemma BreakAllGapStep(s: string, n: nat)
    requires 0 < n && n + 1 < |s| && n == LeadingSpace(s[1..])
    requires IsCjk(s[0]) && IsCjk(s[n + 1])
    requires Without(BreakAllCjkSpaces(s[n + 1..]), Whitespace) == Without(s[n + 1..], Whitespace)
    ensures Without(BreakAllCjkSpaces(s), Whitespace) == Without(s, Whitespace)
  {
    BreakAllGapUnfold(s, n);
    GapSource(s, n);
    var t := s[n + 1..];
    CjkNotSpace(s[n + 1]);
    KeepHead(t, Whitespace);
    assert t[1..] == s[n + 2..];
    WithoutNewlineAfter(s[0], BreakAllCjkSpaces(t));
  }

  /** An ideograph and a line break keep only the ideograph. */
  lemma WithoutNewlineAfter(a: char, rest: string)
    requires IsCjk(a)
    ensures Without([a] + "\n" + rest, Whitespace) == [a] + Without(rest, Whitespace)
  {
    var t := [a] + "\n" + rest;
    CjkNotSpace(a);
    assert IsSpace('\n');
    KeepHead(t, Whitespace);
    assert t[1..] == "\n" + rest;
    assert ("\n" + rest)[1..] == rest;
  }

  lemma BreakAllSkipStep(s: string)
    requires s != []
    requires !(IsCjk(s[0]) && 0 < LeadingSpace(s[1..]) && LeadingSpace(s[1..]) + 1 < |s|
               && IsCjk(s[LeadingSpace(s[1..]) + 1]))
    requires Without(BreakAllCjkSpaces(s[1..]), Whitespace) == Without(s[1..], Whitespace)
    ensures Without(BreakAllCjkSpaces(s), Whitespace) == Without(s, Whitespace)
  {
    assert BreakAllCjkSpaces(s) == [s[0]] + BreakAllCjkSpaces(s[1..]);
    WithoutCons(s[0], BreakAllCjkSpaces(s[1..]), Whitespace);
  }

  /** The intended substitution breaks every gap of "一 二 三". */
  lemma BreakAllChainedGaps()
    ensures BreakAllCjkSpaces("一 二 三") == "一\n二\n三"
  {
    BreakAllThree('一', '二', '三');
    FiveOfPairs('一', ' ', '二', ' ', '三');
    FiveOfPairs('一', '\n', '二', '\n', '三');
  }

  /** For any ideographs a, b, c: "a b c" becomes "a\nb\nc". */
  lemma BreakAllThree(a: char, b: char, c: char)
    requires IsCjk(a) && IsCjk(b) && IsCjk(c)
    ensures BreakAllCjkSpaces([a, ' '] + ([b, ' '] + [c])) == [a, '\n'] + ([b, '\n'] + [c])
  {
    BreakAllOne(c);
    BreakAllOneGap(b, [c]);
    BreakAllOneGap(a, [b, ' '] + [c]);
  }

  /** One space between an ideograph and a text that starts with one. */
  lemma BreakAllOneGap(a: char, t: string)
    requires IsCjk(a) && t != [] && IsCjk(t[0])
    ensures BreakAllCjkSpaces([a, ' '] + t) == [a, '\n'] + BreakAllCjkSpaces(t)
  {
    var s := [a, ' '] + t;
    ConsTwo(a, ' ', t);
    ConsOne(' ', t);
    DropTwo(a, ' ', t);
    assert IsSpace(' ');
    SpaceRunIs(s[1..], 1);
    BreakAllGapUnfold(s, 1);
    PairThen(a, '\n', BreakAllCjkSpaces(t));
  }

  lemma BreakAllOne(c: char)
    ensures BreakAllCjkSpaces([c]) == [c]
  {
    assert [c][1..] == [];
  }

  /** A gap inside a piece that starts the text starts a match there. */
  lemma GapAtStart(s: string, t: string, j: nat)
    requires |t| <= |s| && t == s[..|t|] && GapIn(t, 0, j)
    ensures IsCjk(s[0]) && 0 < LeadingSpace(s[1..]) && LeadingSpace(s[1..]) + 1 < |s|
      && IsCjk(s[LeadingSpace(s[1..]) + 1])
  {
    var u := s[1..];
    forall k | 0 <= k < j - 1 ensures IsSpace(u[k]) {
      assert u[k] == t[k + 1];
    }
    assert u[j - 1] == t[j];
    CjkNotSpace(t[j]);
    SpaceRunIs(u, j - 1);
  }

  lemma SpaceRunIs(u: string, a: nat)
    requires a < |u| && !IsSpace(u[a]) && forall k :: 0 <= k < a ==> IsSpace(u[k])
    ensures LeadingSpace(u) == a
  {
  }

  /** A gap past the first character is a gap of the text after it. */
  lemma GapShiftOne(c: char, t: string, i: nat, j: nat)
    requires i > 0 && GapIn([c] + t, i, j)
    ensures GapIn(t, i - 1, j - 1)
  {
    var u := [c] + t;
    assert forall m :: 0 <= m < |t| ==> t[m] == u[m + 1];
    forall m | i - 1 < m < j - 1 ensures IsSpace(t[m]) {
      assert t[m] == u[m + 1];
    }
  }

  lemma InterleaveHead(a: string, keep: seq<string>, gaps: seq<string>)
    requires |keep| == |gaps| + 1
    ensures Interleave([a + keep[0]] + keep[1..], gaps) == a + Interleave(keep, gaps)
  {
    var keep2 := [a + keep[0]] + keep[1..];
    if gaps != [] {
      assert keep2[1..] == keep[1..];
    }
  }

  lemma JoinHead(sep: string, a: string, ss: seq<string>)
    requires ss != []
    ensures Join(sep, [a + ss[0]] + ss[1..]) == a + Join(sep, ss)
  {
    var ss2 := [a + ss[0]] + ss[1..];
    if |ss| > 1 {
      assert ss2[1..] == ss[1..];
    }
  }

  /** Removing a superset of the whitespace ignores what stripping removed. */
  lemma StripIgnored(s: string, drop: iset<char>)
    requires Whitespace <= drop
    ensures Without(Strip(s), drop) == Without(s, drop)
  {
    StripKeepsContent(s);
    WithoutTwice(Strip(s), Whitespace, drop);
    WithoutTwice(s, Whitespace, drop);
  }

  lemma {:induction false} BreakKeepsContent(s: string)
    ensures Without(BreakCjkSpaces(s), Whitespace) == Without(s, Whitespace)
    decreases |s|
  {
    if s != [] {
      var n := LeadingSpace(s[1..]);
      if IsCjk(s[0]) && n > 0 && n + 1 < |s| && IsCjk(s[n + 1]) {
        BreakKeepsContent(s[n + 2..]);
        BreakGap(s, n);
      } else {
        BreakKeepsContent(s[1..]);
        BreakSkip(s);
      }
    }
  }

  /** One step of the substitution: a run of whitespace between two ideographs becomes a newline. */
  lemma BreakGap(s: string, n: nat)
    requires 0 < n && n + 1 < |s| && n == LeadingSpace(s[1..])
    requires IsCjk(s[0]) && IsCjk(s[n + 1])
    requires Without(BreakCjkSpaces(s[n + 2..]), Whitespace) == Without(s[n + 2..], Whitespace)
    ensures Without(BreakCjkSpaces(s), Whitespace) == Without(s, Whitespace)
  {
    GapUnfold(s, n);
    GapSource(s, n);
    WithoutGap(s[0], s[n + 1], BreakCjkSpaces(s[n + 2..]));
  }

  lemma GapUnfold(s: string, n: nat)
    requires 0 < n && n + 1 < |s| && n == LeadingSpace(s[1..])
    requires IsCjk(s[0]) && IsCjk(s[n + 1])
    ensures BreakCjkSpaces(s) == [s[0]] + "\n" + [s[n + 1]] + BreakCjkSpaces(s[n + 2..])
  {
  }

  lemma GapSource(s: string, n: nat)
    requires 0 < n && n + 1 < |s| && forall k :: 0 <= k < n ==> IsSpace(s[1..][k])
    requires IsCjk(s[0]) && IsCjk(s[n + 1])
    ensures Without(s, Whitespace) == [s[0]] + ([s[n + 1]] + Without(s[n + 2..], Whitespace))
  {
    var u, v := s[1..], s[n + 1..];
    CjkNotSpace(s[0]);
    CjkNotSpace(s[n + 1]);
    KeepHead(s, Whitespace);
    SkipSpaces(u, n);
    assert u[n..] == v;
    KeepHead(v, Whitespace);
    assert v[1..] == s[n + 2..];
  }

  lemma KeepHead(t: string, drop: iset<char>)
    requires t != [] && t[0] !in drop
    ensures Without(t, drop) == [t[0]] + Without(t[1..], drop)
  {
  }

  /** Leading whitespace leaves no trace once whitespace is removed. */
  lemma {:induction false} SkipSpaces(t: string, n: nat)
    requires n <= |t| && forall k :: 0 <= k < n ==> IsSpace(t[k])
    ensures Without(t, Whitespace) == Without(t[n..], Whitespace)
  {
    if n > 0 {
      SkipSpaces(t[1..], n - 1);
      assert t[1..][n - 1..] == t[n..];
    }
  }

  /** One step of the substitution where no match starts: the character is kept. */
  lemma BreakSkip(s: string)
    requires s != []
    requires !(IsCjk(s[0]) && 0 < LeadingSpace(s[1..]) && LeadingSpace(s[1..]) + 1 < |s|
               && IsCjk(s[LeadingSpace(s[1..]) + 1]))
    requires Without(BreakCjkSpaces(s[1..]), Whitespace) == Without(s[1..], Whitespace)
    ensures Without(BreakCjkSpaces(s), Whitespace) == Without(s, Whitespace)
  {
    assert BreakCjkSpaces(s) == [s[0]] + BreakCjkSpaces(s[1..]);
    WithoutCons(s[0], BreakCjkSpaces(s[1..]), Whitespace);
  }

  /** Two ideographs around a gap of whitespace keep only themselves. */
  lemma WithoutGap(a: char, b: char, rest: string)
    requires IsCjk(a) && IsCjk(b)
    ensures Without([a] + "\n" + [b] + rest, Whitespace) == [a] + ([b] + Without(rest, Whitespace))
  {
    var t := [a] + "\n" + [b] + rest;
    CjkNotSpace(a);
    CjkNotSpace(b);
    assert IsSpace('\n');
    KeepHead(t, Whitespace);
    assert t[1..][0] == '\n';
    assert t[1..][1..] == [b] + rest;
    KeepHead([b] + rest, Whitespace);
    assert ([b] + rest)[1..] == rest;
  }

  lemma {:induction false} StrippedNonBlankContent(ss: seq<string>)
    ensures Without(Concat(StrippedNonBlank(ss)), Ignored) == Without(Concat(ss), Ignored)
  {
    if ss != [] {
      StrippedNonBlankContent(ss[1..]);
      StripIgnored(ss[0], Ignored);
      var head := if Strip(ss[0]) == "" then [] else [Strip(ss[0])];
      ConcatAppend(head, StrippedNonBlank(ss[1..]));
      WithoutAppend(Concat(head), Concat(StrippedNonBlank(ss[1..])), Ignored);
      WithoutAppend(ss[0], Concat(ss[1..]), Ignored);
      if head != [] {
        assert Concat(head) == Strip(ss[0]);
      }
    }
  }

  lemma LineContributionContent(line: string, delims: iset<char>)
    requires delims <= Ignored
    ensures Without(Concat(LineContribution(line, delims)), Ignored) == Without(line, Ignored)
  {
    var segment := Strip(line);
    StripIgnored(line, Ignored);
    if segment != "" {
      var split := SplitOn(segment, delims);
      var sub := NonEmpty(split);
      SplitOnConcat(segment, delims);
      WithoutTwice(segment, delims, Ignored);
      if sub != [] {
        StrippedNonBlankContent(sub);
      } else {
        assert Concat([segment]) == segment;
      }
    }
  }

  lemma {:induction false} PiecesOfContent(lines: seq<string>, delims: iset<char>)
    requires delims <= Ignored
    ensures Without(Concat(PiecesOf(lines, delims)), Ignored) == Without(Concat(lines), Ignored)
  {
    if lines != [] {
      var init, line := lines[..|lines| - 1], lines[|lines| - 1];
      PiecesOfContent(init, delims);
      LineContributionContent(line, delims);
      ConcatSnoc(lines);
      ConcatAppend(PiecesOf(init, delims), LineContribution(line, delims));
      WithoutJoined(Concat(PiecesOf(init, delims)), Concat(LineContribution(line, delims)),
        Concat(init), line, Ignored);
    }
  }

  /** The pieces before balancing keep every character that is neither a
      delimiter nor whitespace, in order. */
  lemma PiecesContent(text: string, mode: string)
    ensures Without(Concat(Pieces(text, mode)), Ignored) == Without(text, Ignored)
  {
    var broken := BreakCjkSpaces(text);
    var lines := SplitOn(broken, iset{'\n'});
    PiecesOfContent(lines, Delimiters(mode));
    SplitOnConcat(broken, iset{'\n'});
    LinesIgnored(broken);
    BreakIgnored(text);
  }

  /** Splitting into lines loses only ignored characters. */
  lemma LinesIgnored(s: string)
    ensures Without(Without(s, iset{'\n'}), Ignored) == Without(s, Ignored)
  {
    assert iset{'\n'} <= Ignored;
    WithoutTwice(s, iset{'\n'}, Ignored);
  }

  /** The substitution changes only whitespace, which is ignored. */
  lemma BreakIgnored(s: string)
    ensures Without(BreakCjkSpaces(s), Ignored) == Without(s, Ignored)
  {
    BreakKeepsContent(s);
    assert Whitespace <= Ignored;
    WithoutTwice(BreakCjkSpaces(s), Whitespace, Ignored);
    WithoutTwice(s, Whitespace, Ignored);
  }

  /** Deleting every delimiter and all whitespace from the input and from
      the joined output of split_sentences gives the same text, in every
      mode: nothing else is dropped, added or reordered. */
  lemma SplitSentencesPreservesContent(text: string, mode: string, maxTokens: int)
    ensures Without(Concat(SplitSentences(text, mode, maxTokens)), Ignored) == Without(text, Ignored)
  {
    if mode == ModeRaw {
      assert Concat([text]) == text;
    } else {
      PiecesContent(text, mode);
      Balance.BalancePreservesContent(Pieces(text, mode), maxTokens);
    }
  }
}
