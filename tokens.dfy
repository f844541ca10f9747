/** The token estimate of count_tokens: one token per CJK ideograph and one
    and a half per run of ASCII letters, the word share truncated. */
module Tokens {
  import opened Text

  /** len(re.findall(r"[一-鿿]", s)) */
  function CjkCount(s: string): (n: nat)
    ensures n <= |s|
  {
    if s == [] then 0 else (if IsCjk(s[0]) then 1 else 0) + CjkCount(s[1..])
  }

  /** The length of the longest prefix of s made of ASCII letters. */
  function LetterPrefix(s: string): (n: nat)
    ensures n <= |s|
    ensures forall k :: 0 <= k < n ==> IsAsciiLetter(s[k])
    ensures n < |s| ==> !IsAsciiLetter(s[n])
  {
    if s != [] && IsAsciiLetter(s[0]) then 1 + LetterPrefix(s[1..]) else 0
  }

  /** len(re.findall(r"[a-zA-Z]+", s)): scan left to right, and at each letter
      consume the longest run of letters as one match. */
  function LetterRuns(s: string): (n: nat)
    ensures 2 * n <= |s| + 1
    ensures s != [] && !IsAsciiLetter(s[0]) ==> 2 * n <= |s|
    decreases |s|
  {
    if s == [] then 0
    else if !IsAsciiLetter(s[0]) then LetterRuns(s[1..])
    else 1 + LetterRuns(s[LetterPrefix(s)..])
  }

  /** count_tokens: the CJK count plus int(words * 1.5), with the float product
      taken as an exact real and int() truncating toward zero. */
  function CountTokens(s: string): (r: nat)
    ensures r == CjkCount(s) + 3 * LetterRuns(s) / 2
    ensures CjkCount(s) <= r
  {
    CjkCount(s) + (LetterRuns(s) as real * 1.5).Floor
  }

  /** A second reading of "number of maximal letter runs": the number of
      positions holding a letter whose left neighbour is not one (prev tells
      whether the character before s is a letter). */
  function RunStarts(s: string, prev: bool): nat
  {
    if s == [] then 0
    else (if IsAsciiLetter(s[0]) && !prev then 1 else 0) + RunStarts(s[1..], IsAsciiLetter(s[0]))
  }

  /** Inside a run of letters no new run starts. */
  lemma {:induction false} RunStartsInsideRun(s: string, n: nat)
    requires n <= |s| && forall k :: 0 <= k < n ==> IsAsciiLetter(s[k])
    ensures RunStarts(s, true) == RunStarts(s[n..], true)
  {
    if n > 0 {
      RunStartsInsideRun(s[1..], n - 1);
      assert s[1..][n - 1..] == s[n..];
    }
  }

  /** After a non-letter the previous character does not matter. */
  lemma RunStartsAfterNonLetter(s: string)
    requires s == [] || !IsAsciiLetter(s[0])
    ensures RunStarts(s, true) == RunStarts(s, false)
  {
  }

  /** The findall scan counts exactly the starts of maximal letter runs. */
  lemma {:induction false} LetterRunsAreRunStarts(s: string)
    ensures LetterRuns(s) == RunStarts(s, false)
    decreases |s|
  {
    if s != [] {
      if !IsAsciiLetter(s[0]) {
        LetterRunsAreRunStarts(s[1..]);
      } else {
        var n := LetterPrefix(s);
        LetterRunsAreRunStarts(s[n..]);
        RunStartsInsideRun(s[1..], n - 1);
        assert s[1..][n - 1..] == s[n..];
        RunStartsAfterNonLetter(s[n..]);
      }
    }
  }

  /** Joining two strings merges the last run of the first with the first
      run of the second when both touch the seam. */
  lemma {:induction false} RunStartsAppend(a: string, b: string, prev: bool)
    ensures RunStarts(a + b, prev) ==
      RunStarts(a, prev) + RunStarts(b, if a == [] then prev else IsAsciiLetter(a[|a| - 1]))
  {
    if a == [] {
      assert a + b == b;
    } else {
      assert (a + b)[1..] == a[1..] + b;
      RunStartsAppend(a[1..], b, IsAsciiLetter(a[0]));
    }
  }

  /** A letter right after a letter does not start a run. */
  lemma RunStartsAfterLetter(s: string)
    ensures RunStarts(s, true) ==
      RunStarts(s, false) - (if s != [] && IsAsciiLetter(s[0]) then 1 else 0)
  {
  }

  /** The number of words of a concatenation is the sum of the parts' words,
      or one less when a letter run crosses the seam. */
  lemma LetterRunsAppend(a: string, b: string)
    ensures LetterRuns(a + b) ==
      LetterRuns(a) + LetterRuns(b) -
      (if a != [] && b != [] && IsAsciiLetter(a[|a| - 1]) && IsAsciiLetter(b[0]) then 1 else 0)
  {
    LetterRunsAreRunStarts(a + b);
    LetterRunsAreRunStarts(a);
    LetterRunsAreRunStarts(b);
    RunStartsAppend(a, b, false);
    RunStartsAfterLetter(b);
  }

  lemma {:induction false} CjkCountAppend(a: string, b: string)
    ensures CjkCount(a + b) == CjkCount(a) + CjkCount(b)
  {
    if a == [] {
      assert a + b == b;
    } else {
      assert (a + b)[1..] == a[1..] + b;
      CjkCountAppend(a[1..], b);
    }
  }

  /** sum(count_tokens(s) for s in ss): the per-segment sum that the balancer
      compares with its ceiling; no part counts more than the sum. */
  function TokenSum(ss: seq<string>): (n: nat)
    ensures forall k :: 0 <= k < |ss| ==> CountTokens(ss[k]) <= n
  {
    if ss == [] then 0 else CountTokens(ss[0]) + TokenSum(ss[1..])
  }

  lemma {:induction false} TokenSumAppend(a: seq<string>, b: seq<string>)
    ensures TokenSum(a + b) == TokenSum(a) + TokenSum(b)
  {
    if a == [] {
      assert a + b == b;
    } else {
      assert (a + b)[1..] == a[1..] + b;
      TokenSumAppend(a[1..], b);
    }
  }

  /** Twice the untruncated estimate, 2 * cjk + 3 * words. */
  function Weight(s: string): nat
  {
    2 * CjkCount(s) + 3 * LetterRuns(s)
  }

  function WeightSum(ss: seq<string>): nat
  {
    if ss == [] then 0 else Weight(ss[0]) + WeightSum(ss[1..])
  }

  lemma {:induction false} WeightOfConcat(ss: seq<string>)
    ensures Weight(Concat(ss)) <= WeightSum(ss)
  {
    if ss != [] {
      WeightOfConcat(ss[1..]);
      CjkCountAppend(ss[0], Concat(ss[1..]));
      LetterRunsAppend(ss[0], Concat(ss[1..]));
    }
  }

  lemma {:induction false} WeightSumBound(ss: seq<string>)
    ensures WeightSum(ss) <= 2 * TokenSum(ss) + |ss|
  {
    if ss != [] {
      WeightSumBound(ss[1..]);
    }
  }

  /** The estimate of a concatenation can exceed the sum of the parts'
      estimates, by at most half a token per part: each part's truncation
      may drop half a token that the joined string keeps. */
  lemma TokensOfConcat(ss: seq<string>)
    ensures CountTokens(Concat(ss)) <= TokenSum(ss) + |ss| / 2
  {
    WeightOfConcat(ss);
    WeightSumBound(ss);
  }

  /** The values the repository's tests expect. */
  lemma CountTokensChinese()
    ensures CountTokens("你好") == 2
  {
  }

  lemma CountTokensFiveIdeographs()
    ensures CountTokens("一二三四五") == 5
  {
  }

  /** One word: int(1 * 1.5) == 1 token, as for "hello". */
  lemma CountTokensOneWord(w: string)
    requires IsWord(w)
    ensures CountTokens(w) == 1
  {
    OneWord(w);
  }

  lemma CountTokensHello()
    ensures CountTokens("hello") == 1
  {
    CountTokensOneWord("hello");
  }

  /** Two words separated by a space: int(2 * 1.5) == 3 tokens, as for "hello world". */
  lemma {:induction false} CountTokensTwoWords(a: string, b: string)
    requires IsWord(a) && IsWord(b)
    ensures CountTokens(a + " " + b) == 3
  {
    OneWord(a);
    OneWord(b);
    LetterRunsAppend(a, " ");
    LetterRunsAppend(a + " ", b);
    CjkCountAppend(a, " ");
    CjkCountAppend(a + " ", b);
  }

  lemma CountTokensHelloWorld()
    ensures CountTokens("hello world") == 3
  {
    assert "hello world" == "hello" + " " + "world";
    CountTokensTwoWords("hello", "world");
  }

  predicate IsWord(w: string)
  {
    w != [] && forall k :: 0 <= k < |w| ==> IsAsciiLetter(w[k])
  }

  lemma {:induction false} OneWord(w: string)
    requires IsWord(w)
    ensures LetterRuns(w) == 1 && CjkCount(w) == 0
  {
    LetterRunsAreRunStarts(w);
    RunStartsInsideRun(w[1..], |w| - 1);
    NoCjk(w);
  }

  lemma {:induction false} NoCjk(w: string)
    requires forall k :: 0 <= k < |w| ==> IsAsciiLetter(w[k])
    ensures CjkCount(w) == 0
  {
    if w != [] {
      NoCjk(w[1..]);
    }
  }

  lemma CountTokensMixed()
    ensures CountTokens("你好world") == 3
  {
    assert "你好world"[1..] == "好world";
    assert "好world"[1..] == "world";
    assert LetterPrefix("world") == 5;
    assert "world"[5..] == "";
  }
}
