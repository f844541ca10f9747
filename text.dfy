/** Character classes and the string and list operations that the
    segmentation engine is built from: concatenation of a list of strings,
    removal of a set of characters, whitespace stripping, splitting on a set
    of separator characters and joining with a separator. */
module Text {

  /** A code point of the CJK Unified Ideographs block, U+4E00..U+9FFF. */
  predicate IsCjk(c: char) { '\U{4E00}' <= c <= '\U{9FFF}' }

  /** A character of the class [a-zA-Z]. */
  predicate IsAsciiLetter(c: char) { 'a' <= c <= 'z' || 'A' <= c <= 'Z' }

  /** A decimal digit; only the ASCII digits are modelled. */
  predicate IsDigit(c: char) { '0' <= c <= '9' }

  /** The characters that Python's str.isspace() and the regex class \s
      accept, by code-point range. */
  predicate IsSpace(c: char)
  {
    ('\t' <= c <= '\r') || ('\U{001C}' <= c <= ' ') || c == '\U{0085}' || c == '\U{00A0}' ||
    c == '\U{1680}' || ('\U{2000}' <= c <= '\U{200A}') || ('\U{2028}' <= c <= '\U{2029}') ||
    c == '\U{202F}' || c == '\U{205F}' || c == '\U{3000}'
  }

  /** s neither starts nor ends with whitespace. */
  predicate Trimmed(s: string)
  {
    s == [] || (!IsSpace(s[0]) && !IsSpace(s[|s| - 1]))
  }

  /** Digits are not whitespace. */
  lemma DigitNotSpace(c: char)
    requires IsDigit(c)
    ensures !IsSpace(c)
  {
  }

  /** Ideographs are not whitespace. */
  lemma CjkNotSpace(c: char)
    requires IsCjk(c)
    ensures !IsSpace(c)
  {
  }

  const Whitespace: iset<char> := iset c | IsSpace(c)

  /** The line boundaries of Python's str.splitlines(), by code-point range
      ("\r\n" counts as one boundary). */
  predicate IsLineBreak(c: char)
  {
    ('\n' <= c <= '\r') || ('\U{001C}' <= c <= '\U{001E}') || c == '\U{0085}' ||
    ('\U{2028}' <= c <= '\U{2029}')
  }

  const LineBreaks: iset<char> := iset c | IsLineBreak(c)

  /** Every line boundary is whitespace. */
  lemma LineBreaksAreSpace()
    ensures LineBreaks <= Whitespace
  {
  }

  lemma AppendEmpty<T>(s: seq<T>)
    ensures s + [] == s && [] + s == s
  {
  }

  lemma TakeAll<T>(s: seq<T>)
    ensures s[..|s|] == s
  {
  }

  lemma AppendAssoc<T>(a: seq<T>, b: seq<T>, c: seq<T>)
    ensures a + (b + c) == (a + b) + c
  {
  }

  /** A prefix one longer; generic, so no element is compared by content. */
  lemma TakeOneMore<T>(s: seq<T>, i: nat)
    requires i < |s|
    ensures s[..i + 1] == s[..i] + [s[i]]
  {
  }

  lemma ConsOne<T>(x: T, rest: seq<T>)
    ensures ([x] + rest)[0] == x && ([x] + rest)[1..] == rest
  {
  }

  lemma ConsTwo<T>(x: T, y: T, rest: seq<T>)
    ensures ([x, y] + rest)[0] == x && ([x, y] + rest)[1..] == [y] + rest
  {
  }

  lemma DropTwo<T>(x: T, y: T, rest: seq<T>)
    ensures ([x, y] + rest)[2..] == rest
  {
  }

  lemma PairThen<T>(x: T, y: T, rest: seq<T>)
    ensures [x] + [y] + rest == [x, y] + rest
  {
  }

  lemma FiveOfPairs<T>(a: T, b: T, c: T, d: T, e: T)
    ensures [a, b] + ([c, d] + [e]) == [a, b, c, d, e]
  {
  }

  lemma SnocParts<T>(s: seq<T>, x: T)
    ensures (s + [x])[..|s|] == s && (s + [x])[|s|] == x
  {
  }

  lemma LastTwo<T>(s: seq<T>)
    requires |s| >= 2
    ensures s == s[..|s| - 2] + [s[|s| - 2], s[|s| - 1]]
  {
  }

  lemma Regroup<T>(h: seq<T>, p: seq<T>, q: seq<T>, r: seq<T>)
    ensures h + (p + q + r) == (h + p) + q + r
  {
  }

  lemma DropAppend<T>(x: seq<T>, z: seq<T>, k: nat)
    requires k <= |x|
    ensures (x + z)[k..] == x[k..] + z
  {
  }

  lemma NotInAppend<T>(x: T, a: seq<T>, b: seq<T>)
    requires x !in a && x !in b
    ensures x !in a + b
  {
  }

  lemma InitLast<T>(s: seq<T>)
    requires s != []
    ensures s == s[..|s| - 1] + [s[|s| - 1]]
  {
  }

  lemma SliceAround<T>(s: seq<T>, r: seq<T>, i: nat, j: nat)
    requires i <= j <= |s| && r == s[i..j]
    ensures s == s[..i] + r + s[j..]
  {
    SliceSplit(s, i, j);
  }

  lemma SliceSplit<T>(s: seq<T>, i: nat, j: nat)
    requires i <= j <= |s|
    ensures s[..i] + s[i..j] + s[j..] == s
  {
    assert s[..i] + s[i..j] == s[..j];
  }

  /** "".join(ss) */
  function Concat(ss: seq<string>): string
  {
    if ss == [] then "" else ss[0] + Concat(ss[1..])
  }

  /** s ends with t. */
  predicate EndsWith(s: string, t: string)
  {
    |t| <= |s| && s[|s| - |t|..] == t
  }

  lemma PrefixAppend<T>(p: seq<T>, q: seq<T>)
    ensures p <= p + q
  {
    assert (p + q)[..|p|] == p;
  }

  /** "".join distributes over list concatenation; with ConcatSingle, and
      the empty join being "", this pins down every join. */
  lemma {:induction false} ConcatAppend(a: seq<string>, b: seq<string>)
    ensures Concat(a + b) == Concat(a) + Concat(b)
  {
    if a == [] {
      assert a + b == b;
    } else {
      assert (a + b)[1..] == a[1..] + b;
      ConcatAppend(a[1..], b);
    }
  }

  lemma ConcatSingle(s: string)
    ensures Concat([s]) == s
  {
    assert [s][1..] == [];
  }

  lemma ConcatPair(a: string, b: string)
    ensures Concat([a, b]) == a + b
  {
    assert [a, b][1..] == [b];
    ConcatSingle(b);
  }

  lemma ConcatSnoc(ss: seq<string>)
    requires ss != []
    ensures Concat(ss) == Concat(ss[..|ss| - 1]) + ss[|ss| - 1]
  {
    assert ss == ss[..|ss| - 1] + [ss[|ss| - 1]];
    ConcatAppend(ss[..|ss| - 1], [ss[|ss| - 1]]);
    ConcatSingle(ss[|ss| - 1]);
  }

  /** The characters of s that are not in drop, in order. */
  function Without(s: string, drop: iset<char>): (r: string)
    ensures |r| <= |s|
  {
    if s == [] then "" else (if s[0] in drop then "" else [s[0]]) + Without(s[1..], drop)
  }

  lemma WithoutCons(c: char, rest: string, drop: iset<char>)
    ensures Without([c] + rest, drop) == (if c in drop then "" else [c]) + Without(rest, drop)
  {
    assert ([c] + rest)[1..] == rest;
  }

  lemma {:induction false} WithoutAppend(a: string, b: string, drop: iset<char>)
    ensures Without(a + b, drop) == Without(a, drop) + Without(b, drop)
  {
    if a == [] {
      assert a + b == b;
    } else {
      assert (a + b)[1..] == a[1..] + b;
      WithoutAppend(a[1..], b, drop);
    }
  }

  /** Equal after removal, piece by piece, means equal after removal when joined. */
  lemma WithoutJoined(a1: string, a2: string, b1: string, b2: string, drop: iset<char>)
    requires Without(a1, drop) == Without(b1, drop) && Without(a2, drop) == Without(b2, drop)
    ensures Without(a1 + a2, drop) == Without(b1 + b2, drop)
  {
    WithoutAppend(a1, a2, drop);
    WithoutAppend(b1, b2, drop);
  }

  /** Removing a set of characters, then a larger one, is removing the larger one. */
  lemma {:induction false} WithoutTwice(s: string, d1: iset<char>, d2: iset<char>)
    requires d1 <= d2
    ensures Without(Without(s, d1), d2) == Without(s, d2)
  {
    if s != [] {
      WithoutTwice(s[1..], d1, d2);
      WithoutAppend(if s[0] in d1 then "" else [s[0]], Without(s[1..], d1), d2);
    }
  }

  lemma {:induction false} WithoutAll(s: string, drop: iset<char>)
    requires forall c :: c in s ==> c in drop
    ensures Without(s, drop) == ""
  {
    if s != [] {
      assert s[0] in s;
      assert forall c :: c in s[1..] ==> c in s;
      WithoutAll(s[1..], drop);
    }
  }

  lemma {:induction false} WithoutEmpty(s: string, drop: iset<char>)
    requires Without(s, drop) == ""
    ensures forall c :: c in s ==> c in drop
  {
    if s != [] {
      WithoutEmpty(s[1..], drop);
      assert forall c :: c in s ==> c == s[0] || c in s[1..];
    }
  }

  /** Removing characters from every string of a list and from their concatenation agree. */
  lemma {:induction false} WithoutConcat(ss: seq<string>, drop: iset<char>)
    ensures Without(Concat(ss), drop) == Concat(seq(|ss|, i requires 0 <= i < |ss| => Without(ss[i], drop)))
  {
    if ss != [] {
      WithoutAppend(ss[0], Concat(ss[1..]), drop);
      WithoutConcat(ss[1..], drop);
      var m := seq(|ss|, i requires 0 <= i < |ss| => Without(ss[i], drop));
      assert m[1..] == seq(|ss[1..]|, i requires 0 <= i < |ss[1..]| => Without(ss[1..][i], drop));
    }
  }

  /** str.lstrip(): drop leading whitespace. */
  function StripLeft(s: string): (r: string)
    ensures |r| <= |s| && r == s[|s| - |r|..]
    ensures forall k :: 0 <= k < |s| - |r| ==> IsSpace(s[k])
    ensures r == [] || !IsSpace(r[0])
  {
    if s != [] && IsSpace(s[0]) then StripLeft(s[1..]) else s
  }

  /** str.rstrip(): drop trailing whitespace. */
  function StripRight(s: string): (r: string)
    ensures |r| <= |s| && r == s[..|r|]
    ensures forall k :: |r| <= k < |s| ==> IsSpace(s[k])
    ensures r == [] || !IsSpace(r[|r| - 1])
  {
    if s != [] && IsSpace(s[|s| - 1]) then StripRight(s[..|s| - 1]) else s
  }

  /** The number of leading whitespace characters of s. */
  function LeadingSpace(s: string): (n: nat)
    ensures n <= |s| && (forall k :: 0 <= k < n ==> IsSpace(s[k]))
    ensures n < |s| ==> !IsSpace(s[n])
  {
    |s| - |StripLeft(s)|
  }

  /** The leading whitespace run is the one that ends at the first non-whitespace character. */
  lemma LeadingSpaceUnique(s: string, m: nat)
    requires m <= |s| && (forall k :: 0 <= k < m ==> IsSpace(s[k]))
    requires m < |s| ==> !IsSpace(s[m])
    ensures LeadingSpace(s) == m
  {
  }

  /** str.strip(): the result is a slice of s with whitespace only outside it
      and no whitespace at either end. */
  function Strip(s: string): (r: string)
    ensures LeadingSpace(s) + |r| <= |s|
    ensures r == s[LeadingSpace(s)..LeadingSpace(s) + |r|]
    ensures forall k :: LeadingSpace(s) + |r| <= k < |s| ==> IsSpace(s[k])
    ensures r == [] || (!IsSpace(r[0]) && !IsSpace(r[|r| - 1]))
  {
    StripRight(StripLeft(s))
  }

  /** What strip() returns has no whitespace at either end. */
  lemma StripTrimmed(s: string)
    ensures Trimmed(Strip(s))
  {
  }

  /** Stripping keeps every character that is not whitespace. */
  lemma {:induction false} StripKeepsContent(s: string)
    ensures Without(Strip(s), Whitespace) == Without(s, Whitespace)
  {
    var a, b := StripParts(s);
    SpacesOnly(a);
    SpacesOnly(b);
    WithoutBetween(a, Strip(s), b, Whitespace);
  }

  /** Stripping adds no character. */
  lemma StripChars(s: string)
    ensures forall c :: c in Strip(s) ==> c in s
  {
    var i := LeadingSpace(s);
    SliceChars(s, i, i + |Strip(s)|);
  }

  lemma SliceChars(s: string, i: nat, j: nat)
    requires i <= j <= |s|
    ensures forall c :: c in s[i..j] ==> c in s
  {
    assert s == s[..i] + s[i..j] + s[j..];
  }

  predicate AllSpace(t: string)
  {
    forall k :: 0 <= k < |t| ==> IsSpace(t[k])
  }

  lemma StripParts(s: string) returns (a: string, b: string)
    ensures s == a + Strip(s) + b
    ensures AllSpace(a) && AllSpace(b)
  {
    var i := LeadingSpace(s);
    var r := Strip(s);
    a, b := s[..i], s[i + |r|..];
    PartsAround(s, r, i);
  }

  /** A slice with only whitespace on either side cuts s into three parts. */
  lemma PartsAround(s: string, r: string, i: nat)
    requires i + |r| <= |s| && r == s[i..i + |r|]
    requires forall k :: 0 <= k < i ==> IsSpace(s[k])
    requires forall k :: i + |r| <= k < |s| ==> IsSpace(s[k])
    ensures s == s[..i] + r + s[i + |r|..]
    ensures AllSpace(s[..i]) && AllSpace(s[i + |r|..])
  {
    var j := i + |r|;
    SliceAround(s, r, i, j);
    forall k | 0 <= k < |s[j..]|
      ensures IsSpace(s[j..][k])
    {
      assert s[j..][k] == s[j + k];
    }
  }

  lemma {:induction false} SpacesOnly(s: string)
    requires AllSpace(s)
    ensures Without(s, Whitespace) == ""
  {
    if s != [] {
      assert s[0] in Whitespace;
      SpacesOnly(s[1..]);
    }
  }

  lemma WithoutBetween(a: string, r: string, b: string, drop: iset<char>)
    requires Without(a, drop) == "" && Without(b, drop) == ""
    ensures Without(a + r + b, drop) == Without(r, drop)
  {
    WithoutAppend(a + r, b, drop);
    WithoutAppend(a, r, drop);
  }

  /** Splitting at every character of seps, keeping empty pieces: the shape of
      both str.split(sep) with a one-character separator and re.split with a
      one-character class. */
  function SplitOn(s: string, seps: iset<char>): (r: seq<string>)
    ensures |r| >= 1
    ensures forall k :: 0 <= k < |r| ==> forall c :: c in r[k] ==> c in s && c !in seps
  {
    if s == [] then [""]
    else
      var rest := SplitOn(s[1..], seps);
      assert forall c :: c in s[1..] ==> c in s;
      if s[0] in seps then [""] + rest
      else
        var r := [[s[0]] + rest[0]] + rest[1..];
        assert forall k :: 1 <= k < |r| ==> r[k] == rest[k];
        r
  }

  /** A text without separators is one piece. */
  lemma {:induction false} SplitOnNone(s: string, seps: iset<char>)
    requires forall k :: 0 <= k < |s| ==> s[k] !in seps
    ensures SplitOn(s, seps) == [s]
  {
    if s != [] {
      SplitOnNone(s[1..], seps);
      assert [s[0]] + s[1..] == s;
    }
  }

  /** The first piece ends at the first separator. */
  lemma {:induction false} SplitOnAt(s: string, seps: iset<char>, n: nat)
    requires n < |s| && s[n] in seps && forall k :: 0 <= k < n ==> s[k] !in seps
    ensures SplitOn(s, seps) == [s[..n]] + SplitOn(s[n + 1..], seps)
  {
    if n > 0 {
      SplitOnAt(s[1..], seps, n - 1);
      assert s[1..][n..] == s[n + 1..];
      assert [s[0]] + s[1..][..n - 1] == s[..n];
    }
  }

  /** Splitting loses exactly the separators. */
  lemma {:induction false} SplitOnConcat(s: string, seps: iset<char>)
    ensures Concat(SplitOn(s, seps)) == Without(s, seps)
  {
    if s != [] {
      var rest := SplitOn(s[1..], seps);
      SplitOnConcat(s[1..], seps);
      assert rest == [rest[0]] + rest[1..];
      ConcatAppend([rest[0]], rest[1..]);
      if s[0] !in seps {
        ConcatAppend([[s[0]] + rest[0]], rest[1..]);
      }
    }
  }

  /** sep.join(ss): it starts with the first part. */
  function Join(sep: string, ss: seq<string>): (r: string)
    ensures ss != [] ==> ss[0] <= r
  {
    if ss == [] then ""
    else if |ss| == 1 then ss[0]
    else
      var rest := Join(sep, ss[1..]);
      JoinFirst(ss[0], sep, rest);
      ss[0] + sep + rest
  }

  lemma JoinFirst(first: string, sep: string, rest: string)
    ensures first <= first + sep + rest
  {
    PrefixAppend(first, sep + rest);
    assert first + sep + rest == first + (sep + rest);
  }

  /** Joining the pieces of a one-character split with that character gives back the text. */
  lemma {:induction false} JoinSplitOn(s: string, sep: char)
    ensures Join([sep], SplitOn(s, iset{sep})) == s
  {
    if s != [] {
      var rest := SplitOn(s[1..], iset{sep});
      JoinSplitOn(s[1..], sep);
      if s[0] != sep {
        if |rest| > 1 {
          assert ([[s[0]] + rest[0]] + rest[1..])[1..] == rest[1..];
        }
      }
    }
  }

  /** Every piece is the empty string or free of characters that are not in chars. */
  lemma {:induction false} JoinChars(sep: string, ss: seq<string>, chars: iset<char>)
    requires forall c :: c in sep ==> c in chars
    requires forall k, c :: 0 <= k < |ss| && c in ss[k] ==> c in chars
    ensures forall c :: c in Join(sep, ss) ==> c in chars
  {
    if |ss| > 1 {
      JoinChars(sep, ss[1..], chars);
      assert forall c :: c in ss[0] ==> c in chars;
    }
  }

  /** The strings of ss that are not empty, in order. */
  function NonEmpty(ss: seq<string>): (r: seq<string>)
    ensures |r| <= |ss|
    ensures forall k :: 0 <= k < |r| ==> r[k] != "" && r[k] in ss
    ensures Concat(r) == Concat(ss)
  {
    if ss == [] then []
    else if ss[0] == "" then NonEmpty(ss[1..])
    else [ss[0]] + NonEmpty(ss[1..])
  }
}
