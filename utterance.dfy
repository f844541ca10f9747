/** generate_utt_id: the basename, an underscore and the index formatted with
    the "05d" spec (zero-padded to width five, the sign counted in the width). */
module Utterance {
  import opened Text
  import opened Decimal

  /** format(index, "05d") */
  function FormatIndex(index: int): (s: string)
    ensures |s| == if index >= 0 then Max(5, |Show(index)|) else Max(5, |Show(-index)| + 1)
    ensures index >= 0 ==> AllDigits(s) && Read(s) == index
    ensures index < 0 ==> s[0] == '-' && AllDigits(s[1..]) && Read(s[1..]) == -index
  {
    if index >= 0 then
      ReadShow(index);
      ReadZeroPad(Show(index), 5);
      ZeroPad(Show(index), 5)
    else
      ReadShow(-index);
      ReadZeroPad(Show(-index), 4);
      var s := "-" + ZeroPad(Show(-index), 4);
      assert s[1..] == ZeroPad(Show(-index), 4);
      s
  }

  function Max(a: int, b: int): int
  {
    if a < b then b else a
  }

  /** Digits, or a minus followed by digits. */
  predicate IsIndexText(s: string)
  {
    s != [] && (if s[0] == '-' then AllDigits(s[1..]) else AllDigits(s))
  }

  /** The index a formatted index denotes: the inverse of FormatIndex. */
  function ParseIndex(s: string): int
    requires IsIndexText(s)
  {
    if s[0] == '-' then -(Read(s[1..]) as int) else Read(s)
  }

  lemma FormatIndexRoundTrip(index: int)
    ensures ParseIndex(FormatIndex(index)) == index
  {
  }

  /** generate_utt_id(basename, index) */
  function UttId(basename: string, index: int): (id: string)
    ensures |id| >= |basename| + 6
    ensures id[..|basename| + 1] == basename + "_"
    ensures IsIndexText(id[|basename| + 1..]) && ParseIndex(id[|basename| + 1..]) == index
  {
    var id := basename + "_" + FormatIndex(index);
    assert id[..|basename| + 1] == basename + "_";
    assert id[|basename| + 1..] == FormatIndex(index);
    FormatIndexRoundTrip(index);
    id
  }

  /** Within one basename, different indices give different ids. */
  lemma UttIdInjective(basename: string, i: int, j: int)
    requires UttId(basename, i) == UttId(basename, j)
    ensures i == j
  {
    var n := |basename| + 1;
    assert UttId(basename, i)[n..] == FormatIndex(i);
    assert UttId(basename, j)[n..] == FormatIndex(j);
    FormatIndexRoundTrip(i);
    FormatIndexRoundTrip(j);
  }

  /** Indices 0..99999 take exactly five digits. */
  lemma FormatIndexWidth(index: int)
    requires 0 <= index <= 99999
    ensures |FormatIndex(index)| == 5 && AllDigits(FormatIndex(index))
  {
    ShowLength(index, 5);
  }

  /** A number below 10^w has at most w digits (w >= 1, since zero has one). */
  lemma {:induction false} ShowLength(n: nat, w: nat)
    requires w >= 1 && n < Power10(w)
    ensures |Show(n)| <= w
    decreases n
  {
    if n >= 10 {
      ShowLength(n / 10, w - 1);
    }
  }

  function Power10(w: nat): (p: nat)
    ensures p >= 1
  {
    if w == 0 then 1 else 10 * Power10(w - 1)
  }

  /** For indices 0..99999 the ids of one basename sort in index order, which
      is what the zero padding is for. */
  lemma UttIdOrder(basename: string, i: int, j: int)
    requires 0 <= i < j <= 99999
    ensures LexLess(FormatIndex(i), FormatIndex(j))
    ensures LexLess(UttId(basename, i), UttId(basename, j))
  {
    FormatIndexWidth(i);
    FormatIndexWidth(j);
    ReadOrder(FormatIndex(i), FormatIndex(j));
    var s, t := FormatIndex(i), FormatIndex(j);
    var k :| 0 <= k < |s| && k < |t| && s[..k] == t[..k] && s[k] < t[k];
    var p := basename + "_";
    var a, b := p + s, p + t;
    assert a[..|p| + k] == p + s[..k];
    assert b[..|p| + k] == p + t[..k];
    assert a[|p| + k] == s[k] && b[|p| + k] == t[k];
  }
}
