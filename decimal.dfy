/** Decimal text of natural numbers: what Python's str() and the "d" format
    spec print for an int, and the reading that inverts it. */
module Decimal {
  import opened Text

  function DigitChar(d: nat): (c: char)
    requires d < 10
    ensures IsDigit(c)
  {
    ('0' as int + d) as char
  }

  function DigitValue(c: char): (d: nat)
    requires IsDigit(c)
    ensures d < 10 && DigitChar(d) == c
  {
    c as int - '0' as int
  }

  predicate AllDigits(s: string)
  {
    forall k :: 0 <= k < |s| ==> IsDigit(s[k])
  }

  /** The decimal text of n, without leading zeros ("0" for zero). */
  function Show(n: nat): (s: string)
    ensures |s| >= 1 && AllDigits(s)
    ensures s[0] == '0' ==> n == 0
    decreases n
  {
    if n < 10 then [DigitChar(n)]
    else
      var p := Show(n / 10);
      var s := p + [DigitChar(n % 10)];
      assert s[0] == p[0];
      s
  }

  /** The number a digit string denotes (leading zeros allowed). */
  function Read(s: string): nat
    requires AllDigits(s)
  {
    if s == [] then 0 else Read(s[..|s| - 1]) * 10 + DigitValue(s[|s| - 1])
  }

  /** Reading gives back the number shown. */
  lemma {:induction false} ReadShow(n: nat)
    ensures Read(Show(n)) == n
    decreases n
  {
    if n >= 10 {
      ReadShow(n / 10);
      var s := Show(n);
      assert s[..|s| - 1] == Show(n / 10);
    }
  }

  /** Different numbers have different texts. */
  lemma ShowInjective(m: nat, n: nat)
    requires Show(m) == Show(n)
    ensures m == n
  {
    ReadShow(m);
    ReadShow(n);
  }

  function Zeros(k: nat): (s: string)
    ensures |s| == k && AllDigits(s)
    ensures forall i :: 0 <= i < k ==> s[i] == '0'
  {
    if k == 0 then "" else Zeros(k - 1) + "0"
  }

  /** s with zeros in front, up to width w; longer text is kept whole. */
  function ZeroPad(s: string, w: nat): (r: string)
    requires AllDigits(s)
    ensures AllDigits(r)
    ensures |r| == if |s| < w then w else |s|
  {
    if |s| < w then Zeros(w - |s|) + s else s
  }

  /** Leading zeros do not change the number. */
  lemma {:induction false} ReadZeros(k: nat, s: string)
    requires AllDigits(s)
    ensures Read(Zeros(k) + s) == Read(s)
    decreases |s|
  {
    var z := Zeros(k) + s;
    if s == [] {
      assert z == Zeros(k);
      ReadOnlyZeros(k);
    } else {
      ReadZeros(k, s[..|s| - 1]);
      assert z[..|z| - 1] == Zeros(k) + s[..|s| - 1];
    }
  }

  lemma {:induction false} ReadOnlyZeros(k: nat)
    ensures Read(Zeros(k)) == 0
  {
    if k > 0 {
      assert Zeros(k)[..k - 1] == Zeros(k - 1);
      ReadOnlyZeros(k - 1);
    }
  }

  lemma ReadZeroPad(s: string, w: nat)
    requires AllDigits(s)
    ensures Read(ZeroPad(s, w)) == Read(s)
  {
    if |s| < w {
      ReadZeros(w - |s|, s);
    }
  }

  /** s comes before t in lexicographic order. */
  predicate LexLess(s: string, t: string)
  {
    exists k :: 0 <= k < |s| && k < |t| && s[..k] == t[..k] && s[k] < t[k]
  }

  /** Among digit strings of one length, the smaller number has the text that
      sorts first. */
  lemma {:induction false} ReadOrder(s: string, t: string)
    requires AllDigits(s) && AllDigits(t) && |s| == |t|
    requires Read(s) < Read(t)
    ensures LexLess(s, t)
  {
    var n := |s|;
    var s', t' := s[..n - 1], t[..n - 1];
    if Read(s') == Read(t') {
      ReadInjective(s', t');
      assert s[..n - 1] == t[..n - 1] && s[n - 1] < t[n - 1];
    } else if Read(s') < Read(t') {
      ReadOrder(s', t');
      var k :| 0 <= k < |s'| && s'[..k] == t'[..k] && s'[k] < t'[k];
      assert s[..k] == s'[..k] && t[..k] == t'[..k];
      assert s[k] < t[k];
    } else {
      assert false;
    }
  }

  /** Digit strings of one length that denote one number are equal. */
  lemma {:induction false} ReadInjective(s: string, t: string)
    requires AllDigits(s) && AllDigits(t) && |s| == |t|
    requires Read(s) == Read(t)
    ensures s == t
  {
    if s != [] {
      var n := |s|;
      assert Read(s) == Read(s[..n - 1]) * 10 + DigitValue(s[n - 1]);
      assert Read(t) == Read(t[..n - 1]) * 10 + DigitValue(t[n - 1]);
      DigitAppendInjective(Read(s[..n - 1]), Read(t[..n - 1]), DigitValue(s[n - 1]), DigitValue(t[n - 1]));
      ReadInjective(s[..n - 1], t[..n - 1]);
      assert s == s[..n - 1] + [s[n - 1]] && t == t[..n - 1] + [t[n - 1]];
    }
  }

  /** Appending a digit is injective: the number and the digit can be read back. */
  lemma DigitAppendInjective(a: nat, b: nat, d: nat, e: nat)
    requires d < 10 && e < 10 && a * 10 + d == b * 10 + e
    ensures a == b && d == e
  {
    assert (a * 10 + d) / 10 == a && (a * 10 + d) % 10 == d;
    assert (b * 10 + e) / 10 == b && (b * 10 + e) % 10 == e;
  }
}
