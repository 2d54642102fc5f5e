/**
 * Decimal text of integers, as JavaScript's `Number.prototype.toString` and
 * `String.prototype.padStart(2, '0')` produce it for integral values, and the
 * digit parser that inverts it.
 */
module Decimal {
  import opened Wrappers

  predicate IsDigit(c: char) {
    '0' <= c <= '9'
  }

  predicate AllDigits(s: string) {
    forall i :: 0 <= i < |s| ==> IsDigit(s[i])
  }

  function DigitChar(d: nat): (c: char)
    requires d < 10
    ensures IsDigit(c)
  {
    (('0' as int) + d) as char
  }

  function DigitValue(c: char): (d: nat)
    requires IsDigit(c)
    ensures d < 10
  {
    c as int - '0' as int
  }

  /** Value of a digit string, read most significant digit first; leading zeros are allowed. */
  function DigitsValue(s: string): nat
    requires AllDigits(s)
  {
    if s == [] then 0 else DigitsValue(s[..|s| - 1]) * 10 + DigitValue(s[|s| - 1])
  }

  /** Shortest decimal text of `n`: digits only, and no leading zero unless `n` is 0. */
  function NatText(n: nat): (r: string)
    ensures |r| >= 1 && AllDigits(r)
    ensures r[0] == '0' ==> n == 0
    ensures n < 10 <==> |r| == 1
  {
    if n < 10 then [DigitChar(n)] else NatText(n / 10) + [DigitChar(n % 10)]
  }

  /** `String(i)` for an integral number `i`: a minus sign, then the digits of |i|. */
  function IntText(i: int): (r: string)
    ensures |r| >= 1
    ensures i >= 0 ==> r == NatText(i)
    ensures i < 0 ==> r[0] == '-' && r[1..] == NatText(-i)
  {
    if i < 0 then "-" + NatText(-i) else NatText(i)
  }

  /** `String(n).padStart(2, '0')`: a single digit gets a leading zero, longer text is kept. */
  function Pad2(n: nat): (r: string)
    ensures AllDigits(r)
    ensures n < 100 ==> |r| == 2
    ensures n >= 10 ==> r == NatText(n)
  {
    var t := NatText(n);
    if |t| < 2 then "0" + t else t
  }

  /** Parses a non-empty string of decimal digits; anything else gives None. */
  function ParseNat(s: string): (r: Option<nat>)
    ensures r.Some? <==> s != [] && AllDigits(s)
  {
    if s != [] && AllDigits(s) then Some(DigitsValue(s)) else None
  }

  /** Parses an optional minus sign followed by decimal digits. */
  function ParseInt(s: string): Option<int> {
    if |s| > 0 && s[0] == '-' then
      match ParseNat(s[1..])
      case Some(v) => Some(-(v as int))
      case None => None
    else
      match ParseNat(s)
      case Some(v) => Some(v as int)
      case None => None
  }

  lemma DigitCharValue(d: nat)
    requires d < 10
    ensures DigitValue(DigitChar(d)) == d
  {
  }

  /** Appending one digit multiplies the value by ten and adds the digit. */
  lemma DigitsValueSnoc(s: string, c: char)
    requires AllDigits(s) && IsDigit(c)
    ensures AllDigits(s + [c])
    ensures DigitsValue(s + [c]) == DigitsValue(s) * 10 + DigitValue(c)
  {
    assert (s + [c])[..|s + [c]| - 1] == s;
  }

  /** Reading back the text of `n` gives `n`. */
  lemma {:induction false} NatTextValue(n: nat)
    ensures DigitsValue(NatText(n)) == n
  {
    if n < 10 {
      DigitCharValue(n);
      assert DigitsValue([DigitChar(n)]) == DigitsValue([]) * 10 + DigitValue(DigitChar(n));
    } else {
      NatTextValue(n / 10);
      DigitsValueSnoc(NatText(n / 10), DigitChar(n % 10));
      DigitCharValue(n % 10);
    }
  }

  lemma NatTextRoundTrip(n: nat)
    ensures ParseNat(NatText(n)) == Some(n)
  {
    NatTextValue(n);
  }

  lemma IntTextRoundTrip(i: int)
    ensures ParseInt(IntText(i)) == Some(i)
  {
    if i < 0 {
      NatTextRoundTrip(-i);
    } else {
      NatTextRoundTrip(i);
    }
  }

  /** The two-digit text of a number below 100 parses back to that number. */
  lemma Pad2RoundTrip(n: nat)
    requires n < 100
    ensures ParseNat(Pad2(n)) == Some(n)
  {
    NatTextValue(n);
    if n < 10 {
      var t := NatText(n);
      assert t == [DigitChar(n)];
      assert "0" + t == ['0', DigitChar(n)];
      assert ['0', DigitChar(n)][..1] == ['0'];
      assert ['0'][..0] == [];
      DigitCharValue(n);
      assert DigitsValue(['0']) == 0;
    }
  }

  function Pow10(k: nat): nat {
    if k == 0 then 1 else 10 * Pow10(k - 1)
  }

  /** A string of `k` digits stands for a number below 10^k. */
  lemma {:induction false} DigitsValueBound(s: string)
    requires AllDigits(s)
    ensures DigitsValue(s) < Pow10(|s|)
  {
    if s != [] {
      DigitsValueBound(s[..|s| - 1]);
    }
  }

  /** A number of at least 10^k has a text of more than `k` digits. */
  lemma {:induction false} NatTextLength(n: nat, k: nat)
    requires n >= Pow10(k)
    ensures |NatText(n)| > k
  {
    if k > 0 {
      NatTextLength(n / 10, k - 1);
    }
  }

  /** A number below 10^k has a text of at most `k` digits. */
  lemma {:induction false} NatTextShort(n: nat, k: nat)
    requires k >= 1 && n < Pow10(k)
    ensures |NatText(n)| <= k
  {
    if n >= 10 {
      NatTextShort(n / 10, k - 1);
    }
  }

  /** A number of five or more digits: its shortest text is at least five characters long. */
  lemma NatTextLong(n: nat)
    requires n >= 10000
    ensures |NatText(n)| >= 5
  {
    assert Pow10(4) == 10000 by {
      assert Pow10(2) == 100;
    }
    NatTextLength(n, 4);
  }

  lemma CharDigitRoundTrip(c: char)
    requires IsDigit(c)
    ensures DigitChar(DigitValue(c)) == c
  {
  }

  /** Appending two digits multiplies the value by a hundred and adds theirs. */
  lemma DigitsValueAppend2(s: string, t: string)
    requires AllDigits(s) && |t| == 2 && AllDigits(t)
    ensures AllDigits(s + t)
    ensures DigitsValue(s + t) == DigitsValue(s) * 100 + DigitsValue(t)
  {
    var a, b := DigitValue(t[0]), DigitValue(t[1]);
    var u := s + [t[0]];
    DigitsValueSnoc(s, t[0]);
    DigitsValueSnoc(u, t[1]);
    assert s + t == u + [t[1]];
    DigitsValueSnoc([], t[0]);
    assert [] + [t[0]] == [t[0]];
    DigitsValueSnoc([t[0]], t[1]);
    assert t == [t[0]] + [t[1]];
    assert DigitsValue(t) == a * 10 + b;
    var w := DigitsValue(s);
    assert DigitsValue(s + t) == (w * 10 + a) * 10 + b;
  }

  /** A year below 10000 as the four digits of an HTML date string, leading zeros included. */
  function Pad4(n: nat): (r: string)
    requires n < 10000
    ensures |r| == 4 && AllDigits(r)
  {
    Pad2(n / 100) + Pad2(n % 100)
  }

  /** The four digits of a number below 10000 read back as that number. */
  lemma Pad4RoundTrip(n: nat)
    requires n < 10000
    ensures DigitsValue(Pad4(n)) == n
  {
    Pad2RoundTrip(n / 100);
    Pad2RoundTrip(n % 100);
    DigitsValueAppend2(Pad2(n / 100), Pad2(n % 100));
  }

  /** Every two-digit string is the padded text of its own value. */
  lemma Pad2OfValue(t: string)
    requires |t| == 2 && AllDigits(t)
    ensures DigitsValue(t) < 100 && Pad2(DigitsValue(t)) == t
  {
    DigitsValueSnoc([], t[0]);
    DigitsValueSnoc([t[0]], t[1]);
    assert t == [] + [t[0]] + [t[1]];
    var a, b := DigitValue(t[0]), DigitValue(t[1]);
    var v := DigitsValue(t);
    assert v == 10 * a + b;
    CharDigitRoundTrip(t[0]);
    CharDigitRoundTrip(t[1]);
    if a == 0 {
      assert NatText(v) == [DigitChar(b)];
    } else {
      assert v / 10 == a && v % 10 == b;
      assert NatText(v / 10) == [DigitChar(a)];
      assert NatText(v) == NatText(v / 10) + [DigitChar(v % 10)];
    }
  }

  /** Every four-digit string is the Pad4 text of its own value. */
  lemma Pad4OfValue(t: string)
    requires |t| == 4 && AllDigits(t)
    ensures DigitsValue(t) < 10000 && Pad4(DigitsValue(t)) == t
  {
    var hi, lo := t[..2], t[2..];
    assert t == hi + lo;
    Pad2OfValue(hi);
    Pad2OfValue(lo);
    DigitsValueAppend2(hi, lo);
    var v, h, l := DigitsValue(t), DigitsValue(hi), DigitsValue(lo);
    assert v == h * 100 + l && l < 100 && h < 100;
    assert v / 100 == h && v % 100 == l;
  }

  /** A digit string without a leading zero is the shortest text of its own value. */
  lemma {:induction false} NatTextOfValue(t: string)
    requires t != [] && AllDigits(t) && (|t| == 1 || t[0] != '0')
    ensures NatText(DigitsValue(t)) == t
    decreases |t|
  {
    var c := t[|t| - 1];
    CharDigitRoundTrip(c);
    if |t| == 1 {
      assert t == [c];
    } else {
      var u := t[..|t| - 1];
      assert u[0] == t[0];
      NatTextOfValue(u);
      var v := DigitsValue(u);
      var n := DigitsValue(t);
      assert n == v * 10 + DigitValue(c);
      assert n / 10 == v && n % 10 == DigitValue(c);
      assert t == u + [c];
    }
  }
}
