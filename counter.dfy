/**
 * The claps counter as an exact decimal number.
 *
 * A counter reads like "58" or "1.2K". The page only ever shows unsigned decimal
 * numerals there, so the button text is the subset type CounterText; the value
 * is `units / 10^scale` with unbounded integers instead of a floating-point number.
 * Text renders a number the way interpolation of a JavaScript number into a
 * template does for such values ("1200", "0.5"), and ParseNumber reads it back.
 */
module Counter {

  datatype Num = Num(units: nat, scale: nat)

  function Pow10(k: nat): (r: nat)
    ensures r >= 1
  {
    if k == 0 then 1 else 10 * Pow10(k - 1)
  }

  /** The number a Num denotes. */
  function Value(n: Num): real {
    n.units as real / Pow10(n.scale) as real
  }

  predicate IsDigit(c: char) { '0' <= c <= '9' }

  predicate AllDigits(s: string) {
    forall i :: 0 <= i < |s| ==> IsDigit(s[i])
  }

  /** The value of a run of decimal digits, most significant first; the empty run is 0. */
  function DigitsValue(s: string): nat
    requires AllDigits(s)
  {
    if s == [] then 0 else DigitsValue(s[..|s| - 1]) * 10 + (s[|s| - 1] as int - '0' as int)
  }

  /** Index of the first '.', or |s| when there is none. */
  function DotIndex(s: string): (d: nat)
    ensures d <= |s|
    ensures d < |s| ==> s[d] == '.'
    ensures forall i :: 0 <= i < d ==> s[i] != '.'
  {
    if s == [] then 0 else if s[0] == '.' then 0 else 1 + DotIndex(s[1..])
  }

  /**
   * Unsigned decimal numerals: digits with an optional fractional part, as in
   * "58", "1.2", ".5" or "5."; a lone "." is not one, and the empty string is
   * (it converts to 0).
   */
  predicate IsNumeral(s: string) {
    var d := DotIndex(s);
    AllDigits(s[..d]) && (d == |s| || (AllDigits(s[d + 1..]) && |s| > 1))
  }

  /** The text a claps button can show: a numeral, optionally followed by the thousands suffix K. */
  predicate IsCounterText(s: string) {
    if |s| > 0 && s[|s| - 1] == 'K' then IsNumeral(s[..|s| - 1]) else IsNumeral(s)
  }

  type CounterText = s: string | IsCounterText(s) witness ""

  /** The exact value of a numeral: its digits without the point, scaled by the fraction's length. */
  function ParseNumber(s: string): (n: Num)
    requires IsNumeral(s)
    ensures n.scale == |s| - DotIndex(s) - (if DotIndex(s) < |s| then 1 else 0)
  {
    var d := DotIndex(s);
    var frac := if d < |s| then s[d + 1..] else "";
    assert AllDigits(s[..d] + frac);
    Num(DigitsValue(s[..d] + frac), |frac|)
  }

  /**
   * What a numeral is worth: its integer digits shifted past the fraction, plus
   * the fraction's digits, so "1.20" is 120 hundredths and "007" is 7.
   */
  lemma ParseNumberValue(s: string)
    requires IsNumeral(s)
    ensures var d := DotIndex(s); var n := ParseNumber(s);
      n.units == DigitsValue(s[..d]) * Pow10(n.scale) + DigitsValue(if d < |s| then s[d + 1..] else "")
  {
    var d := DotIndex(s);
    DigitsAppend(s[..d], if d < |s| then s[d + 1..] else "");
  }

  /** Multiplication by 1000, done exactly. */
  function Thousand(n: Num): (r: Num)
    ensures Value(r) == 1000.0 * Value(n)
  {
    Num(n.units * 1000, n.scale)
  }

  /** The number a claps counter shows: a K suffix multiplies the numeral before it by 1000. */
  function ClapsValue(s: CounterText): (n: Num)
    ensures |s| > 0 && s[|s| - 1] == 'K' ==> Value(n) == 1000.0 * Value(ParseNumber(s[..|s| - 1]))
    ensures !(|s| > 0 && s[|s| - 1] == 'K') ==> n == ParseNumber(s)
  {
    if |s| > 0 && s[|s| - 1] == 'K' then Thousand(ParseNumber(s[..|s| - 1])) else ParseNumber(s)
  }

  // ---------------------------------------------------------------------------
  // Rendering

  /** The shortest representation: no trailing zeros in the fractional part. */
  function Normalize(n: Num): (m: Num)
    ensures Value(m) == Value(n)
    ensures m.scale <= n.scale
    ensures m.scale == 0 || m.units % 10 != 0
    decreases n.scale
  {
    if n.scale > 0 && n.units % 10 == 0 then
      var m := Num(n.units / 10, n.scale - 1);
      ScaleDown(n.units / 10, n.scale - 1);
      Normalize(m)
    else n
  }

  lemma ScaleDown(u: nat, s: nat)
    ensures Value(Num(10 * u, s + 1)) == Value(Num(u, s))
  {
    var p := Pow10(s) as real;
    assert Pow10(s + 1) as real == 10.0 * p;
    calc {
      Value(Num(10 * u, s + 1));
      (10 * u) as real / (10.0 * p);
      u as real / p;
    }
  }

  function DigitChar(d: nat): (c: char)
    requires d < 10
    ensures IsDigit(c) && c as int - '0' as int == d
  {
    ('0' as int + d) as char
  }

  /** Decimal digits of a natural number, without leading zeros ("0" for zero). */
  function IntText(n: nat): (s: string)
    ensures |s| > 0 && AllDigits(s)
    ensures DigitsValue(s) == n
  {
    if n < 10 then [DigitChar(n)] else
      var s := IntText(n / 10) + [DigitChar(n % 10)];
      assert s[..|s| - 1] == IntText(n / 10);
      s
  }

  function Zeros(k: nat): (s: string)
    ensures |s| == k && AllDigits(s)
  {
    if k == 0 then "" else Zeros(k - 1) + "0"
  }

  /** Left-pads a digit string with zeros to width k. */
  function Padded(s: string, k: nat): (r: string)
    requires AllDigits(s)
    ensures AllDigits(r)
    ensures |s| <= k ==> |r| == k
  {
    if |s| < k then Zeros(k - |s|) + s else s
  }

  /** How the number is written when interpolated into the page: "1200", "0.5", "12.25". */
  function Text(n: Num): string {
    var m := Normalize(n);
    if m.scale == 0 then IntText(m.units) else PointText(m.units, m.scale)
  }

  /** units / 10^k written with k fractional digits. */
  function PointText(units: nat, k: nat): string {
    var p := Pow10(k);
    var (q, r) := DivMod(units, p);
    IntText(q) + "." + Padded(IntText(r), k)
  }

  /** Quotient and remainder of natural-number division. */
  function DivMod(u: nat, p: nat): (qr: (nat, nat))
    requires p > 0
    ensures u == qr.0 * p + qr.1 && qr.1 < p
  {
    (u / p, u % p)
  }

  // ---------------------------------------------------------------------------
  // Lemmas

  lemma {:induction false} DigitsAppend(a: string, b: string)
    requires AllDigits(a) && AllDigits(b)
    ensures AllDigits(a + b)
    ensures DigitsValue(a + b) == DigitsValue(a) * Pow10(|b|) + DigitsValue(b)
  {
    if b == [] {
      assert a + b == a;
    } else {
      var b' := b[..|b| - 1];
      assert AllDigits(b');
      assert (a + b)[..|a + b| - 1] == a + b';
      DigitsAppend(a, b');
      var d := b[|b| - 1] as int - '0' as int;
      assert DigitsValue(a + b) == DigitsValue(a + b') * 10 + d;
      assert DigitsValue(b) == DigitsValue(b') * 10 + d;
      Regroup(DigitsValue(a), Pow10(|b'|), DigitsValue(b'), d);
    }
  }

  /** Regrouping the digit arithmetic; kept apart so that it is solved without the string facts around it. */
  lemma Regroup(x: int, p: int, y: int, d: int)
    ensures (x * p + y) * 10 + d == x * (10 * p) + (y * 10 + d)
  {
  }

  lemma {:induction false} ZerosValue(k: nat)
    ensures DigitsValue(Zeros(k)) == 0
  {
    if k > 0 {
      ZerosValue(k - 1);
      assert Zeros(k)[..k - 1] == Zeros(k - 1);
    }
  }

  lemma {:induction false} IntTextLength(n: nat, k: nat)
    requires n < Pow10(k)
    ensures |IntText(n)| <= k || (n == 0 && k == 0)
  {
    if n >= 10 {
      IntTextLength(n / 10, k - 1);
    }
  }

  lemma NoDot(s: string)
    requires AllDigits(s)
    ensures DotIndex(s) == |s|
  {
    if s != [] {
      assert AllDigits(s[1..]);
      NoDot(s[1..]);
    }
  }

  lemma {:induction false} DotAfterDigits(a: string, b: string)
    requires AllDigits(a)
    ensures DotIndex(a + "." + b) == |a|
  {
    if a != [] {
      assert (a + "." + b)[1..] == a[1..] + "." + b;
      DotAfterDigits(a[1..], b);
    } else {
      assert a + "." + b == "." + b;
    }
  }

  /** Reading back what Text writes gives the normalized number: the round trip of the counter. */
  lemma TextRoundTrip(n: Num)
    ensures IsNumeral(Text(n))
    ensures ParseNumber(Text(n)) == Normalize(n)
  {
    var m := Normalize(n);
    if m.scale == 0 {
      var s := IntText(m.units);
      NoDot(s);
      assert s[..|s|] + "" == s;
    } else {
      PointTextRoundTrip(m.units, m.scale);
    }
  }

  lemma PointTextRoundTrip(u: nat, k: nat)
    requires k > 0
    ensures IsNumeral(PointText(u, k)) && ParseNumber(PointText(u, k)) == Num(u, k)
  {
    var qr := DivMod(u, Pow10(k));
    var q, r := qr.0, qr.1;
    FractionRoundTrip(q, r, k);
  }

  /** Integer part q, a point, then the fraction r padded to k digits reads back as q * 10^k + r. */
  lemma FractionRoundTrip(q: nat, r: nat, k: nat)
    requires 0 < k && r < Pow10(k)
    ensures var s := IntText(q) + "." + Padded(IntText(r), k);
      IsNumeral(s) && ParseNumber(s) == Num(q * Pow10(k) + r, k)
  {
    var a := IntText(q);
    IntTextLength(r, k);
    var f := Padded(IntText(r), k);
    assert |f| == k;
    PaddedValue(IntText(r), k);
    PointRoundTrip(a, f);
    DigitsAppend(a, f);
  }

  lemma PaddedValue(s: string, k: nat)
    requires AllDigits(s)
    ensures DigitsValue(Padded(s, k)) == DigitsValue(s)
  {
    if |s| < k {
      var z := Zeros(k - |s|);
      DigitsAppend(z, s);
      ZerosValue(k - |s|);
      ZeroPrefix(DigitsValue(z), Pow10(|s|), DigitsValue(s));
    }
  }

  /** Leading zeros add nothing; kept apart for the same reason as Regroup. */
  lemma ZeroPrefix(v: int, p: int, w: int)
    requires v == 0
    ensures v * p + w == w
  {
  }

  lemma PointRoundTrip(a: string, f: string)
    requires AllDigits(a) && AllDigits(f) && |a| > 0
    ensures IsNumeral(a + "." + f)
    ensures ParseNumber(a + "." + f) == Num(DigitsValue(a + f), |f|)
  {
    var s := a + "." + f;
    DotAfterDigits(a, f);
    assert s[..|a|] == a;
    assert s[|a| + 1..] == f;
  }

  /** A plain counter: "58" is 58 claps. */
  lemma ClapsExamplePlain()
    ensures Value(ClapsValue("58")) == 58.0
  {
    assert DotIndex("58") == 2;
    assert "58"[..2] + "" == "58";
    assert DigitsValue("58") == 58 by { assert "58"[..1] == "5"; }
  }

  /** A thousands counter: "1.2K" is 1200 claps, and renders as "1200". */
  lemma ClapsExampleThousands()
    ensures Value(ClapsValue("1.2K")) == 1200.0
    ensures Text(ClapsValue("1.2K")) == "1200"
  {
    assert DotIndex("1.2") == 1;
    assert "1.2"[..1] + "1.2"[2..] == "12";
    assert DigitsValue("12") == 12 by { assert "12"[..1] == "1"; }
    assert ClapsValue("1.2K") == Num(12000, 1) by { assert "1.2K"[..3] == "1.2"; }
    assert Normalize(Num(12000, 1)) == Num(1200, 0);
    assert IntText(1200) == "1200";
  }

  /** A bare suffix reads as an empty numeral, which is zero. */
  lemma ClapsExampleBareK()
    ensures Value(ClapsValue("K")) == 0.0
  {
    assert ClapsValue("K") == Num(0, 0) by { assert "K"[..0] == ""; }
  }
}
