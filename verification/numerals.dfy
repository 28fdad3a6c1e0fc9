/** Unsigned numerals in base 10 and 16 as the formatter writes them
    (`{}` and `{:0w$X}`: no sign, upper-case hex digits, optional leading
    zeros up to a minimum width), and the reading of such numerals back. */
module Numerals {
  import opened Base

  /** The value of a digit character; 16 for a character that is no digit
      of any supported base. */
  function DigitValue(c: char): nat
  {
    if '0' <= c <= '9' then c as int - '0' as int
    else if 'A' <= c <= 'F' then c as int - 'A' as int + 10
    else 16
  }

  predicate IsDigit(c: char, base: nat)
  {
    DigitValue(c) < base
  }

  /** The character of digit `d`: `0`-`9`, then upper-case `A`-`F`. */
  function DigitChar(d: nat): (c: char)
    requires d < 16
    ensures DigitValue(c) == d
  {
    if d < 10 then ('0' as int + d) as char else ('A' as int + d - 10) as char
  }

  predicate AllDigits(s: string, base: nat)
  {
    forall i :: 0 <= i < |s| ==> IsDigit(s[i], base)
  }

  /** The shortest numeral of `n`: "0" for zero, and otherwise no leading
      zero. */
  function Numeral(n: nat, base: nat): (r: string)
    requires 2 <= base <= 16
    ensures |r| >= 1 && AllDigits(r, base)
    ensures |r| > 1 ==> r[0] != '0'
  {
    if n < base then [DigitChar(n)]
    else
      DivDigits(n, base);
      var init := Numeral(n / base, base);
      assert init[0] != '0' by {
        if |init| == 1 {
          assert DigitValue(init[0]) == n / base;
        }
      }
      init + [DigitChar(n % base)]
  }

  /** Splitting off the last digit of a number of at least two digits. */
  lemma DivDigits(n: nat, base: nat)
    requires 2 <= base <= 16 && n >= base
    ensures n == base * (n / base) + n % base
    ensures 1 <= n / base < n && n % base < base
  {
  }

  /** The value a numeral denotes, most significant digit first. */
  function Value(s: string, base: nat): nat
  {
    if |s| == 0 then 0
    else base * Value(s[..|s| - 1], base) + (if IsDigit(s[|s| - 1], base) then DigitValue(s[|s| - 1]) else 0)
  }

  /** `s` widened to at least `w` characters with leading zeros. */
  function Pad(s: string, w: nat): (r: string)
    ensures |r| == if |s| < w then w else |s|
  {
    if |s| < w then Repeat('0', w - |s|) + s else s
  }

  /** The numeral of `n` with at least `w` digits. */
  function PadNumeral(n: nat, w: nat, base: nat): string
    requires 2 <= base <= 16
  {
    Pad(Numeral(n, base), w)
  }

  /** Reading a numeral back gives the number. */
  lemma {:induction false} ValueNumeral(n: nat, base: nat)
    requires 2 <= base <= 16
    ensures Value(Numeral(n, base), base) == n
  {
    var r := Numeral(n, base);
    if n >= base {
      DivDigits(n, base);
      ValueNumeral(n / base, base);
      assert r[..|r| - 1] == Numeral(n / base, base);
      assert r[|r| - 1] == DigitChar(n % base);
    }
  }

  /** Leading zeros do not change the value. */
  lemma {:induction false} ValueLeadingZero(s: string, base: nat)
    requires base >= 2
    ensures Value(['0'] + s, base) == Value(s, base)
  {
    if |s| > 0 {
      var t := ['0'] + s;
      assert t[..|t| - 1] == ['0'] + s[..|s| - 1];
      assert t[|t| - 1] == s[|s| - 1];
      ValueLeadingZero(s[..|s| - 1], base);
    } else {
      assert IsDigit('0', base);
    }
  }

  lemma {:induction false} ValueLeadingZeros(k: nat, s: string, base: nat)
    requires base >= 2
    ensures Value(Repeat('0', k) + s, base) == Value(s, base)
  {
    if k > 0 {
      assert Repeat('0', k) + s == ['0'] + (Repeat('0', k - 1) + s);
      ValueLeadingZero(Repeat('0', k - 1) + s, base);
      ValueLeadingZeros(k - 1, s, base);
    } else {
      assert Repeat('0', k) + s == s;
    }
  }

  /** A padded numeral still reads back as the number, and is made of
      digits only. */
  lemma PadNumeralValue(n: nat, w: nat, base: nat)
    requires 2 <= base <= 16
    ensures Value(PadNumeral(n, w, base), base) == n
    ensures |PadNumeral(n, w, base)| >= 1 && AllDigits(PadNumeral(n, w, base), base)
  {
    var s := Numeral(n, base);
    ValueNumeral(n, base);
    if |s| < w {
      ValueLeadingZeros(w - |s|, s, base);
      var r := Repeat('0', w - |s|) + s;
      forall i | 0 <= i < |r|
        ensures IsDigit(r[i], base)
      {
        if i >= w - |s| {
          assert r[i] == s[i - (w - |s|)];
        }
      }
    }
  }

  /** A number below base^k has at most k digits (k >= 1). */
  lemma {:induction false} NumeralLength(n: nat, k: nat, base: nat)
    requires 2 <= base <= 16 && k >= 1 && n < Pow(base, k)
    ensures |Numeral(n, base)| <= k
  {
    assert Pow(base, 1) == base;
    if n < base {
      NumeralOneDigit(n, base);
    } else {
      DivPow(n, base, k);
      NumeralLength(n / base, k - 1, base);
      NumeralStep(n, base);
    }
  }

  lemma NumeralOneDigit(n: nat, base: nat)
    requires 2 <= base <= 16 && n < base
    ensures |Numeral(n, base)| == 1
  {
  }

  /** Dividing a number below base^k by the base leaves it below
      base^(k-1). */
  lemma DivPow(n: nat, base: nat, k: nat)
    requires 2 <= base <= 16 && k >= 1 && n < Pow(base, k)
    ensures n / base < Pow(base, k - 1)
  {
    var p := Pow(base, k - 1);
    assert Pow(base, k) == base * p;
    DivBelow(n, base, p);
  }

  /** A number of at least two digits has one digit more than its
      quotient by the base. */
  lemma NumeralStep(n: nat, base: nat)
    requires 2 <= base <= 16 && n >= base
    ensures |Numeral(n, base)| == |Numeral(n / base, base)| + 1
  {
  }

  /** Dividing a number below base * p by the base leaves it below p. */
  lemma DivBelow(n: nat, base: nat, p: nat)
    requires 2 <= base <= 16 && n < base * p
    ensures n / base < p
  {
    assert n == base * (n / base) + n % base;
  }

  /** A number below base^w (w >= 1) fills exactly w columns when
      padded to w. */
  lemma PadNumeralWidth(n: nat, w: nat, base: nat)
    requires 2 <= base <= 16 && w >= 1 && n < Pow(base, w)
    ensures |PadNumeral(n, w, base)| == w
  {
    NumeralLength(n, w, base);
  }

  /** The longest prefix of digits of `s`, and what follows it. */
  function Take(s: string, base: nat): (r: (string, string))
    ensures r.0 + r.1 == s && AllDigits(r.0, base)
    ensures |r.1| == 0 || !IsDigit(r.1[0], base)
  {
    if |s| > 0 && IsDigit(s[0], base) then
      var t := Take(s[1..], base);
      assert [s[0]] + t.0 + t.1 == s;
      ([s[0]] + t.0, t.1)
    else ([], s)
  }

  /** Reads a numeral of at least one digit at the start of `s`. */
  function ParseNumeral(s: string, base: nat): (r: Option<(nat, string)>)
    ensures r.Some? ==> |r.value.1| < |s|
  {
    var t := Take(s, base);
    if |t.0| == 0 then None else Some((Value(t.0, base), t.1))
  }

  /** Take stops exactly at the end of a run of digits. */
  lemma {:induction false} TakeDigits(x: string, rest: string, base: nat)
    requires AllDigits(x, base)
    requires |rest| == 0 || !IsDigit(rest[0], base)
    ensures Take(x + rest, base) == (x, rest)
  {
    if |x| > 0 {
      assert (x + rest)[1..] == x[1..] + rest;
      TakeDigits(x[1..], rest, base);
      assert [x[0]] + x[1..] == x;
    } else {
      assert x + rest == rest;
    }
  }

  /** A padded numeral followed by a non-digit reads back as the number. */
  lemma ParsePadNumeral(n: nat, w: nat, base: nat, x: string, rest: string)
    requires 2 <= base <= 16
    requires |x| > 0 && !IsDigit(x[0], base)
    ensures ParseNumeral(PadNumeral(n, w, base) + x + rest, base) == Some((n, x + rest))
  {
    var p := PadNumeral(n, w, base);
    PadNumeralValue(n, w, base);
    assert p + x + rest == p + (x + rest);
    TakeDigits(p, x + rest, base);
  }
}
