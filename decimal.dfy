/**
  Base-10 text of non-negative integers, as Python's `str(n)` (and so an
  f-string `{len(x)}`) writes it, together with the reader a RESP client
  uses for the length fields of a reply.
 */
module Decimal {

  import opened Wrappers

  predicate IsDigit(c: char) {
    '0' <= c <= '9'
  }

  predicate AllDigits(s: string) {
    forall i :: 0 <= i < |s| ==> IsDigit(s[i])
  }

  /** A digit string without a redundant leading zero. */
  predicate Canonical(s: string) {
    |s| > 0 && AllDigits(s) && (s[0] == '0' ==> |s| == 1)
  }

  function DigitChar(d: nat): (c: char)
    requires d < 10
    ensures IsDigit(c) && c as int - '0' as int == d
  {
    (d + '0' as int) as char
  }

  /** The value of a digit character (zero for any other character). */
  function DigitValue(c: char): (d: nat)
    ensures d < 10
    ensures IsDigit(c) ==> DigitChar(d) == c
  {
    if IsDigit(c) then c as int - '0' as int else 0
  }

  /** The text of `n` in base 10. */
  function Digits(n: nat): string
    decreases n
  {
    if n < 10 then [DigitChar(n)] else Digits(n / 10) + [DigitChar(n % 10)]
  }

  /** The text of `n` is canonical, and begins with a zero exactly when `n` is zero. */
  lemma {:induction false} DigitsCanonical(n: nat)
    ensures Canonical(Digits(n))
    ensures (Digits(n)[0] == '0') == (n == 0)
    decreases n
  {
    if n >= 10 {
      DigitsCanonical(n / 10);
    }
  }

  /** Horner's rule: the digits of `s` appended, one by one, to the number `acc`. */
  function Horner(acc: nat, s: string): nat
    decreases |s|
  {
    if |s| == 0 then acc else Horner(acc * 10 + DigitValue(s[0]), s[1..])
  }

  /** The number a string of digits denotes. */
  function ValueOf(s: string): nat {
    Horner(0, s)
  }

  /** The length of the longest prefix of `s` made of digits. */
  function DigitRun(s: string): (k: nat)
    ensures k <= |s| && AllDigits(s[..k])
    ensures k < |s| ==> !IsDigit(s[k])
  {
    if |s| > 0 && IsDigit(s[0]) then 1 + DigitRun(s[1..]) else 0
  }

  /** Consumes the digits at the front of `s`, accumulating their value onto `acc`. */
  function ScanDigits(s: string, acc: nat): (nat, string) {
    if |s| > 0 && IsDigit(s[0]) then ScanDigits(s[1..], acc * 10 + DigitValue(s[0])) else (acc, s)
  }

  /**
    Reads a canonical decimal number at the front of `s`, taking every digit
    there, and returns it with the text that follows. There is no number when
    `s` does not start with a digit, or starts with a zero followed by more
    digits.
   */
  function ReadNat(s: string): Option<(nat, string)> {
    if |s| == 0 || !IsDigit(s[0]) || (s[0] == '0' && |s| > 1 && IsDigit(s[1])) then None
    else Some(ScanDigits(s, 0))
  }

  lemma {:induction false} HornerAppend(acc: nat, a: string, b: string)
    ensures Horner(acc, a + b) == Horner(Horner(acc, a), b)
    decreases |a|
  {
    if |a| == 0 {
      assert a + b == b;
    } else {
      assert (a + b)[1..] == a[1..] + b;
      HornerAppend(acc * 10 + DigitValue(a[0]), a[1..], b);
    }
  }

  /** Digits and ValueOf are inverse: reading back the text of `n` gives `n`. */
  lemma {:induction false} ValueOfDigits(n: nat)
    ensures ValueOf(Digits(n)) == n
    decreases n
  {
    if n < 10 {
      assert Horner(0, Digits(n)) == Horner(n, []);
    } else {
      DigitsCanonical(n / 10);
      ValueOfDigits(n / 10);
      HornerAppend(0, Digits(n / 10), [DigitChar(n % 10)]);
    }
  }

  /** ... and in the other direction, on canonical digit strings. */
  lemma {:induction false} DigitsOfValue(s: string)
    requires Canonical(s)
    ensures Digits(ValueOf(s)) == s
    decreases |s|
  {
    if |s| == 1 {
      assert Horner(0, s) == Horner(DigitValue(s[0]), []);
    } else {
      var front := s[..|s| - 1];
      var last := s[|s| - 1];
      assert Canonical(front);
      DigitsOfValue(front);
      DigitsCanonical(ValueOf(front));
      assert s == front + [last];
      HornerAppend(0, front, [last]);
      var v := ValueOf(s);
      assert v == ValueOf(front) * 10 + DigitValue(last);
      assert ValueOf(front) != 0;
    }
  }

  /** Scanning a run of digits followed by a non-digit reads exactly that run. */
  lemma {:induction false} ScanDigitsOf(p: string, rest: string, acc: nat)
    requires AllDigits(p)
    requires rest == [] || !IsDigit(rest[0])
    ensures ScanDigits(p + rest, acc) == (Horner(acc, p), rest)
    decreases |p|
  {
    if |p| == 0 {
      assert p + rest == rest;
    } else {
      assert (p + rest)[1..] == p[1..] + rest;
      ScanDigitsOf(p[1..], rest, acc * 10 + DigitValue(p[0]));
    }
  }

  /** ReadNat reads back exactly what Digits writes, when a non-digit follows. */
  lemma ReadNatOfDigits(n: nat, rest: string)
    requires rest == [] || !IsDigit(rest[0])
    ensures ReadNat(Digits(n) + rest) == Some((n, rest))
  {
    var p := Digits(n);
    DigitsCanonical(n);
    ScanDigitsOf(p, rest, 0);
    ValueOfDigits(n);
    assert (p + rest)[0] == p[0];
    if |p| > 1 {
      assert (p + rest)[1] == p[1];
    }
  }

  /** Whatever ReadNat accepts is the text of the number it returns. */
  lemma ReadNatSound(s: string)
    requires ReadNat(s).Some?
    ensures s == Digits(ReadNat(s).value.0) + ReadNat(s).value.1
    ensures ReadNat(s).value.1 == [] || !IsDigit(ReadNat(s).value.1[0])
  {
    var k := DigitRun(s);
    assert s == s[..k] + s[k..];
    ScanDigitsOf(s[..k], s[k..], 0);
    assert Canonical(s[..k]);
    DigitsOfValue(s[..k]);
  }
}
