/** Decimal notation: canonical numerals, reading them back, and fixed-width zero-padded digits. */
module Decimal {

  /** A byte of a Go buffer. */
  type byte = c: char | c as int < 256 witness '\0'

  function Digit(d: nat): (c: byte)
    requires d < 10
  {
    (48 + d) as char
  }

  predicate IsDigit(c: char) {
    '0' <= c <= '9'
  }

  function DigitValue(c: char): (d: nat)
    requires IsDigit(c)
  {
    c as int - 48
  }

  predicate AllDigits(s: string) {
    forall i | 0 <= i < |s| :: IsDigit(s[i])
  }

  /** The digits are the ASCII digits. */
  lemma DigitsAreAscii(d: nat)
    requires d < 10
    ensures Digit(d) == "0123456789"[d] && IsDigit("0123456789"[d]) && DigitValue("0123456789"[d]) == d
  {
  }

  /** The number a digit string denotes. */
  function Value(s: string): nat
    requires AllDigits(s)
  {
    if s == [] then 0 else 10 * Value(s[..|s| - 1]) + DigitValue(s[|s| - 1])
  }

  /** The decimal numeral of `n` without leading zeros. */
  function Numeral(n: nat): (s: seq<byte>)
    ensures |s| >= 1
  {
    if n < 10 then [Digit(n)] else Numeral(n / 10) + [Digit(n % 10)]
  }

  /** The low `width` decimal digits of `n`, zero-padded. */
  function Padded(n: nat, width: nat): (s: seq<byte>)
    ensures |s| == width
  {
    if width == 0 then [] else Padded(n / 10, width - 1) + [Digit(n % 10)]
  }

  function Pow10(k: nat): (p: nat)
    ensures p >= 1
  {
    if k == 0 then 1 else 10 * Pow10(k - 1)
  }

  /** A nonempty digit string that has no leading zero unless it is "0". */
  predicate IsCanonical(s: string) {
    AllDigits(s) && |s| >= 1 && (s[0] == '0' ==> |s| == 1)
  }

  lemma {:induction false} NumeralReadsBack(n: nat)
    ensures IsCanonical(Numeral(n)) && Value(Numeral(n)) == n
    ensures n > 0 ==> Numeral(n)[0] != '0'
  {
    if n >= 10 {
      NumeralReadsBack(n / 10);
      assert Numeral(n)[..|Numeral(n)| - 1] == Numeral(n / 10);
    } else {
      assert Numeral(n)[..0] == [];
    }
  }

  lemma {:induction false} CanonicalValue(s: string)
    requires IsCanonical(s)
    ensures |s| > 1 ==> Value(s) >= 10
    ensures s[0] != '0' ==> Value(s) >= 1
    ensures |s| == 1 ==> Value(s) == DigitValue(s[0])
  {
    var front := s[..|s| - 1];
    if |s| > 1 {
      CanonicalValue(front);
    } else {
      assert front == [];
    }
  }

  /** The canonical numeral of a number is its only canonical digit string. */
  lemma {:induction false} CanonicalIsNumeral(s: string)
    requires IsCanonical(s)
    ensures Numeral(Value(s)) == s
  {
    CanonicalValue(s);
    if |s| > 1 {
      var front := s[..|s| - 1];
      CanonicalIsNumeral(front);
      assert Value(s) / 10 == Value(front);
      assert s == front + [s[|s| - 1]];
    }
  }

  lemma {:induction false} NumeralLength(n: nat, k: nat)
    requires n < Pow10(k) && k >= 1
    ensures |Numeral(n)| <= k
  {
    if n >= 10 {
      assert k > 1;
      NumeralLength(n / 10, k - 1);
    }
  }

  lemma PowersOfTen()
    ensures Pow10(10) == 10000000000
    ensures Pow10(17) == 100000000000000000
    ensures Pow10(19) == 10000000000000000000
    ensures Pow10(20) == 100000000000000000000
  {
    assert Pow10(4) == 10000;
    assert Pow10(7) == 10000000;
    assert Pow10(13) == 10000000000000;
    assert Pow10(16) == 10000000000000000;
  }

  /** Zero-padded digits denote the number when it fits. */
  lemma {:induction false} PaddedReadsBack(n: nat, width: nat)
    requires n < Pow10(width)
    ensures AllDigits(Padded(n, width)) && Value(Padded(n, width)) == n
  {
    if width > 0 {
      PaddedReadsBack(n / 10, width - 1);
      assert Padded(n, width)[..width - 1] == Padded(n / 10, width - 1);
    }
  }
}
