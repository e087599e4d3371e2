/** Fixed-point formatting, with exact reals in the place of float64. */
module FloatFormat {
  import opened Wrappers
  import opened Decimal
  import opened IntegerFormat

  /** The bounds `maxEligbleInt64` and `minEligbleInt64` of the fast path. */
  const MAX_ELIGIBLE: int := 0x7FFF_FFFF_FFFF_FFFF - 512
  const MIN_ELIGIBLE: int := -0x8000_0000_0000_0000 + 513

  function Abs(n: real): real { if n < 0.0 then -n else n }

  /** Rounding to the nearest integer, ties away from zero. */
  function Round(x: real): int {
    if x < 0.0 then -((0.5 - x).Floor) else (x + 0.5).Floor
  }

  /** The magnitude of `n` rounded half away from zero, in units of 1/p. */
  function Scaled(n: real, p: nat): (k: nat)
    requires p >= 1
    ensures k as real - 0.5 <= Abs(n) * p as real < k as real + 0.5
  {
    var x := Abs(n) * p as real;
    assert x >= 0.0;
    Round(x)
  }

  /** Sign, whole digits, and a point in front of the fractional digits if there are any. */
  function Assemble(negative: bool, whole: seq<byte>, frac: seq<byte>): seq<byte> {
    (if negative then ['-'] else []) + whole + if frac == [] then [] else ['.'] + frac
  }

  // ---------------------------------------------------------------- Reading fixed-point text

  function Unsigned(s: string): string { if s != [] && s[0] == '-' then s[1..] else s }

  /** The number of whole digits of unsigned text with `prec` fractional digits. */
  function WholeDigits(t: string, prec: nat): int { if prec == 0 then |t| else |t| - prec - 1 }

  /** A canonical whole part, and for `prec > 0` a point and `prec` digits. */
  predicate IsUnsignedFixed(t: string, prec: nat) {
    var w := WholeDigits(t, prec);
    && w >= 1
    && IsCanonical(t[..w])
    && (prec > 0 ==> t[w] == '.' && AllDigits(t[w + 1..]))
  }

  /** An optional sign in front. */
  predicate IsFixed(s: string, prec: nat) {
    IsUnsignedFixed(Unsigned(s), prec)
  }

  /** The digits after the point. */
  function FractionDigits(t: string, prec: nat): string
    requires IsUnsignedFixed(t, prec)
  {
    if prec == 0 then [] else t[WholeDigits(t, prec) + 1..]
  }

  /** The number read without sign and point, that is, its magnitude in units of the last digit. */
  function Magnitude(s: string, prec: nat): nat
    requires IsFixed(s, prec)
  {
    var t := Unsigned(s);
    Value(t[..WholeDigits(t, prec)]) * Pow10(prec) + Value(FractionDigits(t, prec))
  }

  lemma UnsignedParts(whole: seq<byte>, frac: seq<byte>)
    requires IsCanonical(whole) && AllDigits(frac)
    ensures var t := Assemble(false, whole, frac);
      && t[0] != '-'
      && IsUnsignedFixed(t, |frac|)
      && t[..WholeDigits(t, |frac|)] == whole
      && FractionDigits(t, |frac|) == frac
  {
    var t := Assemble(false, whole, frac);
    assert t[0] == whole[0];
    if frac == [] {
      assert t == whole && t[..|whole|] == whole;
    } else {
      assert t == whole + ['.'] + frac;
      assert t[..|whole|] == whole && t[|whole| + 1..] == frac;
    }
  }

  lemma AssembledReadsBack(negative: bool, whole: seq<byte>, frac: seq<byte>)
    requires IsCanonical(whole) && AllDigits(frac)
    ensures var s := Assemble(negative, whole, frac);
      && IsFixed(s, |frac|)
      && (s[0] == '-' <==> negative)
      && Magnitude(s, |frac|) == Value(whole) * Pow10(|frac|) + Value(frac)
  {
    UnsignedParts(whole, frac);
    var t := Assemble(false, whole, frac);
    var s := Assemble(negative, whole, frac);
    assert s == if negative then ['-'] + t else t;
    assert Unsigned(s) == t;
  }

  lemma {:induction false} SameValueSameDigits(a: string, b: string)
    requires AllDigits(a) && AllDigits(b) && |a| == |b| && Value(a) == Value(b)
    ensures a == b
  {
    if a != [] {
      var n := |a| - 1;
      assert DigitValue(a[n]) == Value(a) % 10 == Value(b) % 10 == DigitValue(b[n]);
      SameValueSameDigits(a[..n], b[..n]);
      assert a == a[..n] + [a[n]] && b == b[..n] + [b[n]];
    }
  }

  lemma {:induction false} ValueBound(s: string)
    requires AllDigits(s)
    ensures Value(s) < Pow10(|s|)
  {
    if s != [] {
      ValueBound(s[..|s| - 1]);
    }
  }

  lemma UniqueSplit(a: nat, x: nat, b: nat, y: nat, p: nat)
    requires x < p && y < p && a * p + x == b * p + y
    ensures a == b && x == y
  {
    var d := a - b;
    assert d * p == y - x;
    assert d >= 1 ==> d * p >= p;
    assert d <= -1 ==> d * p <= 0 - p;
  }

  lemma JoinedParts(t: string, prec: nat)
    requires IsUnsignedFixed(t, prec)
    ensures t == t[..WholeDigits(t, prec)] + if prec == 0 then [] else ['.'] + FractionDigits(t, prec)
  {
  }

  /** Sign and magnitude determine fixed-point text. */
  lemma FixedIsUnique(a: string, b: string, prec: nat)
    requires IsFixed(a, prec) && IsFixed(b, prec)
    requires a[0] == '-' <==> b[0] == '-'
    requires Magnitude(a, prec) == Magnitude(b, prec)
    ensures a == b
  {
    var ta, tb := Unsigned(a), Unsigned(b);
    var wa, wb := ta[..WholeDigits(ta, prec)], tb[..WholeDigits(tb, prec)];
    var fa, fb := FractionDigits(ta, prec), FractionDigits(tb, prec);
    ValueBound(fa);
    ValueBound(fb);
    UniqueSplit(Value(wa), Value(fa), Value(wb), Value(fb), Pow10(prec));
    SameValueSameDigits(fa, fb);
    CanonicalIsNumeral(wa);
    CanonicalIsNumeral(wb);
    JoinedParts(ta, prec);
    JoinedParts(tb, prec);
  }

  /** Fixed-point text, on an example: -12.05 is the only text with two fractional digits, a sign and 1205 units. */
  lemma SomeFixedText(text: string)
    requires IsFixed(text, 2) && Magnitude(text, 2) == 1205 && text[0] == '-'
    ensures text == "-12.05"
  {
    SomeAssembledText();
    AssembledMagnitude(true, 12, 5, 2);
    FixedIsUnique(text, "-12.05", 2);
  }

  lemma SomeAssembledText()
    ensures Pow10(2) == 100 && Assemble(true, Numeral(12), Padded(5, 2)) == "-12.05"
  {
    assert Numeral(1) == "1" && Numeral(12) == "12";
    assert Padded(0, 0) == "" && Padded(0, 1) == "0" && Padded(5, 2) == "05";
  }

  /** `Scaled` is the only integer within half a unit, with ties away from zero. */
  lemma ScaledIsUnique(n: real, p: nat, k: int)
    requires p >= 1 && k as real - 0.5 <= Abs(n) * p as real < k as real + 0.5
    ensures k == Scaled(n, p)
  {
  }

  // ---------------------------------------------------------------- The split and carry

  lemma CarryTest(x: real, f: real, p: real)
    requires p >= 1.0 && x == f * p
    ensures f + 1.0 / p / 2.0 >= 1.0 <==> x + 0.5 >= p
  {
    var h := 1.0 / p / 2.0;
    assert h * p == 0.5;
    assert (f + h) * p == x + 0.5;
    if f + h >= 1.0 {
      assert (f + h) * p >= 1.0 * p;
    } else {
      assert (f + h) * p < 1.0 * p;
    }
  }

  lemma SplitProduct(u: int, f: real, p: nat)
    ensures (u as real + f) * p as real == (u * p) as real + f * p as real
  {
  }

  lemma FractionBounds(f: real, p: real)
    requires 0.0 <= f < 1.0 && p > 0.0
    ensures 0.0 <= f * p < p
  {
  }

  lemma RoundSum(k: nat, x: real, p: nat)
    requires 0.0 <= x < p as real
    ensures 0 <= Round(x) <= p
    ensures Round(x) == p <==> x + 0.5 >= p as real
    ensures Round(k as real + x) == k + Round(x)
  {
  }

  /** Rounding only the fraction and carrying into the whole part rounds the number; the carry test holds
      exactly when the rounded fraction reaches the unit. */
  lemma RoundBySplitting(n: real, u: nat, p: nat)
    requires u as real <= n < u as real + 1.0 && p >= 1
    ensures var f := n - u as real;
      var r := Round(f * p as real);
      && 0 <= r <= p
      && (f + 1.0 / p as real / 2.0 >= 1.0 <==> r == p)
      && Round(n * p as real) == u * p + r
  {
    var f := n - u as real;
    var x := f * p as real;
    assert 0.0 <= x < p as real by { FractionBounds(f, p as real); }
    assert f + 1.0 / p as real / 2.0 >= 1.0 <==> x + 0.5 >= p as real by { CarryTest(x, f, p as real); }
    assert n * p as real == (u * p) as real + x by {
      SplitProduct(u, f, p);
      assert n == u as real + f;
    }
    RoundSum(u * p, x, p);
  }

  // ---------------------------------------------------------------- The formatter

  /** The low digits of `n` at `width` places, of which `tail` is already written. */
  ghost predicate Remaining(n: nat, width: nat, ul: nat, ed: nat, tail: seq<byte>) {
    && 20 <= ed == 20 + width - |tail|
    && ul < Pow10(ed - 20)
    && Padded(n, width) == Padded(ul, ed - 20) + tail
  }

  lemma TwoFewerRemain(n: nat, width: nat, ul: nat, ed: nat, tail: seq<byte>)
    requires Remaining(n, width, ul, ed, tail) && ed >= 22
    ensures Remaining(n, width, ul / 100, ed - 2, TwoDigits(ul % 100) + tail)
  {
    TwoMorePadded(ul, ed - 20);
  }

  lemma LastRemains(n: nat, width: nat, ul: nat, tail: seq<byte>)
    requires Remaining(n, width, ul, 21, tail)
    ensures ul % 100 == ul < 10 && Padded(n, width) == [Digit(ul)] + tail
  {
    OnePadded(ul);
  }

  /** Writes the `prec` low digits of `ul` so that they end at byte 20 + prec. */
  method WriteFraction(ul0: uint64, prec: nat, buf: array<byte>)
    requires buf.Length == 39 && 0 < prec < 18 && ul0 < Pow10(prec)
    modifies buf
    ensures Written(buf[..], old(buf[..]), 21, Padded(ul0, prec), old(buf[21 + prec..]))
  {
    var ul: uint64 := ul0;
    var ed := 20 + prec;
    ghost var before, tail, after := buf[..], [], buf[21 + prec..];
    while ed > 20
      invariant ed <= 20 + prec && Remaining(ul0, prec, ul, ed, tail)
      invariant Written(buf[..], before, ed + 1, tail, after)
    {
      var low := ul % 100;
      if ed == 21 {
        LastRemains(ul0, prec, ul, tail);
        PrependByte(buf, ed + 1, Digit(low), before, tail, after);
        return;
      } else {
        TwoFewerRemain(ul0, prec, ul, ed, tail);
        PrependTwoDigits(buf, ed + 1, low, before, tail, after);
        tail := TwoDigits(low) + tail;
        ul := ul / 100;
        ed := ed - 2;
      }
    }
  }

  lemma OnePadded(n: nat)
    requires n < Pow10(1)
    ensures n < 10 && n % 100 == n && Padded(n, 1) == [Digit(n)]
  {
    assert Pow10(1) == 10;
    assert Padded(n, 1) == Padded(n / 10, 0) + [Digit(n % 10)];
  }

  lemma TwoMorePadded(n: nat, width: nat)
    requires width >= 2
    ensures Padded(n, width) == Padded(n / 100, width - 2) + TwoDigits(n % 100)
    ensures n < Pow10(width) ==> n / 100 < Pow10(width - 2)
  {
    assert n / 10 / 10 == n / 100;
    assert n % 100 / 10 == n / 10 % 10;
    assert n % 100 % 10 == n % 10;
    assert Padded(n, width) == (Padded(n / 100, width - 2) + [Digit(n / 10 % 10)]) + [Digit(n % 10)];
    assert Pow10(width) == 100 * Pow10(width - 2);
  }

  predicate Eligible(n: real) {
    MIN_ELIGIBLE as real <= n <= MAX_ELIGIBLE as real
  }

  lemma {:induction false} Pow10Monotone(a: nat, b: nat)
    requires a <= b
    ensures Pow10(a) <= Pow10(b)
  {
    if a < b {
      Pow10Monotone(a, b - 1);
    }
  }

  lemma Carry(u: nat, p: nat)
    ensures u * p + p == (u + 1) * p
  {
  }

  /** Splits a magnitude into whole part and rounded fraction, with the carry; `p` is 10^prec. */
  method SplitAndRound(m: real, p: nat) returns (u: int64, ul: uint64)
    requires 0.0 <= m <= MAX_ELIGIBLE as real && 1 <= p <= 100000000000000000
    ensures 0 <= u <= MAX_ELIGIBLE + 1 && ul < p
    ensures u * p + ul == Scaled(m, p)
  {
    u := m.Floor;
    var l := m - u as real;
    RoundBySplitting(m, u, p);
    if l + 1.0 / p as real / 2.0 >= 1.0 {
      Carry(u, p);
      u := u + 1;
      ul := 0;
    } else {
      ul := Round(l * p as real);
    }
  }

  lemma ScaledAbs(n: real, p: nat)
    requires p >= 1
    ensures Scaled(Abs(n), p) == Scaled(n, p)
  {
    assert Abs(Abs(n)) == Abs(n);
  }

  /** Whole part and fraction of the magnitude of `n`, rounded to `prec` digits. */
  method RoundTo(n: real, prec: nat) returns (u: int64, ul: uint64)
    requires Eligible(n) && prec < 18
    ensures 0 <= u && ul < Pow10(prec) && |Numeral(u)| <= 19
    ensures u * Pow10(prec) + ul == Scaled(n, Pow10(prec))
  {
    var p := Pow10(prec);
    assert p <= 100000000000000000 by {
      Pow10Monotone(prec, 17);
      PowersOfTen();
    }
    u, ul := SplitAndRound(Abs(n), p);
    ScaledAbs(n, p);
    NumeralFits64(u);
  }

  /** Sign and whole part, ending just before byte 20. */
  method WriteWhole(negative: bool, u: uint64, buf: array<byte>) returns (pos: nat)
    requires buf.Length == 39 && |Numeral(u)| <= 19
    modifies buf
    ensures pos + |SignedWhole(negative, u)| == 20
    ensures Written(buf[..], old(buf[..]), pos, SignedWhole(negative, u), old(buf[20..]))
  {
    ghost var before := buf[..];
    pos := WriteNumeral(u, buf, 20);
    if negative {
      PrependByte(buf, pos, '-', before, Numeral(u), before[20..]);
      pos := pos - 1;
    }
  }

  function SignedWhole(negative: bool, u: nat): seq<byte> {
    (if negative then ['-'] else []) + Numeral(u)
  }

  /** The point at byte 20 and the fraction behind it. */
  method WritePointAndFraction(ul: uint64, prec: nat, buf: array<byte>)
    requires buf.Length == 39 && 0 < prec < 18 && ul < Pow10(prec)
    modifies buf
    ensures Written(buf[..], old(buf[..]), 20, ['.'] + Padded(ul, prec), old(buf[21 + prec..]))
  {
    buf[20] := '.';
    WriteFraction(ul, prec, buf);
  }

  /** Lays out sign, whole part, point and fraction around byte 20. */
  method Layout(negative: bool, u: uint64, ul: uint64, prec: nat, buf: array<byte>) returns (out: seq<byte>)
    requires buf.Length == 39 && prec < 18 && |Numeral(u)| <= 19 && ul < Pow10(prec)
    modifies buf
    ensures out == Assemble(negative, Numeral(u), Padded(ul, prec))
    ensures var end := if prec == 0 then 20 else 21 + prec;
      && |out| <= end
      && Written(buf[..], old(buf[..]), end - |out|, out, old(buf[end..]))
  {
    ghost var before := buf[..];
    var pos := WriteWhole(negative, u, buf);
    ghost var head := SignedWhole(negative, u);
    if prec == 0 {
      assert Padded(ul, 0) == [];
      out := buf[pos..20];
    } else {
      ghost var middle := buf[..];
      WritePointAndFraction(ul, prec, buf);
      JoinParts(buf[..], middle, before, pos, head, ['.'] + Padded(ul, prec));
      out := buf[pos..21 + prec];
    }
  }

  lemma AssembledMagnitude(negative: bool, u: nat, ul: nat, prec: nat)
    requires ul < Pow10(prec)
    ensures var s := Assemble(negative, Numeral(u), Padded(ul, prec));
      && IsFixed(s, prec)
      && (s[0] == '-' <==> negative)
      && Magnitude(s, prec) == u * Pow10(prec) + ul
  {
    var whole, frac := Numeral(u), Padded(ul, prec);
    assert IsCanonical(whole) && Value(whole) == u by { NumeralReadsBack(u); }
    assert AllDigits(frac) && Value(frac) == ul by { PaddedReadsBack(ul, prec); }
    AssembledReadsBack(negative, whole, frac);
  }

  /** The fixed-point formatter: `n` rounded half away from zero to exactly `prec` fractional digits; all
      other bytes of the buffer are as they were. */
  method F64Dig(n: real, prec: nat, buf: array<byte>) returns (out: seq<byte>)
    requires buf.Length == 39 && Eligible(n) && prec < 18
    modifies buf
    ensures IsFixed(out, prec) && Magnitude(out, prec) == Scaled(n, Pow10(prec))
    ensures out[0] == '-' <==> n < 0.0
    ensures var end := if prec == 0 then 20 else 21 + prec;
      && |out| <= end && buf[end - |out|..end] == out
      && forall i | 0 <= i < end - |out| || end <= i < 39 :: buf[i] == old(buf[i])
  {
    var u, ul := RoundTo(n, prec);
    AssembledMagnitude(n < 0.0, u, ul, prec);
    out := Layout(n < 0.0, u, ul, prec, buf);
  }

  /** Writing a stretch and then the stretch behind it writes both. */
  lemma JoinParts<T>(all: seq<T>, middle: seq<T>, before: seq<T>, pos: nat, head: seq<T>, tail: seq<T>)
    requires pos + |head| == 20 <= |before| && 20 + |tail| <= |before|
    requires Written(middle, before, pos, head, before[20..])
    requires Written(all, middle, 20, tail, middle[20 + |tail|..])
    ensures Written(all, before, pos, head + tail, before[20 + |tail|..])
    ensures all[pos..20 + |tail|] == head + tail
  {
    assert middle[20 + |tail|..] == middle[20..][|tail|..];
    assert before[20 + |tail|..] == before[20..][|tail|..];
    assert middle[..20] == before[..pos] + head;
  }

  /** The exported formatter. `None` stands for the `strconv.FormatFloat` fallback. */
  method Float64ToBytes(n: real, prec: int, buf: array<byte>) returns (out: Option<seq<byte>>)
    requires buf.Length == 39
    modifies buf
    ensures out.Some? <==>
      if n == 0.0 then prec < 18
      else -9223372036854775295.0 <= n <= 9223372036854775295.0 && 0 <= prec < 18
    ensures out.Some? ==>
      var digits := if prec < 0 then 0 else prec;
      && IsFixed(out.value, digits)
      && Magnitude(out.value, digits) == Scaled(n, Pow10(digits))
      && (out.value[0] == '-' <==> n < 0.0)
    ensures n == 0.0 || out.None? ==> buf[..] == old(buf[..])
  {
    if n == 0.0 {
      if prec < 18 {
        var digits := if prec < 0 then 0 else prec;
        var text := ZeroText(digits);
        return Some(text);
      }
    } else if Eligible(n) && 0 <= prec < 18 {
      var text := F64Dig(n, prec, buf);
      return Some(text);
    }
    return None;
  }

  /** The table of zeros. */
  method ZeroText(prec: nat) returns (text: seq<byte>)
    ensures IsFixed(text, prec) && Magnitude(text, prec) == Scaled(0.0, Pow10(prec)) && text[0] != '-'
  {
    text := Assemble(false, ['0'], seq(prec, _ => '0'));
    ZeroIsPadded(prec);
    assert Numeral(0) == ['0'];
    AssembledMagnitude(false, 0, 0, prec);
    ScaledIsUnique(0.0, Pow10(prec), 0);
  }

  lemma {:induction false} ZeroIsPadded(width: nat)
    ensures Padded(0, width) == seq(width, _ => '0')
  {
    if width > 0 {
      ZeroIsPadded(width - 1);
    }
  }
}
