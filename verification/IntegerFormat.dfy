/** Formatting of integers from right to left, two digits at a time, into a caller's buffer. */
module IntegerFormat {
  import opened Decimal

  const TWO_32: nat := 0x1_0000_0000
  const MIN_INT64: int := -0x8000_0000_0000_0000
  const MAX_INT64: int := 0x7FFF_FFFF_FFFF_FFFF
  const TWO_64: nat := 0x1_0000_0000_0000_0000

  type int32 = n: int | -0x8000_0000 <= n < 0x8000_0000
  type int64 = n: int | MIN_INT64 <= n <= MAX_INT64
  type uint32 = n: int | 0 <= n < 0x1_0000_0000
  type uint64 = n: int | 0 <= n < 0x1_0000_0000_0000_0000

  /** The two-digit table. */
  function TwoDigits(n: nat): (s: seq<byte>)
    requires n < 100
  {
    [Digit(n / 10), Digit(n % 10)]
  }

  function SignedNumeral(n: int): seq<byte> {
    if n < 0 then ['-'] + Numeral(-n) else Numeral(n)
  }

  /** Reading a numeral with an optional minus sign. */
  predicate IsSignedCanonical(s: string) {
    if |s| > 0 && s[0] == '-' then IsCanonical(s[1..]) && s[1] != '0' else IsCanonical(s)
  }

  function SignedValue(s: string): int
    requires IsSignedCanonical(s)
  {
    if s[0] == '-' then 0 - Value(s[1..]) else Value(s)
  }

  lemma TwoMoreDigits(u: nat)
    requires u >= 100
    ensures Numeral(u) == Numeral(u / 100) + TwoDigits(u % 100)
  {
    assert u / 10 / 10 == u / 100;
    assert u % 100 / 10 == u / 10 % 10;
    assert u % 100 % 10 == u % 10;
    assert Numeral(u) == (Numeral(u / 100) + [Digit(u / 10 % 10)]) + [Digit(u % 10)];
  }

  lemma TwoLastDigits(u: nat)
    requires 10 <= u < 100
    ensures Numeral(u) == TwoDigits(u)
  {
  }

  /** `all` is `before` with the stretch that starts at `pos` and precedes `after` replaced by `tail`. */
  ghost predicate Written<T>(all: seq<T>, before: seq<T>, pos: nat, tail: seq<T>, after: seq<T>) {
    pos <= |before| && all == before[..pos] + tail + after
  }

  /** One table lookup: two digits stored in front of `tail`. */
  method PrependTwoDigits(buf: array<byte>, pos: nat, n: nat, ghost before: seq<byte>, ghost tail: seq<byte>,
                          ghost after: seq<byte>)
    requires n < 100 && 2 <= pos <= buf.Length && Written(buf[..], before, pos, tail, after)
    modifies buf
    ensures Written(buf[..], before, pos - 2, TwoDigits(n) + tail, after)
  {
    buf[pos - 1], buf[pos - 2] := TwoDigits(n)[1], TwoDigits(n)[0];
  }

  method PrependByte(buf: array<byte>, pos: nat, c: byte, ghost before: seq<byte>, ghost tail: seq<byte>,
                     ghost after: seq<byte>)
    requires 1 <= pos <= buf.Length && Written(buf[..], before, pos, tail, after)
    modifies buf
    ensures Written(buf[..], before, pos - 1, [c] + tail, after)
  {
    buf[pos - 1] := c;
  }

  /** The loop shared by the formatters: writes the numeral of `n` so that it ends just before `end`. */
  method WriteNumeral(n: uint64, buf: array<byte>, end: nat) returns (pos: nat)
    requires |Numeral(n)| <= end <= buf.Length
    modifies buf
    ensures pos == end - |Numeral(n)|
    ensures Written(buf[..], old(buf[..]), pos, Numeral(n), old(buf[end..]))
  {
    var u: uint64 := n;
    pos := end;
    ghost var before, tail, after := buf[..], [], buf[end..];
    while u >= 100
      invariant pos + |tail| == end && |Numeral(u)| <= pos
      invariant Numeral(n) == Numeral(u) + tail
      invariant Written(buf[..], before, pos, tail, after)
    {
      TwoMoreDigits(u);
      var low := u % 100;
      u := u / 100;
      PrependTwoDigits(buf, pos, low, before, tail, after);
      pos := pos - 2;
      tail := TwoDigits(low) + tail;
    }
    if u < 10 {
      PrependByte(buf, pos, Digit(u), before, tail, after);
      pos := pos - 1;
    } else {
      TwoLastDigits(u);
      PrependTwoDigits(buf, pos, u, before, tail, after);
      pos := pos - 2;
    }
  }

  lemma NumeralFits64(n: nat)
    requires n < TWO_64
    ensures |Numeral(n)| <= 20
    ensures n <= 0x8000_0000_0000_0000 ==> |Numeral(n)| <= 19
  {
    PowersOfTen();
    NumeralLength(n, 20);
    if n <= 0x8000_0000_0000_0000 {
      NumeralLength(n, 19);
    }
  }

  lemma NumeralFits32(n: nat)
    requires n < TWO_32
    ensures |Numeral(n)| <= 10
  {
    PowersOfTen();
    NumeralLength(n, 10);
  }

  /** Conversion to an unsigned type with `modulus` values. */
  function Wrap(n: int, modulus: nat): nat
    requires modulus > 0
  {
    n % modulus
  }

  /** Converting a negative number to the unsigned type and negating it there gives its magnitude, also
      for the minimum, whose magnitude the signed type cannot hold. */
  lemma NegationWraps(n: int, modulus: nat)
    requires 0 - modulus < n < 0
    ensures Wrap(0 - Wrap(n, modulus), modulus) == -n
  {
    assert n % modulus == n + modulus;
    assert (-(n + modulus)) % modulus == -n;
  }

  /* Each formatter returns a digit table entry for a short number (and then leaves the buffer alone),
     or the end of the buffer. */

  method UInt64ToBytes(n: uint64, buf: array<byte>) returns (out: seq<byte>)
    requires buf.Length == 20
    modifies buf
    ensures out == Numeral(n)
    ensures 0 <= n < 100 ==> buf[..] == old(buf[..])
    ensures !(0 <= n < 100) ==>
      && |out| <= buf.Length && buf[buf.Length - |out|..] == out
      && forall i | 0 <= i < buf.Length - |out| :: buf[i] == old(buf[i])
  {
    if n < 10 {
      return [Digit(n)];
    } else if n < 100 {
      TwoLastDigits(n);
      return TwoDigits(n);
    }
    NumeralFits64(n);
    var pos := WriteNumeral(n, buf, 20);
    out := buf[pos..];
  }

  method UInt32ToBytes(n: uint32, buf: array<byte>) returns (out: seq<byte>)
    requires buf.Length == 10
    modifies buf
    ensures out == Numeral(n)
    ensures 0 <= n < 100 ==> buf[..] == old(buf[..])
    ensures !(0 <= n < 100) ==>
      && |out| <= buf.Length && buf[buf.Length - |out|..] == out
      && forall i | 0 <= i < buf.Length - |out| :: buf[i] == old(buf[i])
  {
    if n < 10 {
      return [Digit(n)];
    } else if n < 100 {
      TwoLastDigits(n);
      return TwoDigits(n);
    }
    NumeralFits32(n);
    var pos := WriteNumeral(n, buf, 10);
    out := buf[pos..];
  }

  method Int64ToBytes(n: int64, buf: array<byte>) returns (out: seq<byte>)
    requires buf.Length == 20
    modifies buf
    ensures out == SignedNumeral(n)
    ensures 0 <= n < 100 ==> buf[..] == old(buf[..])
    ensures !(0 <= n < 100) ==>
      && |out| <= buf.Length && buf[buf.Length - |out|..] == out
      && forall i | 0 <= i < buf.Length - |out| :: buf[i] == old(buf[i])
  {
    ghost var before := buf[..];
    var neg, u: uint64 := false, 0;
    if n >= 0 {
      if n < 10 {
        return [Digit(n)];
      } else if n < 100 {
        TwoLastDigits(n);
        return TwoDigits(n);
      }
      u := n;
    } else {
      neg := true;
      u := Wrap(n, TWO_64);
      u := Wrap(0 - u, TWO_64);
      NegationWraps(n, TWO_64);
    }
    NumeralFits64(u);
    var pos := WriteNumeral(u, buf, 20);
    if neg {
      PrependByte(buf, pos, '-', before, Numeral(u), []);
      pos := pos - 1;
    }
    out := buf[pos..];
  }

  method Int32ToBytes(n: int32, buf: array<byte>) returns (out: seq<byte>)
    requires buf.Length == 11
    modifies buf
    ensures out == SignedNumeral(n)
    ensures 0 <= n < 100 ==> buf[..] == old(buf[..])
    ensures !(0 <= n < 100) ==>
      && |out| <= buf.Length && buf[buf.Length - |out|..] == out
      && forall i | 0 <= i < buf.Length - |out| :: buf[i] == old(buf[i])
  {
    ghost var before := buf[..];
    var neg, u: uint32 := false, 0;
    if n >= 0 {
      if n < 10 {
        return [Digit(n)];
      } else if n < 100 {
        TwoLastDigits(n);
        return TwoDigits(n);
      }
      u := n;
    } else {
      neg := true;
      u := Wrap(n, TWO_32);
      u := Wrap(0 - u, TWO_32);
      NegationWraps(n, TWO_32);
    }
    NumeralFits32(u);
    var pos := WriteNumeral(u, buf, 11);
    if neg {
      PrependByte(buf, pos, '-', before, Numeral(u), []);
      pos := pos - 1;
    }
    out := buf[pos..];
  }

  /** What the formatters return reads back as the number, and is canonical: no leading zero, and a sign
      only in front of a nonzero magnitude. */
  lemma SignedNumeralReadsBack(n: int)
    ensures IsSignedCanonical(SignedNumeral(n)) && SignedValue(SignedNumeral(n)) == n
  {
    if n < 0 {
      NumeralReadsBack(-n);
      assert SignedNumeral(n)[1..] == Numeral(-n);
    } else {
      NumeralReadsBack(n);
      assert IsDigit(Numeral(n)[0]);
    }
  }

  /** Numerals are decimal, the most significant digit first. */
  lemma SomeNumerals()
    ensures SignedNumeral(0) == "0" && SignedNumeral(907) == "907" && SignedNumeral(-1203) == "-1203"
  {
    assert Numeral(9) == "9" && Numeral(90) == "90" && Numeral(907) == "907";
    assert Numeral(1) == "1" && Numeral(12) == "12" && Numeral(120) == "120" && Numeral(1203) == "1203";
  }

  /** No other string does: a canonical numeral is the formatted form of its value. */
  lemma SignedCanonicalIsUnique(s: string)
    requires IsSignedCanonical(s)
    ensures SignedNumeral(SignedValue(s)) == s
  {
    if s[0] == '-' {
      CanonicalIsNumeral(s[1..]);
      CanonicalValue(s[1..]);
      assert s == ['-'] + s[1..];
    } else {
      CanonicalIsNumeral(s);
    }
  }
}
