/** The two functions of Go's `strconv` package that `global` wraps:
    `Itoa` (decimal rendering of an `int`) and `Atoi` (base-10 parsing into
    an `int`, with `ParseInt`'s error reporting). */
module Strconv {
  import opened GoTypes

  predicate IsDigit(c: char) {
    '0' <= c <= '9'
  }

  function DigitValue(c: char): (d: nat)
    requires IsDigit(c)
    ensures d < 10
  {
    c as int - '0' as int
  }

  function DigitChar(d: nat): (c: Byte)
    requires d < 10
    ensures IsDigit(c) && DigitValue(c) == d
  {
    ('0' as int + d) as char
  }

  predicate AllDigits(s: GoString) {
    forall i :: 0 <= i < |s| ==> IsDigit(s[i])
  }

  /** One or more decimal digits. */
  predicate IsNumeral(s: GoString) {
    |s| > 0 && AllDigits(s)
  }

  /** A numeral with no superfluous leading zero. */
  predicate NoLeadingZero(s: GoString) {
    IsNumeral(s) && (s[0] == '0' ==> |s| == 1)
  }

  /** The form `Itoa` produces: `0`, a numeral without leading zero, or such a
      numeral that is not zero preceded by `-`. */
  predicate IsCanonicalDecimal(s: GoString) {
    NoLeadingZero(s) || (|s| >= 2 && s[0] == '-' && NoLeadingZero(s[1..]) && s[1] != '0')
  }

  /** An optional `+` or `-` followed by one or more decimal digits. */
  predicate IsSignedNumeral(s: GoString) {
    IsNumeral(s) || (|s| >= 2 && (s[0] == '+' || s[0] == '-') && IsNumeral(s[1..]))
  }

  /** The value of a string of decimal digits, most significant first. */
  function DecimalValue(s: GoString): nat
    requires AllDigits(s)
  {
    if s == [] then 0 else 10 * DecimalValue(s[..|s| - 1]) + DigitValue(s[|s| - 1])
  }

  /** The integer a signed numeral denotes. */
  function SignedValue(s: GoString): int
    requires IsSignedNumeral(s)
  {
    if IsNumeral(s) then DecimalValue(s)
    else if s[0] == '-' then -(DecimalValue(s[1..]) as int)
    else DecimalValue(s[1..])
  }

  /** The decimal digits of `n`, most significant first. */
  function NatToDecimal(n: nat): (r: GoString)
    ensures NoLeadingZero(r)
    ensures r[0] == '0' <==> n == 0
  {
    if n < 10 then [DigitChar(n)] else NatToDecimal(n / 10) + [DigitChar(n % 10)]
  }

  /** `strconv.Itoa`: the decimal rendering of `i`, with `-` for a negative value. */
  function Itoa(i: int): (r: GoString)
    ensures IsCanonicalDecimal(r)
    ensures r[0] == '-' <==> i < 0
  {
    if i < 0 then "-" + NatToDecimal(-i) else NatToDecimal(i)
  }

  /** The sign `Atoi` strips (`true` for `-`) and the rest of the input. */
  function SplitSign(s: GoString): (bool, GoString) {
    if |s| > 0 && s[0] == '-' then (true, s[1..])
    else if |s| > 0 && s[0] == '+' then (false, s[1..])
    else (false, s)
  }

  /** The longest prefix of `s` made of decimal digits: how far `ParseUint`
      scans before it meets a byte that is not a digit. */
  function DigitRun(s: GoString): (r: GoString)
    ensures |r| <= |s| && r == s[..|r|]
    ensures AllDigits(r)
    ensures |r| < |s| ==> !IsDigit(s[|r|])
  {
    if s == [] || !IsDigit(s[0]) then [] else [s[0]] + DigitRun(s[1..])
  }

  /** `strconv.Atoi` on a 64-bit platform. After an optional sign, digits are
      scanned left to right: a value that passes 2^64-1 while scanning is a
      range error, a byte that is not a digit (or nothing to scan) a syntax
      error, and a complete numeral outside the `int` range a range error.
      Every error names `Atoi` and carries the whole input. */
  function Atoi(s: GoString): (r: Result<Int64, Error>)
    ensures r.Failure? ==> r.error.NumError? && r.error.func == "Atoi" && r.error.num == s
  {
    var (negative, body) := SplitSign(s);
    var run := DigitRun(body);
    if body == [] then Failure(NumError("Atoi", s, ErrSyntax))
    else if DecimalValue(run) > MAX_UINT64 then Failure(NumError("Atoi", s, ErrRange))
    else if |run| < |body| then Failure(NumError("Atoi", s, ErrSyntax))
    else
      var v: int := if negative then -(DecimalValue(run) as int) else DecimalValue(run);
      if MIN_INT64 <= v <= MAX_INT64 then Success(v) else Failure(NumError("Atoi", s, ErrRange))
  }

  lemma DecimalValueSnoc(s: GoString, c: Byte)
    requires AllDigits(s) && IsDigit(c)
    ensures AllDigits(s + [c])
    ensures DecimalValue(s + [c]) == 10 * DecimalValue(s) + DigitValue(c)
  {
    assert (s + [c])[..|s|] == s;
  }

  /** Reading back the digits `NatToDecimal` writes gives the number again. */
  lemma {:induction false} ValueOfNatToDecimal(n: nat)
    ensures DecimalValue(NatToDecimal(n)) == n
  {
    if n < 10 {
      DecimalValueSnoc([], DigitChar(n));
      assert [] + [DigitChar(n)] == [DigitChar(n)];
    } else {
      ValueOfNatToDecimal(n / 10);
      DecimalValueSnoc(NatToDecimal(n / 10), DigitChar(n % 10));
    }
  }

  /** A numeral without leading zero is exactly what `NatToDecimal` writes
      for its value. */
  lemma {:induction false} NatToDecimalOfValue(d: GoString)
    requires NoLeadingZero(d)
    ensures NatToDecimal(DecimalValue(d)) == d
  {
    var last := d[|d| - 1];
    var front := d[..|d| - 1];
    assert d == front + [last];
    DecimalValueSnoc(front, last);
    if |d| == 1 {
      assert front == [];
      assert DigitChar(DigitValue(last)) == last;
    } else {
      assert front[0] == d[0];
      NatToDecimalOfValue(front);
      var n := DecimalValue(d);
      assert DecimalValue(front) != 0;
      assert n / 10 == DecimalValue(front) && n % 10 == DigitValue(last);
      assert DigitChar(DigitValue(last)) == last;
    }
  }

  /** `Atoi` accepts exactly the signed numerals whose value fits in `int`,
      and returns that value; a well-formed numeral is only ever rejected as
      out of range. */
  lemma AtoiAccepts(s: GoString)
    ensures Atoi(s).Success? <==> IsSignedNumeral(s) && MIN_INT64 <= SignedValue(s) <= MAX_INT64
    ensures Atoi(s).Success? ==> Atoi(s).value == SignedValue(s)
    ensures IsSignedNumeral(s) && Atoi(s).Failure? ==> Atoi(s).error.err == ErrRange
  {
    var (negative, body) := SplitSign(s);
    var run := DigitRun(body);
    if AllDigits(body) {
      assert run == body;
    }
    if IsNumeral(s) {
      assert s[0] != '-' && s[0] != '+';
      assert body == s;
    }
  }

  /** `Atoi` undoes `Itoa` on every `int`. */
  lemma AtoiItoa(i: Int64)
    ensures Atoi(Itoa(i)) == Success(i)
  {
    var s := Itoa(i);
    if i < 0 {
      var k: nat := -(i as int);
      ValueOfNatToDecimal(k);
      assert s[1..] == NatToDecimal(k);
      assert !IsDigit(s[0]);
    } else {
      ValueOfNatToDecimal(i);
    }
    AtoiAccepts(s);
  }

  lemma ItoaOfNegated(d: GoString)
    requires NoLeadingZero(d) && d[0] != '0'
    ensures Itoa(-(DecimalValue(d) as int)) == "-" + d
  {
    NatToDecimalOfValue(d);
  }

  /** `Itoa` undoes `Atoi` exactly on the inputs already written the way
      `Itoa` writes them (no `+`, no leading zero, no `-0`). */
  lemma ItoaAtoi(s: GoString)
    requires Atoi(s).Success?
    ensures Itoa(Atoi(s).value) == s <==> IsCanonicalDecimal(s)
  {
    AtoiAccepts(s);
    if NoLeadingZero(s) {
      NatToDecimalOfValue(s);
    } else if IsCanonicalDecimal(s) {
      assert !IsDigit(s[0]);
      ItoaOfNegated(s[1..]);
      assert s == "-" + s[1..];
    }
  }
}
