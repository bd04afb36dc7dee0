/** The identifier and integer conversions of package `global`, thin wrappers
    over `strconv.Itoa` and `strconv.Atoi`, and `CalculateAccessTime`, which
    turns a count of minutes given as text into seconds. A Go pair
    `(value, error)` is a tuple whose second half is `None` for `nil`. */
module Conversions {
  import opened GoTypes
  import opened Strconv

  /** `UintToString`: the decimal text of `int(uid)`. An identifier up to
      2^63-1 is written as itself; a larger one wraps to the negative `int`
      with the same bits. */
  function UintToString(uid: Uint64): (r: GoString)
    ensures IsCanonicalDecimal(r)
    ensures uid <= MAX_INT64 ==> IsNumeral(r) && DecimalValue(r) == uid
    ensures uid > MAX_INT64 ==> r[0] == '-' && IsNumeral(r[1..]) && DecimalValue(r[1..]) == TWO_TO_64 - uid
  {
    var i := UintToInt(uid);
    if i >= 0 then ValueOfNatToDecimal(i); Itoa(i)
    else ValueOfNatToDecimal(-(i as int)); Itoa(i)
  }

  /** `UserToUInt`: the empty string is refused before parsing, with its own
      message; any other input `Atoi` rejects is "uid must be a number"; a
      parsed `int` becomes a `uint` by Go's conversion, so negatives wrap. */
  function UserToUInt(uid: GoString): (r: (Uint64, Option<Error>))
    ensures uid == [] ==> r == (0, Some(Message("uid must be longer than 0 characters")))
    ensures uid != [] && Atoi(uid).Failure? ==> r == (0, Some(Message("uid must be a number")))
    ensures r.1.None? <==> IsSignedNumeral(uid) && MIN_INT64 <= SignedValue(uid) <= MAX_INT64
    ensures r.1.None? ==> (r.0 - SignedValue(uid)) % TWO_TO_64 == 0
  {
    AtoiAccepts(uid);
    if uid == [] then (0, Some(Message("uid must be longer than 0 characters")))
    else match Atoi(uid)
      case Failure(_) => (0, Some(Message("uid must be a number")))
      case Success(id) => (IntToUint(id), None)
  }

  /** `StringToInt`: `Atoi`'s value, or 0 together with `Atoi`'s own error. */
  function StringToInt(str: GoString): (r: (Int64, Option<Error>))
    ensures r.1.None? <==> IsSignedNumeral(str) && MIN_INT64 <= SignedValue(str) <= MAX_INT64
    ensures r.1.None? ==> r.0 == SignedValue(str)
    ensures r.1.Some? ==> Atoi(str).Failure? && r == (0, Some(Atoi(str).error))
  {
    AtoiAccepts(str);
    match Atoi(str)
    case Failure(e) => (0, Some(e))
    case Success(i) => (i, None)
  }

  /** `IntToString`: the decimal text of `i`. */
  function IntToString(i: Int64): (r: GoString)
    ensures IsCanonicalDecimal(r)
    ensures IsSignedNumeral(r) && SignedValue(r) == i
  {
    AtoiItoa(i);
    AtoiAccepts(Itoa(i));
    Itoa(i)
  }

  /** Every identifier survives the trip through its text, including those
      above 2^63-1, whose text is negative. */
  lemma UserToUIntRoundTrip(n: Uint64)
    ensures UserToUInt(UintToString(n)) == (n, None)
  {
    AtoiItoa(UintToInt(n));
    UintToIntInverse(n);
  }

  /** Every `int` survives the trip through its text. */
  lemma StringToIntRoundTrip(i: Int64)
    ensures StringToInt(IntToString(i)) == (i, None)
  {
    AtoiItoa(i);
  }

  /** Text in the form `IntToString` writes is the only text that survives
      the trip back: parsing then printing reproduces exactly the canonical
      inputs. */
  lemma IntToStringOfParsed(str: GoString)
    requires StringToInt(str).1.None?
    ensures IntToString(StringToInt(str).0) == str <==> IsCanonicalDecimal(str)
  {
    ItoaAtoi(str);
  }

  lemma UserToUIntExamples()
    ensures UserToUInt("") == (0, Some(Message("uid must be longer than 0 characters")))
    ensures UserToUInt("abc") == (0, Some(Message("uid must be a number")))
    ensures UserToUInt("+") == (0, Some(Message("uid must be a number")))
    ensures UserToUInt("42") == (42, None)
    ensures UserToUInt("-1") == (MAX_UINT64, None)
  {
    AtoiItoa(42);
    AtoiItoa(-1);
    assert Itoa(-1) == "-1";
  }

  /** `CalculateAccessTime`: the minutes `StringToInt` parses, or 1 when it
      fails, times 60, computed in 64-bit `int` arithmetic. */
  function CalculateAccessTime(t: GoString): (r: Int64)
    ensures StringToInt(t).1.Some? ==> r == 60
    ensures StringToInt(t).1.None? ==> (r - 60 * StringToInt(t).0) % TWO_TO_64 == 0
    ensures StringToInt(t).1.None? && MIN_INT64 <= 60 * StringToInt(t).0 <= MAX_INT64 ==>
      r == 60 * StringToInt(t).0
  {
    var (parsed, err) := StringToInt(t);
    var minutes := if err.Some? then 1 else parsed;
    WrapInt64(60 * minutes)
  }

  /** A count of minutes written by `IntToString` comes back as that many
      minutes in seconds, as long as the product fits in an `int`. */
  lemma AccessTimeOfMinutes(m: Int64)
    requires MIN_INT64 <= 60 * m <= MAX_INT64
    ensures CalculateAccessTime(IntToString(m)) == 60 * m
  {
    StringToIntRoundTrip(m);
  }

  lemma AccessTimeExamples()
    ensures CalculateAccessTime("10") == 600
    ensures CalculateAccessTime("bad") == 60
    ensures CalculateAccessTime("") == 60
  {
    AccessTimeOfMinutes(10);
    assert IntToString(10) == "10";
    var bad: GoString := "bad";
    assert !IsSignedNumeral(bad) by {
      assert !IsDigit(bad[0]);
    }
  }
}
