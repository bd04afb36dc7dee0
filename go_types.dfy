/** Go's built-in value types as the helpers in package `global` use them:
    64-bit `int` and `uint`, byte strings, and the `error` values they return. */
module GoTypes {

  const MIN_INT64: int := -0x8000_0000_0000_0000
  const MAX_INT64: int := 0x7FFF_FFFF_FFFF_FFFF
  const MAX_UINT64: int := 0xFFFF_FFFF_FFFF_FFFF
  const TWO_TO_64: int := 0x1_0000_0000_0000_0000

  /** Go's `int` on a 64-bit platform. */
  type Int64 = i: int | MIN_INT64 <= i <= MAX_INT64

  /** Go's `uint` on a 64-bit platform. */
  type Uint64 = n: int | 0 <= n <= MAX_UINT64

  /** One byte of a Go string, shown as the character with that code. */
  type Byte = c: char | c as int < 256 witness '0'

  /** A Go `string`: an immutable sequence of bytes, so `len(s)` is `|s|`. */
  type GoString = seq<Byte>

  datatype Option<T> = None | Some(value: T)

  datatype Result<T, E> = Success(value: T) | Failure(error: E)

  /** The two sentinel causes a `strconv.NumError` can carry. */
  datatype NumErrorKind = ErrSyntax | ErrRange

  /** Go `error` values: `errors.New(text)`, or a `*strconv.NumError` naming the
      strconv function, the input it was given and the cause. */
  datatype Error =
    | Message(text: string)
    | NumError(func: string, num: GoString, err: NumErrorKind)

  /** Go's conversion `uint(i)`: the same 64 bits read as unsigned. */
  function IntToUint(i: Int64): (u: Uint64)
    ensures (u - i) % TWO_TO_64 == 0
    ensures i >= 0 ==> u == i
  {
    if i >= 0 then i else i + TWO_TO_64
  }

  /** Go's conversion `int(u)`: the same 64 bits read as two's complement. */
  function UintToInt(u: Uint64): (i: Int64)
    ensures (u - i) % TWO_TO_64 == 0
    ensures u <= MAX_INT64 ==> i == u
  {
    if u <= MAX_INT64 then u else u - TWO_TO_64
  }

  /** The value a 64-bit `int` operation yields for the mathematical result `x`. */
  function WrapInt64(x: int): (r: Int64)
    ensures (x - r) % TWO_TO_64 == 0
    ensures MIN_INT64 <= x <= MAX_INT64 ==> r == x
  {
    (x - MIN_INT64) % TWO_TO_64 + MIN_INT64
  }

  /** Converting an `int` to `uint` and back loses nothing. */
  lemma IntToUintInverse(i: Int64)
    ensures UintToInt(IntToUint(i)) == i
  {
  }

  /** Converting a `uint` to `int` and back loses nothing. */
  lemma UintToIntInverse(u: Uint64)
    ensures IntToUint(UintToInt(u)) == u
  {
  }
}
