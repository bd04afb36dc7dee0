# go-login-api `global` helpers in Dafny

This project models the pure part of package `global` of the go-login-api
web service (`global/globalfunc.go`): the checks it makes on a user's email
address and password, the conversions between user identifiers or integers
and their decimal text, the formatter that turns a count of seconds into a
phrase such as `1 days, 1 hours`, and the conversion of an access time given
in minutes into seconds.

Every one of these Go functions is pure, so each becomes a Dafny `function`,
and what the code promises is proved in `ensures` clauses and lemmas.

- `go_types.dfy` (module `GoTypes`) holds Go's 64-bit `int` and `uint`. It
  also holds the conversions between them, which wrap, and 64-bit wrap-around
  arithmetic. A Go `string` is a sequence of bytes (`GoString`), so
  `len(s)` is `|s|`. A Go `error` is the datatype `Error`: either
  `errors.New(text)` or a `*strconv.NumError`.
- `strconv.dfy` (module `Strconv`) holds `strconv.Itoa` and `strconv.Atoi`
  as the helpers use them on a 64-bit platform. `Atoi` takes an optional sign
  and then decimal digits. If the value being scanned passes 2^64-1 while
  digits are still being read, it is a range error. A byte that is not a
  digit is a syntax error. A whole numeral outside the `int` range is a range
  error. Two lemmas connect the pair: `Atoi(Itoa(i)) == i` for every `int`,
  and `Itoa(Atoi(s)) == s` exactly when `s` is written the way `Itoa` writes.
- `validation.dfy` (module `Validation`) holds `IsValidEmail` and
  `IsValidPassword`. The email pattern
  `^[a-zA-Z0-9._%+-]+@[a-zA-Z0-9.-]+\.[a-zA-Z]{2,}$` is given as the
  language it denotes under RE2, where `$` is the end of the text. That
  language is `InEmailLanguage`. It is proved equal to a check made
  character by character. The check finds the first `@` and then the last
  `.` after it. A password is accepted exactly when its byte length is
  between 8 and 50 inclusive. The message for a long password says "less
  than 50", but 50 is accepted; the model keeps that behaviour.
- `conversions.dfy` (module `Conversions`) holds `UintToString`,
  `UserToUInt`, `StringToInt`, `IntToString` and `CalculateAccessTime`. A Go
  result pair `(value, error)` is a Dafny tuple, with `None` for `nil`.
  `UintToString` converts with `int(uid)` and `UserToUInt` converts back with
  `uint(id)`. Both conversions wrap, so the round trip holds for every
  `uint`, not only those up to 2^63-1. `UserToUInt("-1")` gives 2^64-1.
- `duration.dfy` (module `Duration`) holds `ActToString`. Go's `/` and `%`
  truncate toward zero, which `Quot` and `Rem` model. That makes
  `ActToString` defined for negative counts too. For a positive count, the
  contract states the phrase in terms of the count's whole days, hours of the
  day and minutes of the hour. When there are days and minutes but no hours,
  the zero hours are still printed, as in `1 days, 0 hours, 5 minutes`. A
  zero count is formatted as one hour.

## Model

| member | source | states |
|---|---|---|
| `GoTypes.IntToUint` | global/globalfunc.go:74 | `uint(id)` keeps the 64 bits: the result is congruent to the input modulo 2^64 and equal to it when the input is not negative |
| `GoTypes.UintToInt` | global/globalfunc.go:57 | `int(uid)` keeps the 64 bits: the result is congruent to the input modulo 2^64 and equal to it up to 2^63-1 |
| `GoTypes.WrapInt64` | global/globalfunc.go:245 | a 64-bit `int` product is the mathematical product modulo 2^64, and is the product itself when that fits |
| `GoTypes.IntToUintInverse` | global/globalfunc.go:74 | `int(uint(i)) == i` for every `int` |
| `GoTypes.UintToIntInverse` | global/globalfunc.go:57 | `uint(int(u)) == u` for every `uint` |
| `Strconv.Itoa` | global/globalfunc.go:198 | `strconv.Itoa` writes a canonical decimal numeral: no leading zero, no `+`, and a `-` exactly for negative values |
| `Strconv.NatToDecimal` | global/globalfunc.go:198 | the digits of a natural number have no leading zero, and start with `0` only for zero |
| `Strconv.ValueOfNatToDecimal` | global/globalfunc.go:198 | reading the written digits back gives the number again |
| `Strconv.NatToDecimalOfValue` | global/globalfunc.go:198 | a numeral without leading zero is exactly what is written for its value |
| `Strconv.Atoi` | global/globalfunc.go:68 | every `strconv.Atoi` error is a `NumError` that names `Atoi` and carries the whole input |
| `Strconv.AtoiAccepts` | global/globalfunc.go:68 | `Atoi` succeeds exactly on an optional sign followed by one or more digits whose value fits in `int`, returns that value, and rejects a well-formed numeral only as out of range |
| `Strconv.AtoiItoa` | global/globalfunc.go:190 | `Atoi(Itoa(i))` succeeds with `i` for every 64-bit `i` |
| `Strconv.ItoaAtoi` | global/globalfunc.go:190 | for accepted input, `Itoa(Atoi(s)) == s` exactly when `s` is in canonical form |
| `Validation.EmailShapeIsLanguage` | global/globalfunc.go:18-19 | the character-level check (one `@`, non-empty local part, domain-class bytes after it, a last `.` with something before it and two or more ASCII letters after it) accepts exactly the pattern's language |
| `Validation.EmailHasOneAt` | global/globalfunc.go:18 | an address the pattern accepts holds exactly one `@` |
| `Validation.IsValidEmail` | global/globalfunc.go:15-25 | the result is `nil` exactly for inputs in the pattern's language; otherwise it is the error "email must be valid" |
| `Validation.EmailAccepted` | global/globalfunc.go:18-24 | `a@b.co` is accepted |
| `Validation.EmailRejectsShortTopLevel` | global/globalfunc.go:18-22 | `a@b.c` is rejected: the top-level part needs two letters |
| `Validation.EmailRejectsEmptyDomain` | global/globalfunc.go:18-22 | `a@.co` is rejected: something must precede the last `.` |
| `Validation.EmailRejectsEmptyLocal` | global/globalfunc.go:18-22 | `@b.co` is rejected: the local part must not be empty |
| `Validation.EmailRejectsSecondAt` | global/globalfunc.go:18-22 | `a@b@c.co` is rejected: only one `@` |
| `Validation.EmailRejectsTrailingNewline` | global/globalfunc.go:18-22 | `a@b.co` followed by a newline is rejected, because `$` is the end of the text |
| `Validation.IsValidPassword` | global/globalfunc.go:27-46 | the result is `nil` exactly when 8 <= byte length <= 50 |
| `Validation.PasswordErrorOrder` | global/globalfunc.go:30-43 | an empty password gets "longer than 0 characters", lengths 1 to 7 get "at least 8 characters", lengths over 50 get "less than 50 characters" |
| `Conversions.UintToString` | global/globalfunc.go:56-58 | the text is canonical decimal; for `uid <= 2^63-1` it is the numeral of `uid`, and above that it is `-` followed by the numeral of `2^64 - uid` |
| `Conversions.UserToUInt` | global/globalfunc.go:60-75 | `""` gives `(0, "uid must be longer than 0 characters")`; any other input `Atoi` rejects gives `(0, "uid must be a number")`; it succeeds exactly on signed numerals within the `int` range, with a result congruent to their value modulo 2^64 |
| `Conversions.StringToInt` | global/globalfunc.go:189-195 | succeeds exactly on signed numerals within the `int` range, with their value; on failure it returns 0 and `Atoi`'s error for that input |
| `Conversions.IntToString` | global/globalfunc.go:197-199 | the text is a canonical signed numeral whose value is `i` |
| `Conversions.UserToUIntRoundTrip` | global/globalfunc.go:56-75 | `UserToUInt(UintToString(n)) == (n, nil)` for every 64-bit `uint` |
| `Conversions.StringToIntRoundTrip` | global/globalfunc.go:189-199 | `StringToInt(IntToString(i)) == (i, nil)` for every 64-bit `int` |
| `Conversions.IntToStringOfParsed` | global/globalfunc.go:189-199 | for parsed text, `IntToString(StringToInt(s)) == s` exactly when `s` is canonical |
| `Conversions.UserToUIntExamples` | global/globalfunc.go:60-75 | `""`, `"abc"` and `"+"` give their errors, `"42"` gives 42, and `"-1"` wraps to 2^64-1 |
| `Conversions.CalculateAccessTime` | global/globalfunc.go:238-246 | 60 when parsing fails; otherwise 60 times the parsed minutes modulo 2^64, and exactly that product when it fits in `int` |
| `Conversions.AccessTimeOfMinutes` | global/globalfunc.go:238-246 | minutes written by `IntToString` come back as 60 times those minutes when the product fits |
| `Conversions.AccessTimeExamples` | global/globalfunc.go:238-246 | `"10"` gives 600; `"bad"` and `""` give 60 |
| `Duration.Units` | global/globalfunc.go:203-212 | with zero replaced by 3600, a non-negative count is `day*86400 + hour*3600 + min*60 + t%60` with `day >= 0`, `0 <= hour < 24`, `0 <= min < 60`; for a negative count no unit is positive |
| `Duration.UnitsOfPositive` | global/globalfunc.go:207-212 | for a positive count the units are `t/86400`, `t/3600 % 24` and `t/60 % 60` |
| `Duration.UnitsOfNegative` | global/globalfunc.go:207-212 | for a negative count the minutes are the negated `(-t)/60 % 60` |
| `Duration.ActToString` | global/globalfunc.go:201-236 | a positive count is written as the phrase for its days, hours of the day and minutes of the hour; zero as `1 hours`; a negative count as its negated minutes of the hour followed by ` minutes` |
| `Duration.SplitIsUnique` | global/globalfunc.go:207-212 | days, hours under 24, minutes under 60 and seconds under 60 that add up to a count are exactly `t/86400`, `t/3600 % 24` and `t/60 % 60` |
| `Duration.ActToStringPhrase` | global/globalfunc.go:207-233 | any split of a positive count into days, hours under 24, minutes under 60 and seconds under 60 determines the printed phrase |
| `Duration.ZeroIsOneHour` | global/globalfunc.go:203-225 | `ActToString(0) == ActToString(3600) == "1 hours"` |
| `Duration.SecondsAreDropped` | global/globalfunc.go:207-212 | two positive counts with the same whole minutes print the same phrase |
| `Duration.DayAndHourExample` | global/globalfunc.go:215-220 | 90000 seconds print `1 days, 1 hours` |
| `Duration.WholeDayExample` | global/globalfunc.go:215-217 | 86400 seconds print `1 days` |
| `Duration.ZeroHoursPrintedExample` | global/globalfunc.go:215-223 | 86700 seconds print `1 days, 0 hours, 5 minutes` |
| `Duration.HourAndMinuteExample` | global/globalfunc.go:224-228 | 3660 seconds print `1 hours, 1 minutes` |
| `Duration.UnderAMinuteExample` | global/globalfunc.go:229-233 | 59 seconds print `0 minutes` |
| `Duration.NegativeExample` | global/globalfunc.go:231-233 | -120 seconds print `-2 minutes` |

## Left out

- The database functions are not modelled. These are `EmailExists`, `GetEmailFromUid`, `UIntToUser`, `EmailToUser`, `CountUsers`, `GetAuthUsers`, `GetCountAuthUsers`, `GetUnauthUsers`, `GetCountUnauthUsers`, `GetNewUsers`, `GetCountNewUsers`, `GetUser`, `GetDeletedUsers` and `GetCountDeletedUsers`. Each is one query through an ORM and a global handle that are not part of this model.
- `HashPassword` and `CheckPasswordHash` are not modelled. They call bcrypt, whose salted hashing is not part of this model.
- The regular-expression engine is not modelled; only the language of the one pattern used.
- Strconv.Atoi: on a range error Go also returns the clamped limit value. The model does not carry that value, because every caller here discards it.
- An `error`'s text from `Error()` is not modelled. A `NumError` is kept as its fields: function, input and cause.
- `fmt.Sprintf("%d", …)` is modelled as `Itoa`, which gives the same text for an `int`.
- `int` and `uint` are taken to be 64 bits wide, as on the usual 64-bit platforms.
