# Dims text codec

A Dafny model of the `stringer`-generated codec for the `Dims` enumeration of
the `mat32` package. The enumeration has four axis values, X, Y, Z and W, and
a sentinel, DimsN. The codec keeps all five names in one packed string
(`"XYZWDimsN"`) with an offset table (`{0, 1, 2, 3, 4, 9}`).

- `Dims.String` renders a value. Values 0 to 4 become the name cut out between
  two consecutive offsets. Any other integer, negative ones included, becomes
  `"Dims(" + decimal + ")"`.
- `Dims.FromString` searches the table in order for a name equal to its
  argument. On a match it stores that position in the receiver and returns nil.
  Otherwise it returns the error
  `"String: " + s + " is not a valid option for type: Dims"` and leaves the
  receiver as it was.

Modules:

- `Decimal` (`decimal.dfy`) models `strconv.FormatInt(v, 10)`, which the
  fallback rendering calls. `ParseInt` reads a canonical signed numeral back and
  serves as its partner. The two are proved inverse in both directions.
- `DimsString` (`dims_string.dfy`) models the name table, `String` and
  `FromString`. `FromString` is given twice. The function `FromString` returns
  the error and the receiver's new value as a `Decoded` record. The method
  `FromStringLoop` follows the loop as written, on a non-nil receiver, and it
  is proved to agree with the function.

Modelling choices:

- `Dims` is a Go `int` on a 64-bit platform. It is a subset type of `int` over
  the signed 64-bit range, so the conversion `int64(i)` loses nothing. The
  Go file declaring `Dims` and its constants is not part of this model. The
  constants `X` to `DimsN` are given here the values 0 to 4, which is the
  numbering the generated table implies.
- Go strings are byte strings. Here they are `seq<char>`, with each byte
  standing for one `char`. Under that mapping every Go string, including one
  that is not valid UTF-8, has a representation. The codec only compares,
  slices and concatenates strings, and every literal is ASCII, so nothing
  depends on the alphabet.
- A Go `error` is an `Option<string>`: `None` is nil, and `Some(msg)` is an
  error whose text is `msg`. The receiver pointer becomes an input value plus
  the receiver's value afterwards.

## Model

| member | source | states |
|---|---|---|
| DimsString.EnumerantNames | mat32/dims_string.go:12-20 | the constants X, Y, Z, W and DimsN are rendered as "X", "Y", "Z", "W" and "DimsN" |
| DimsString.IndexWellFormed | mat32/dims_string.go:12-14 | the offset table has one more entry than there are names, starts at 0, is strictly increasing and ends at the length of the packed name string |
| DimsString.Slice | mat32/dims_string.go:20 | each table slice is non-empty and equals the written-out name: "X", "Y", "Z", "W", "DimsN" |
| DimsString.NamesDistinct | mat32/dims_string.go:12-14 | two positions whose names are equal are the same position |
| DimsString.String | mat32/dims_string.go:16-21 | a value in [0, 5) is rendered as its name; any other value is rendered as "Dims(", then a canonical signed decimal whose value is the input, then ")" |
| DimsString.Search | mat32/dims_string.go:24-29 | the search from position j returns the first position at or after j whose name is s, and returns nothing exactly when no such position exists |
| DimsString.FromString | mat32/dims_string.go:23-31 | on success the receiver holds a value in [0, 5) whose rendering is s; on failure the error text is "String: " + s + " is not a valid option for type: Dims" and the receiver is unchanged |
| DimsString.FromStringLoop | mat32/dims_string.go:23-31 | on a non-nil receiver, the loop over the table, as written, returns the same error and leaves the same receiver value as the functional model |
| DimsString.RoundTrip | mat32/dims_string.go:16-27 | for every valid value, decoding its rendering succeeds and yields that value, whatever the receiver held before |
| DimsString.RejectsExactlyNonNames | mat32/dims_string.go:23-30 | decoding fails, with the fixed message and the receiver unchanged, if and only if s is not one of the five names |
| DimsString.FallbackNeverDecodes | mat32/dims_string.go:17-18 | the rendering of any out-of-range value is rejected by decoding, and the receiver is unchanged |
| DimsString.StringInjective | mat32/dims_string.go:16-21 | distinct values, in range or not, are rendered as distinct strings |
| Decimal.Digits | mat32/dims_string.go:18 | the rendering of a magnitude is a canonical numeral with no leading zero, and it reads back as the same number |
| Decimal.FormatInt | mat32/dims_string.go:18 | the decimal rendering is a canonical signed numeral, reads back as the input, and starts with '-' exactly when the input is negative |
| Decimal.DigitsOfParseNat | mat32/dims_string.go:18 | every canonical numeral is the rendering of its own value |
| Decimal.FormatIntOfParseInt | mat32/dims_string.go:18 | every canonical signed numeral is the rendering of its own value, so the renderings are exactly the canonical signed numerals |
| Decimal.FormatIntInjective | mat32/dims_string.go:18 | distinct integers get distinct decimal renderings |

## Left out

- The `errors.New("dummy error")` at mat32/dims_string.go:10 is only there to keep the import used. It has no behaviour.
- A nil `*Dims` receiver is not modelled: Go panics at mat32/dims_string.go:26 when `s` is one of the names, and returns the error of line 30 otherwise. The model always has a receiver value.
- The error is modelled by its text only. The identity of the Go error value is not modelled.
- `strconv.FormatInt` is modelled for base 10 only, the only base the codec uses.
- The reflection-driven method and struct views in `giv/methview.go` and `giv/structview.go` are not part of this model. They consist of calls into GUI, signal and reflection libraries whose code is not visible.
