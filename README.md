# image-generator: request parsing and format dispatch

image-generator is a placeholder-image service. A request
`GET /{size}/{bg}/{fg}[.ext]?text=...` names a size (`WxH` or `N`), a
background and a foreground colour (3 or 6 hex digits, optional `#`) and
optionally an overlay text. The service answers with an image of that size,
filled with the background colour and showing the text in the foreground
colour. The image is encoded as PNG, JPEG or GIF, as the path's extension asks.

This Dafny project models the decisions the service makes about a request:

- **Handler** (`handler.dfy`, from `internal/handler/image.go`). It parses
  the size segment and strips the foreground segment's extension. It parses
  both colours, derives the output format from the path, and hands the
  request to the image service. A parse failure becomes a 400 refusal and a
  rendering failure a 500 refusal.
- **Service** (`service.dfy`, from `internal/service/image.go`). It supplies
  the default overlay text `"{width}x{height}"`. It picks the encoder from
  the lower-cased format: JPEG at quality 90, GIF with 256 colours, PNG
  otherwise. A drawing error is passed on.
- **Go library pieces** that these rely on (`gostrings.dfy`,
  `strconv.dfy`). They cover `strings.Split`, `TrimPrefix`, `TrimSuffix`,
  `ToLower` and `path.Ext`, plus `strconv.ParseUint`, `strconv.Atoi` and
  `%d` formatting. Each is a reference definition with its own contract, so
  the handler's behaviour on edge cases follows from what Go does.
  Examples: `1x2x3`, `+5`, `-5`, `##abc`, `GİF`.

Everything in the modelled core is pure, so the model is made of
datatypes, functions returning a `Result`, and lemmas.

Three consequences of the code that a reader might not expect:

- The handler does not check that dimensions are positive. Every integer
  that `strconv.Atoi` accepts is a dimension: `0`, `-5` and `+5` are all
  accepted (`SizeAcceptsEveryInt`, `SizeZeroAccepted`, `SizeSignedAccepted`).
  There is no upper bound either.
- The size is split on every `x`, and exactly two parts are required, so
  `1x2x3` is refused as a whole (`ParseSize`, `SizeThreePartsRefused`).
- The handler keeps the extension's letter case (`FormatFromPath`). Only the
  service's encoder choice lowers it (`SelectEncoder`).

## Model

| member | source | states |
|---|---|---|
| `GoStrings.Count` | internal/handler/image.go:33 | The number of occurrences is zero exactly when the character is absent: the `strings.Contains(size, "x")` test |
| `GoStrings.Split` | internal/handler/image.go:34 | `strings.Split` on `x` yields one more part than there are separators; no part contains the separator; joining the parts with it gives the input back |
| `GoStrings.SplitTwo` | internal/handler/image.go:34-35 | `a + "x" + b` with `x` in neither part splits into exactly `[a, b]` |
| `GoStrings.TrimPrefix` | internal/handler/image.go:82 | `strings.TrimPrefix` removes the prefix exactly when the string starts with it (the prefix followed by the result is the string), and otherwise returns the string unchanged |
| `GoStrings.TrimSuffix` | internal/handler/image.go:66 | `strings.TrimSuffix` removes the suffix exactly when the string ends with it (the result followed by the suffix is the string), and otherwise returns the string unchanged |
| `GoStrings.LowerRune` | internal/service/image.go:100 | Lowering one rune maps a capital A-Z to its small letter. The result is a small ASCII letter exactly for a-z, A-Z, U+0130 and U+212A. Any other rune is left unchanged |
| `GoStrings.ToLower` | internal/service/image.go:100 | `strings.ToLower` keeps the length and lowers each rune in place |
| `GoStrings.ToLowerIsWord` | internal/service/image.go:100 | `strings.ToLower(s)` equals a lower-case word exactly when `s` spells it in any letter case; this counts `İ` (U+0130) as `i`, as Go's lowering does |
| `GoStrings.Ext` | internal/handler/image.go:65 | `path.Ext` is a suffix that holds no `/`. It is either empty or starts with the final `.` and holds no other. It is empty only when every `.` is followed by a `/` |
| `GoStrings.ExtOfDottedName` | internal/handler/image.go:65-66 | `name.suffix`, with no `.` or `/` in the suffix, has the extension `.suffix` |
| `GoStrings.ExtOfLastSegment` | internal/handler/image.go:82 | The extension of `dir/name` is that of `name`: the request path's extension is the `:fg` segment's |
| `GoStrings.ExtFromDot` | internal/handler/image.go:65 | A `.` followed by no `.` and no `/` starts the extension, which runs to the end of the path |
| `GoStrings.RuneLen` | internal/service/image.go:59 | A rune takes 1 to 4 bytes in UTF-8, and exactly 1 when it is ASCII |
| `GoStrings.Utf8Len` | internal/service/image.go:59 | Go's `len(text)` counts UTF-8 bytes. This is at least the number of runes and at most four times it, and equal to it exactly when every rune is ASCII |
| `GoStrings.Utf8LenAppend` | internal/service/image.go:59 | The byte length of a concatenation is the sum of the byte lengths |
| `GoStrconv.ParseUint` | internal/handler/image.go:137-140 | `strconv.ParseUint` with an explicit base succeeds exactly on non-empty numerals of that base whose value fits in `bitSize` bits, and returns that value. A fitting-length numeral never gives a range error; an all-digit numeral that is too large always does |
| `GoStrconv.DigitValue` | internal/handler/image.go:137 | The digit value in bases up to 36. It is below 10 exactly for `0`-`9`, and below 16 exactly for the hex digits of either case. Any other character is a digit in no base |
| `GoStrconv.ParseDigitsFrom` | internal/handler/image.go:137 | Go's digit loop. Success means every remaining character was a digit, and the value stays within the maximum. A syntax error means some remaining character is not a digit |
| `GoStrconv.ParseDigitsFromCorrect` | internal/handler/image.go:137 | Go's left-to-right digit loop (syntax error on a non-digit, range error on overflow, whichever comes first) agrees with the positional value of the numeral |
| `GoStrconv.ParseDigitsFromShort` | internal/handler/image.go:137 | The digit loop never reports a range error when every numeral of the input's length fits, for example six hex digits in 24 bits |
| `GoStrconv.Atoi` | internal/handler/image.go:39-59 | `strconv.Atoi` (64-bit `ParseInt(s, 10, 64)`) succeeds exactly on an optional `+` or `-` followed by at least one decimal digit whose signed value fits in 64 bits, and returns that value. A decimal integer that does not fit is a range error |
| `GoStrconv.AtoiShortNeverOverflows` | internal/handler/image.go:52 | Inputs shorter than 19 characters, where Go's `Atoi` takes its fast path, never give a range error |
| `GoStrconv.DigitChar` | internal/service/image.go:40 | The decimal digit written for `d` reads back as `d` |
| `GoStrconv.DecimalDigits` | internal/service/image.go:40 | The decimal numeral of `n` is non-empty, all digits, and denotes `n`. It has no leading zero: it is `0` itself or starts with a non-zero digit |
| `GoStrconv.Itoa` | internal/service/image.go:40 | `%d` writes `-` exactly for negative numbers, and never `+` or `x`. After the sign come the decimal digits of the magnitude, without a leading zero unless the number is `0` |
| `GoStrconv.AtoiItoa` | internal/service/image.go:40 | `Atoi` reads back what `%d` writes, for every 64-bit integer |
| `Handler.NormalizeHex` | internal/handler/image.go:129-132 | One leading `#` is removed. If three characters remain, each is doubled (position `i` of the result is character `i/2`). Otherwise the string is left as is |
| `Handler.ParseHexColor` | internal/handler/image.go:128-148 | Succeeds exactly when the normalised string is six hex digits. Any other length is a length error; otherwise a non-hex character is a syntax error. On success alpha is 255 and `R*2^16 + G*2^8 + B` is the hex value |
| `Handler.ChannelsOfRgb` | internal/handler/image.go:142-147 | The `>>16`, `>>8 & 0xFF` and `& 0xFF` split of a 24-bit value loses nothing: the three bytes recombine to the value |
| `Handler.RgbOfChannels` | internal/handler/image.go:142-147 | Splitting the value built from three bytes gives the same three bytes |
| `Handler.ParseHexColorCharacters` | internal/handler/image.go:128-140 | An accepted colour string holds only hex digits, apart from one leading `#`, so one that carries an extension is refused |
| `Handler.FormatHex` | internal/handler/image.go:142-147 | The canonical spelling of a colour is six hex digits |
| `Handler.ParseFormatHex` | internal/handler/image.go:128-148 | Parsing the six lower-case hex digits of an opaque colour, with or without `#`, gives that colour back |
| `Handler.FormatHexValue` | internal/handler/image.go:137-147 | The six digits of a colour denote its 24-bit value `R*2^16 + G*2^8 + B` |
| `Handler.FormatParseHex` | internal/handler/image.go:128-148 | Writing an accepted colour back as hex gives the normalised input in lower case |
| `Handler.ShorthandIsDoubled` | internal/handler/image.go:130-132 | `xyz` and `#xyz` parse exactly as `xxyyzz` does |
| `Handler.OneHashOnly` | internal/handler/image.go:129 | A string starting with `##` is always refused, because only one `#` is removed |
| `Handler.ForegroundGifExamples` | internal/handler/image.go:128-148 | `zzz` is not a colour, and `000` is opaque black |
| `Handler.StatusCode` | internal/handler/image.go:36-93 | A parse failure is answered with 400 and a generation failure with 500 |
| `Handler.Message` | internal/handler/image.go:36-93 | Every 400 body starts with `Invalid `, and the 500 body does not. A colour refusal ends with the refused string |
| `Handler.MessageDetermines` | internal/handler/image.go:36-93 | Different refusals have different bodies, so the body tells which check failed and which colour string was refused |
| `Handler.ParseSize` | internal/handler/image.go:31-59 | Two or more `x` give "Invalid size format". Without `x` a bad integer gives "Invalid size". Every other error is a width or height error. Dimensions are 64-bit integers |
| `Handler.SizeWidthThenHeight` | internal/handler/image.go:39-50 | For `W x H`, a bad width is reported even if the height is bad too. A bad height alone gives "Invalid height". Otherwise the dimensions are the two integers |
| `Handler.SizeSquare` | internal/handler/image.go:51-59 | A size without `x` is accepted exactly when it is an integer N, giving N by N |
| `Handler.SizeAcceptsEveryInt` | internal/handler/image.go:39-59 | Every pair of 64-bit integers written in decimal is accepted, zero and negatives included: there is no positivity check |
| `Handler.SizeZeroAccepted` | internal/handler/image.go:51-58 | `0` is accepted as a 0 by 0 image |
| `Handler.SizeSignedAccepted` | internal/handler/image.go:39-50 | `-5x+5` is accepted as -5 by 5: a sign on either side is allowed |
| `Handler.SizeThreePartsRefused` | internal/handler/image.go:33-37 | `1x2x3` gives "Invalid size format" |
| `Handler.SizeEmptyPartsRefused` | internal/handler/image.go:39-56 | `x5`, `5x` and the empty segment give "Invalid width", "Invalid height" and "Invalid size" |
| `Handler.DefaultTextIsSize` | internal/service/image.go:39-41 | The default text is `{width}x{height}` in decimal, and the size parser reads it back as the same dimensions |
| `Handler.StripForegroundExt` | internal/handler/image.go:64-67 | The stripped foreground followed by its extension is the original segment |
| `Handler.FormatFromPath` | internal/handler/image.go:81-85 | The format is the path's extension without its dot, in its original case. When that leaves nothing (no extension, or just `.`) it is `png` |
| `Handler.ForegroundExtensionIsFormat` | internal/handler/image.go:64-85 | On `/size/bg/fg`, the extension that sets the format is exactly the one stripped from the foreground |
| `Handler.DottedForeground` | internal/handler/image.go:64-85 | `name.suffix` is parsed as the colour `name` and asks for the format `suffix` |
| `Handler.ForegroundDecides` | internal/handler/image.go:75-85 | With size and background accepted, the stripped foreground alone decides the request. A refusal names the stripped string |
| `Handler.ForegroundSuffixSetsFormat` | internal/handler/image.go:61-85 | A foreground `name.suffix` yields format `suffix` and colour `name`, or a refusal naming `name` |
| `Handler.ParseRequest` | internal/handler/image.go:31-88 | Checks run in the order size, background, foreground, and the first failure is reported. The background is used as given. The foreground is stripped, and its refusal shows the stripped string. On success the text is passed on unchanged and the format comes from the path |
| `Handler.BackgroundNeverStripped` | internal/handler/image.go:61-73 | An accepted request's background holds no `.`: only the foreground loses its extension |
| `Handler.Handle` | internal/handler/image.go:88-95 | Succeeds exactly when the request parses and the service draws it. Parse errors are returned as they are, and a service failure becomes the 500 error. On success the drawn text is the defaulted text, and the encoder is chosen from the path's format |
| `Handler.DefaultTextShowsSize` | internal/service/image.go:39-41 | Without text, the image shows a text that parses back as its own size |
| `Service.DisplayText` | internal/service/image.go:39-41 | The drawn text is never empty, and a non-empty text is kept unchanged |
| `Service.TextLength` | internal/service/image.go:59-62 | The length used for font sizing is at least 1. For a non-empty text it is the text's length in UTF-8 bytes, as Go's `len` counts it |
| `Service.TextLengthCountsBytes` | internal/service/image.go:59 | `你好` counts as 6 (two three-byte runes), while `100x50` counts as 6 |
| `Service.TextLengthGuardNeverFires` | internal/service/image.go:39-62 | After defaulting, the `textLength == 0` guard never fires: the length is the byte length of the drawn text |
| `Service.SelectEncoder` | internal/service/image.go:100-107 | JPEG (quality 90) exactly for `jpg` or `jpeg` in any letter case. GIF (256 colours) exactly for `gif` in any letter case. PNG otherwise |
| `Service.SelectEncoderFallback` | internal/service/image.go:105-106 | `""`, `png` and `PNG` select PNG |
| `Service.SelectEncoderUnknown` | internal/service/image.go:100-106 | `bmp` and `gifs`, which are not exactly a recognised name, select PNG |
| `Service.SelectEncoderAnyCase` | internal/service/image.go:100-104 | `JPG` and `JpEg` select JPEG at 90; `GIF` and `GİF` select GIF with 256 colours |
| `Service.GenerateImage` | internal/service/image.go:94-107 | Fails exactly when drawing the defaulted text fails, and then returns that error. Otherwise it yields the non-empty defaulted text and the encoder for the format |

## Left out

- Routing and the HTTP exchange (internal/handler/image.go:88-125, main.go) are left out. This covers gin's `c.Param`/`c.Query`, the response writes, `Content-Type`, `Content-Length`, `Cache-Control` and `Last-Modified` (which reads the clock). The path segments, the decoded request path and the `text` query value are parameters of `ParseRequest`. `Content-Type` is built from the format as written, so a request for `.bmp` is labelled `image/bmp` while its body is PNG. The model does not capture this because headers are outside it.
- The ETag (SHA-1 of the encoded bytes) and the `If-None-Match` → 304 answer (internal/handler/image.go:97-117) are left out. They need a foreign hash and the encoded bytes.
- Writing the image into the buffer and its "Failed to write image" error (internal/handler/image.go:98-103) are left out, because the encoders are not modelled.
- The font-size and centring arithmetic (internal/service/image.go:51-93) is `float64` computation and is left out. Only the `textLength == 0` guard is modelled.
- Filling the background, the freetype context and drawing the glyphs (internal/service/image.go:32-49, 94) are library calls. Drawing enters `Service.GenerateImage` as a function parameter `drawString` that says whether drawing the text succeeded.
- The PNG, JPEG and GIF encoders (internal/service/image.go:110-135) are library code. The model keeps only which encoder is chosen and its one setting (quality 90, 256 colours).
- Loading the font in `NewImageService` and starting the server are startup I/O and are left out.
- Strings are sequences of characters (runes). Go's indexing and `len` count UTF-8 bytes instead, and this does not change any parsing outcome. Every byte of a multi-byte character is at least 0x80, which is never a digit, `#`, `x`, `.` or `/`. So any size or colour string holding such a character is refused in both readings. Only the internal error kind can differ, and the handler discards it. The font-sizing length is the one place where the count matters, and `Service.TextLength` counts bytes through `GoStrings.Utf8Len`.
- `GoStrings.LowerRune` lowers only what can become an ASCII letter: A-Z, U+0130 and U+212A (KELVIN SIGN). The lower case of every other non-ASCII character is non-ASCII. So it can never match `jpg`, `jpeg` or `gif`, and the model leaves such characters unchanged.
- `GoStrconv.ParseUint` requires a base of 2 to 36 and a bit size of 1 to 64. It does not model base 0 (prefixes and `_` separators) or the errors for a bad base or bit size. The core only calls base 16 with 24 bits and base 10 with 64 bits.
- `GoStrconv.Atoi` models the general `ParseInt(s, 10, 64)` path of a 64-bit platform. Go's separate fast path for inputs shorter than 19 characters is not modelled as its own function. `AtoiShortNeverOverflows` shows the general path cannot report a range error there.
- The text of Go's error values (`invalid hex color length`, the `strconv.NumError` message) is reduced to `ColorError` and `NumError`, because the handler never shows them. The handler's own response texts are given exactly by `Handler.Message`.
- Service.GenerateImage: does not model `image.NewRGBA` (internal/service/image.go:33), which may panic or exhaust memory instead of returning. The handler puts no bound on the dimensions, and the model's only outcomes are a rendering or the drawing error. In Go's `image` package, `NewRGBA` panics when the rectangle's pixel-buffer size overflows `int` or is negative. Two sizes the parser accepts reach this: a width of -9223372036854775808, whose span overflows, and `4000000000x4000000000`, whose 4-byte-per-pixel buffer overflows. gin's recovery middleware then answers 500 with an empty body instead of "Failed to generate image". A size such as `100000x100000` asks for about 40 GB.
