# restfulcolors in Dafny

A model of the core of restfulcolors, a small read-only web API. The API takes
a hexadecimal colour code and answers with the colour in several colour spaces
and with links to related colours.

The core is two Python modules:

- `color_utils.py` is the colour library. Its integer part is modelled exactly:
  - `HEXCOLOR_RE`, the regular expression a colour code must match;
  - `hex_to_rgb`, which raises `ColorValidationError` on a bad code;
  - `rgb_to_hex`, built from `hex()`, `str.split` and `str.zfill`;
  - `rgb_complement`;
  - `triadic_colors` and `rectangle_tetradic_colors`. These are built, as in
    the library, on hue rotation and `rgb_to_hex`.
- `models.py` holds the resources:
  - `SimpleColor`, a colour code canonicalised by a parse and a print;
  - the `href` of its schema;
  - `Color`, whose constructor fills an `attributes` dictionary (four colour
    spaces) and a `links` dictionary (complement, triad, tetrad) one key at a
    time.

The floating-point converters (`rgb_to_hsl`, `hsl_to_rgb`, `rgb_to_hsv`,
`rgb_to_cmyk`) enter the model as given functions, packed in `FloatConverters`.
`WellBehaved` states what the model assumes of them mathematically.

Files:

- `color_utils.dfy` is module `ColorUtils`, the library.
- `models.dfy` is module `Models`, the resources. `Color` is a class whose
  methods update its dictionaries in place.
- `examples.dfy` is module `Examples`, the concrete cases of the repository's
  tests, stated on the model.

Python behaviour modelled literally:

- The pattern's optional `#` is greedy and can backtrack.
- `$` also matches just before a final newline, so `"ffffff\n"` is accepted.
- `re.IGNORECASE` lets upper-case digits through.
- `hex()` drops nothing for large values and prints a `-` for negative ones.
  `rgb_to_hex` therefore prints a channel above 255 with three or more digits,
  and the sign of a negative channel is lost in the `split('x')`.
- Integers are unbounded, as in Python.

Two places where the docstrings promise less than the code does:

- `hex_to_rgb`'s docstring (`restfulcolors/color_utils.py:17`) speaks of "a
  six digit hex string". The pattern also accepts a leading `#` and, because
  of `$`, a final newline. `HexToRgbAccepts` states exactly what is accepted.
- `rgb_to_hex`'s docstring (`restfulcolors/color_utils.py:26`) speaks of "RGB
  integers, 0-255". The function does not clamp other values.
  `RgbToHexOutOfRange` states what it prints for them.

## Model

| member | source | states |
|---|---|---|
| ColorUtils.ColorValidationError.Message | restfulcolors/color_utils.py:20 | definition, no contract: the message hex_to_rgb raises with, quoting the rejected string |
| ColorUtils.HexToRgb | restfulcolors/color_utils.py:16-23 | definition, no contract: the three groups of a match read in base 16, or the error naming the string; its properties are HexToRgbAccepts, HexToRgbOfWord and HexRoundTrip |
| ColorUtils.PyHex | restfulcolors/color_utils.py:27 | definition, no contract: Python's hex(), an optional '-', "0x", then the digits of the magnitude |
| ColorUtils.ZFill | restfulcolors/color_utils.py:27 | definition, no contract: Python's str.zfill, padding with '0' after a leading sign |
| ColorUtils.ChannelHex | restfulcolors/color_utils.py:27 | definition, no contract: hex(c).split('x')[1].zfill(2) for one channel; its properties are ChannelHexShape, ChannelHexValue and ChannelHexOfByte |
| ColorUtils.JoinChannels | restfulcolors/color_utils.py:27 | definition, no contract: ''.join of the channels' hex, in order |
| ColorUtils.RgbToHex | restfulcolors/color_utils.py:25-27 | definition, no contract: rgb_to_hex; its properties are RgbToHexFormat, RgbRoundTrip, RgbToHexAccepted and RgbToHexOutOfRange |
| ColorUtils.TriadicColors | restfulcolors/color_utils.py:142-152 | definition, no contract: the codes of the hue turned by 120 and 240 degrees; DerivedCodesCanonical states its property |
| ColorUtils.RectangleTetradicColors | restfulcolors/color_utils.py:154-160 | definition, no contract: the codes of the hue turned by 60, 180 and 240 degrees; DerivedCodesCanonical states its property |
| ColorUtils.HexToRgbAccepts | restfulcolors/color_utils.py:5-9 | hex_to_rgb accepts a string exactly when it is an optional '#', six hex digits of either case, and an optional final newline |
| ColorUtils.MatchHexColor | restfulcolors/color_utils.py:5-9 | a match of the pattern yields three two-digit hex groups |
| ColorUtils.MatchPairs | restfulcolors/color_utils.py:6-9 | a match of the three groups and `$` from a position yields three two-digit hex groups |
| ColorUtils.HexToRgbOfWord | restfulcolors/color_utils.py:16-23 | on every accepted word, hex_to_rgb returns the three pairs read in base 16 |
| ColorUtils.HexToRgbChannelsAreBytes | restfulcolors/color_utils.py:16-23 | every channel hex_to_rgb returns lies in 0..255 |
| ColorUtils.HexToRgbHashIgnored | restfulcolors/color_utils.py:5 | a leading '#' changes neither acceptance nor the channels read |
| ColorUtils.HexToRgbCaseIgnored | restfulcolors/color_utils.py:9 | lower-casing a code changes neither acceptance nor the channels read (re.IGNORECASE) |
| ColorUtils.MatchPairsLower | restfulcolors/color_utils.py:6-9 | the three case-insensitive pair groups match a string exactly when they match its lower-case form, with the same values |
| ColorUtils.ParseHex | restfulcolors/color_utils.py:23 | int(pair, 16) is below 16 to the power of the number of digits |
| ColorUtils.PairValue | restfulcolors/color_utils.py:23 | a pair reads as 16 times its first digit plus its second |
| ColorUtils.ParseHexLower | restfulcolors/color_utils.py:9 | a pair and its lower-case form read as the same number |
| ColorUtils.DigitValue | restfulcolors/color_utils.py:23 | a hex digit's value is below 16 and is zero only for '0' |
| ColorUtils.Digit | restfulcolors/color_utils.py:27 | the digit hex() writes is lower-case and reads back as its value |
| ColorUtils.HexDigits | restfulcolors/color_utils.py:27 | the digits hex() writes are lower-case, have no leading zero, read back as the number, and number at most two exactly for values below 256 |
| ColorUtils.SplitPyHex | restfulcolors/color_utils.py:27 | hex(c).split('x') is the sign and "0", then the digits of abs(c) |
| ColorUtils.Split | restfulcolors/color_utils.py:27 | str.split returns at least one field |
| ColorUtils.SplitNoSeparator | restfulcolors/color_utils.py:27 | str.split leaves a string without the separator whole |
| ColorUtils.SplitAtFirst | restfulcolors/color_utils.py:27 | str.split cuts at the first separator and splits the rest |
| ColorUtils.Zeros | restfulcolors/color_utils.py:27 | zfill's padding is the requested number of '0' characters |
| ColorUtils.ChannelHexShape | restfulcolors/color_utils.py:27 | one channel prints as lower-case hex of at least two digits; the sign is dropped; it is two digits exactly when the magnitude is at most 255 |
| ColorUtils.ChannelHexValue | restfulcolors/color_utils.py:27 | a byte prints as two lower-case digits that read back as the byte |
| ColorUtils.ChannelHexOfByte | restfulcolors/color_utils.py:27 | a byte prints as its high hex digit then its low one |
| ColorUtils.ChannelHexOfPair | restfulcolors/color_utils.py:23-27 | printing the value of a parsed pair gives the pair in lower case |
| ColorUtils.RgbToHexChannels | restfulcolors/color_utils.py:27 | ''.join writes the red, green and blue channels one after the other |
| ColorUtils.RgbToHexFormat | restfulcolors/color_utils.py:25-27 | byte channels print as a canonical code (six lower-case hex digits) whose pairs read back as the channels |
| ColorUtils.RgbRoundTrip | restfulcolors/color_utils.py:16-27 | hex_to_rgb(rgb_to_hex(c)) returns c for every byte colour |
| ColorUtils.HexRoundTrip | restfulcolors/color_utils.py:16-27 | for every accepted code, rgb_to_hex(hex_to_rgb(s)) is the code without '#' or final newline, in lower case, and is canonical |
| ColorUtils.WordRoundTrip | restfulcolors/color_utils.py:16-27 | the same round trip, stated for each shape of accepted word |
| ColorUtils.RgbToHexOfPairs | restfulcolors/color_utils.py:16-27 | printing the channels read from six digits gives those digits in lower case |
| ColorUtils.CanonicalOfWord | restfulcolors/color_utils.py:5-9 | the canonical form of an accepted word is its six digits in lower case |
| ColorUtils.CanonicalCodeFixed | restfulcolors/color_utils.py:16-27 | a canonical code is accepted and is its own canonical form |
| ColorUtils.LowerDigitsCanonical | restfulcolors/color_utils.py:27 | six hex digits in lower case form a canonical code |
| ColorUtils.LowerChar | restfulcolors/color_utils.py:9 | lower-casing keeps a character a hex digit exactly when it was one, and keeps its value |
| ColorUtils.LowerAscii | restfulcolors/color_utils.py:9 | lower-casing keeps the length |
| ColorUtils.LowerAsciiAt | restfulcolors/color_utils.py:9 | lower-casing a string lower-cases each character in place |
| ColorUtils.LowerAsciiSlice | restfulcolors/color_utils.py:9 | lower-casing commutes with taking a slice |
| ColorUtils.PointwiseSlice | restfulcolors/color_utils.py:9 | a slice of a character-by-character lower-casing is the lower-casing of the slice |
| ColorUtils.LowerAsciiPairs | restfulcolors/color_utils.py:6-8 | lower-casing six digits lower-cases each of the three pairs |
| ColorUtils.DigitOfValue | restfulcolors/color_utils.py:23-27 | the digit hex() writes for a digit's value is that digit in lower case |
| ColorUtils.RgbToHexLowerHex | restfulcolors/color_utils.py:25-27 | rgb_to_hex always prints at least six lower-case hex digits, and exactly six when every channel's magnitude is at most 255 |
| ColorUtils.AcceptedLowerHex | restfulcolors/color_utils.py:5-9 | a lower-case hex string that hex_to_rgb accepts is a canonical code |
| ColorUtils.RgbToHexOutOfRange | restfulcolors/color_utils.py:25-27 | rgb_to_hex does not clamp: a channel above 255 prints more than six digits that hex_to_rgb rejects, a negative channel prints as its magnitude, and the round trip never returns a non-byte colour |
| ColorUtils.RgbToHexAccepted | restfulcolors/color_utils.py:16-27 | hex_to_rgb accepts rgb_to_hex(c) exactly when every channel's magnitude is at most 255, and the printed code is then canonical |
| ColorUtils.RgbToHexOfByteMagnitude | restfulcolors/color_utils.py:25-27 | channels of magnitude at most 255 print as a canonical code |
| ColorUtils.RgbComplement | restfulcolors/color_utils.py:138-140 | the complement is a byte colour exactly when the colour is |
| ColorUtils.ComplementInvolution | restfulcolors/color_utils.py:138-140 | taking the complement twice gives the colour back |
| ColorUtils.ComplementChannelDigits | restfulcolors/color_utils.py:138-140 | the hex digits of 255 - x are those of x, each digit d replaced by 15 - d |
| ColorUtils.ComplementPair | restfulcolors/color_utils.py:138-140 | two pairs whose values add up to 255 have digits adding up to 15, place by place |
| ColorUtils.ComplementHexDigits | restfulcolors/color_utils.py:138-140 | the complement's code is the colour's code with every digit d replaced by 15 - d |
| ColorUtils.PyFloatMod | restfulcolors/color_utils.py:150-151 | Python's float x % 360 lies in [0, 360) and differs from x by a whole multiple of 360 |
| ColorUtils.DerivedCodesCanonical | restfulcolors/color_utils.py:142-160 | with well-behaved converters, every triad and tetrad code of a byte colour is canonical |
| Models.SimpleColor.Str | restfulcolors/models.py:33-34 | definition, no contract: str() of a SimpleColor is its colorcode |
| Models.Href | restfulcolors/models.py:39 | definition, no contract: URL_BASE, '/', then the colorcode; HrefNamesColor states its property |
| Models.FirstInvalid | restfulcolors/models.py:48-61 | definition, no contract: the error SimpleColor raises for the first code it rejects; FirstInvalidNone and FirstInvalidFirst state its meaning |
| Models.ColorError | restfulcolors/models.py:48-61 | definition, no contract: the error Color(code) raises, from the code or else from the first rejected link code; ColorErrorNone and ColorErrorOnlyFromCode state its meaning |
| Models.Attributes | restfulcolors/models.py:50-54 | definition, no contract: the four attribute entries; AttributesOf states them |
| Models.Links | restfulcolors/models.py:55-61 | definition, no contract: the three link entries; LinksHoldLinkCodes states them |
| Models.NewSimpleColor | restfulcolors/models.py:28 | SimpleColor(code) raises exactly when hex_to_rgb does, with its error; otherwise its colorcode is the code's canonical form |
| Models.NewSimpleColorValue | restfulcolors/models.py:28 | an accepted code gives the SimpleColor of its canonical form |
| Models.NewSimpleColorOfCanonical | restfulcolors/models.py:28 | a canonical code is stored unchanged |
| Models.NewSimpleColorIdempotent | restfulcolors/models.py:28 | making a SimpleColor from a SimpleColor's own code gives the same SimpleColor |
| Models.LastSegment | restfulcolors/models.py:39 | the last segment of a URL has no '/' and is a suffix of the URL |
| Models.LastSegmentAfterSlash | restfulcolors/models.py:39 | the last segment of front + "/" + tail is the tail when the tail has no '/' |
| Models.HrefNamesColor | restfulcolors/models.py:39 | the href starts with URL_BASE + "/" and its last segment is the colour's code |
| Models.FirstInvalidNone | restfulcolors/models.py:59 | a list comprehension of SimpleColors raises nothing exactly when every code is accepted |
| Models.FirstInvalidFirst | restfulcolors/models.py:59 | when it raises, the error is that of a rejected code with every earlier code accepted |
| Models.FirstInvalidAppend | restfulcolors/models.py:59 | over a concatenation, the first error is that of the front, or else that of the back |
| Models.FirstInvalidSnoc | restfulcolors/models.py:59 | checking one more code after a list adds that code's error only when the list had none |
| Models.FirstInvalidPrefix | restfulcolors/models.py:59 | an error in a prefix is the error of the whole list |
| Models.SimpleColors | restfulcolors/models.py:59 | the comprehension has one SimpleColor per code |
| Models.SimpleColorsAt | restfulcolors/models.py:59 | the i-th SimpleColor of the comprehension holds the canonical form of the i-th code |
| Models.SimpleColorsBuilt | restfulcolors/models.py:59 | when every code is accepted, each element is what SimpleColor makes of its code |
| Models.SimpleColorsKept | restfulcolors/models.py:59 | codes that are their own canonical form are kept as they are |
| Models.ListStepOk | restfulcolors/models.py:59 | an accepted code extends the comprehension by its SimpleColor and raises nothing |
| Models.ListStepErr | restfulcolors/models.py:59 | the first rejected code's error is the error of the whole comprehension |
| Models.SimpleColorList | restfulcolors/models.py:59 | building [SimpleColor(c) for c in codes] one at a time returns the first error, exactly when there is one, and otherwise the SimpleColors of all the codes in order |
| Models.LinkColors | restfulcolors/models.py:55-61 | six link colours are derived, the first being the complement |
| Models.LinkCodes | restfulcolors/models.py:55-61 | six link codes are printed, one per link colour |
| Models.LinkCodesPrinted | restfulcolors/models.py:56-61 | each link code is rgb_to_hex of its link colour |
| Models.LinkCodesAccepted | restfulcolors/models.py:55-61 | SimpleColor accepts every link code exactly when every link colour's channels have magnitude at most 255 |
| Models.LinkCodesCanonical | restfulcolors/models.py:55-61 | in range, every link code is canonical and is its own canonical form |
| Models.LinkCodesGrouped | restfulcolors/models.py:56-61 | the link codes are the complement, then the triad pair, then the tetrad triple |
| Models.ColorErrorNone | restfulcolors/models.py:48-61 | Color(code) raises nothing exactly when the code is accepted and its link colours are in range |
| Models.ComplementLink | restfulcolors/models.py:56 | the complement link of an accepted code is canonical and reads back as the complement |
| Models.AttributesOf | restfulcolors/models.py:50-54 | the attributes hold exactly rgb, hsl, hsv and cmyk: the colour itself and its three conversions |
| Models.KeptLinks | restfulcolors/models.py:55-61 | links built from codes that are their own canonical form hold exactly complement, triad and tetrad, with those codes |
| Models.LinksHoldLinkCodes | restfulcolors/models.py:55-61 | in range, the links hold exactly complement (one colour), triad (two) and tetrad (three), whose codes are the canonical link codes |
| Models.Color.constructor | restfulcolors/models.py:48-54 | for an accepted code, the colorcode is what SimpleColor stores, the attributes are those of the code's colour, and the links are empty |
| Models.Color.SetLink | restfulcolors/models.py:56-61 | assigning links[name] = [SimpleColor(c) for c in codes] either raises the first error, with links unchanged, or sets that one key; attributes are untouched |
| Models.Color.FillLinks | restfulcolors/models.py:55-61 | filling complement, triad and tetrad in order raises the first error among the six link codes; otherwise links are exactly Links of the colour; attributes are untouched |
| Models.NewColor | restfulcolors/models.py:48-61 | Color(code) raises exactly the first error, from the code or from a link code; otherwise it is fresh, with the SimpleColor code, the attributes and the links of the colour |
| Models.WellBehavedLinksInRange | restfulcolors/color_utils.py:142-160 | well-behaved converters keep every link colour of a byte colour in range |
| Models.ColorErrorOnlyFromCode | restfulcolors/models.py:48-61 | with well-behaved converters, Color(code) raises exactly when hex_to_rgb rejects the code, with the same error |
| Examples.PairsRead | restfulcolors/color_utils.py:16-23 | three hex pairs written one after the other read as their three values |
| Examples.ReadAs | restfulcolors/color_utils.py:16-23 | a code made of three pairs reads as the colour of their values |
| Examples.RepeatedPairPrinted | restfulcolors/color_utils.py:25-27 | a grey prints as its pair in lower case, three times |
| Examples.GreyPrintedAs | restfulcolors/color_utils.py:25-27 | a grey prints as the lower-case form of its pair, three times |
| Examples.AcceptedLength | restfulcolors/color_utils.py:5-9 | an accepted code has six to eight characters, and any extra one is a leading '#' or a final newline |
| Examples.ValueFF | restfulcolors/color_utils.py:23 | the pair "FF" reads as 255 and lower-cases to "ff" |
| Examples.Value00 | restfulcolors/color_utils.py:23 | the pair "00" reads as 0 |
| Examples.ValueC0 | restfulcolors/color_utils.py:23 | the pair "c0" reads as 192 |
| Examples.HexToRgbWhite | test/test_color_utils.py:19-25 | "FFFFFF" and "#FFFFFF" read as (255, 255, 255) |
| Examples.HexToRgbBlack | test/test_color_utils.py:20 | "000000" reads as (0, 0, 0) |
| Examples.HexToRgbRed | test/test_color_utils.py:21 | "FF0000" reads as (255, 0, 0) |
| Examples.HexToRgbSilver | test/test_color_utils.py:22 | "c0c0c0" reads as (192, 192, 192) |
| Examples.HexToRgbRejectsWord | test/test_color_utils.py:27-29 | "foo" is rejected, and the error names it |
| Examples.RgbToHexWhite | test/test_color_utils.py:32 | (255, 255, 255) prints as "ffffff" |
| Examples.RgbToHexSilver | test/test_color_utils.py:33 | (192, 192, 192) prints as "c0c0c0" |
| Examples.RgbToHexBlack | test/test_models.py:32 | (0, 0, 0) prints as "000000" |
| Examples.SimpleColorCases | test/test_models.py:13-21 | SimpleColor("191900") prints as "191900", and SimpleColor("191900f") raises |
| Examples.WhiteComplement | test/test_models.py:32 | the complement link code of white is "000000" |
| Examples.BlackKept | test/test_models.py:32 | the SimpleColor list of "000000" holds that code unchanged |
| Examples.ComplementLinkEntry | restfulcolors/models.py:56 | the complement entry of the links is the list of one SimpleColor of the complement's code |
| Examples.WhiteColor | test/test_models.py:25-32 | for "FFFFFF", the rgb attribute is (255, 255, 255) and the complement link is the SimpleColor "000000"; NewColor's contract makes these the attributes and links of Color("FFFFFF") |
| Examples.HrefCase | test/test_flask_app.py:17-27 | "ff00ff" is stored unchanged, and its href is the base URL followed by "/ff00ff" |

## Left out

- The floating-point converters `rgb_to_hsl`, `hsl_to_rgb`, `rgb_to_hsv` and `rgb_to_cmyk` are not modelled arithmetically. They are parameters of every member that uses them. So the model does not capture the operator-precedence slip in `hsl_to_rgb`, nor the case where one of its branch variables is left unbound. `WellBehaved` states the range the model assumes of them.
- `round()` inside those converters, and float rounding in general, are left out with them.
- `closest_named_html_color` only returns a fixed sentence and is not part of this model.
- `URL_BASE` comes from `restfulcolors/constants.py`, which is not part of this model. It is a parameter of `Href`.
- The marshmallow schemas are left out apart from the `href` field, since they only serialise.
- The Flask resources in `restfulcolors/__init__.py` are left out, because they are HTTP plumbing around `Color`.
- `__repr__` is left out. It is a debugging string.
- `LowerAscii` lower-cases ASCII letters only. Python's `str.lower()` also lower-cases other letters. Hex digits are ASCII, so acceptance and channel values do not depend on this. The canonical form of a rejected code never appears.
- `Models.Color.constructor`: `Color.__init__` is split into the constructor and `FillLinks`, because a Dafny constructor cannot fail. `NewColor` composes the two and returns the exception as an `Err`.
- `Models.Color.constructor` requires a code that `hex_to_rgb` accepts. A rejected code is handled by `NewColor`, which raises before constructing, as `super().__init__` does.
- `ColorUtils.ColorValidationError`: the exception carries the rejected string. `Message` builds the text the library raises with.
- `ColorUtils.PyFloatMod` is modelled on mathematical reals. It does not capture binary floating point.
- The test cases for `rgb_to_hsl`, `rgb_to_hsv`, `hsl_to_rgb` and `rgb_to_cmyk`, and the triad codes and the hsl, hsv and cmyk attributes of `Color('FFFFFF')`, depend on the floating-point converters. They are not stated.
- `Examples.HrefCase` states the href over any base URL. The base URL `/api/v1/colors` is a value in `restfulcolors/constants.py`, which is not part of this model.
