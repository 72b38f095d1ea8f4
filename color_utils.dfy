/** The exact, integer part of the restfulcolors colour library: parsing a hex
    colour code into RGB channels, printing RGB channels as a hex code, and the
    complement. The floating-point converters (RGB to HSL, HSL to RGB, RGB to
    HSV, RGB to CMYK) are not modelled arithmetically: they enter as given
    functions, and the triad and tetrad helpers are built on them exactly as
    the library builds them. */
module ColorUtils {

  /** An RGB triple as the library returns it: three unbounded integers. */
  datatype Rgb = Rgb(r: int, g: int, b: int)

  /** The one error the library raises: hex_to_rgb's rejection of a string. */
  datatype ColorValidationError = InvalidColorCode(code: string)
  {
    /** The exception's message. */
    function Message(): string {
      InvalidCodePrefix + code + "'"
    }
  }

  datatype Result<T> = Ok(value: T) | Err(error: ColorValidationError)

  datatype Option<T> = None | Some(value: T)

  /** Every channel in [0, 255]. */
  predicate IsByteRgb(c: Rgb) {
    0 <= c.r <= 255 && 0 <= c.g <= 255 && 0 <= c.b <= 255
  }

  // ---------------------------------------------------------------------------
  // Characters and hex digits

  /** A character of the class [0-9a-f] under re.IGNORECASE. */
  predicate IsHexChar(ch: char) {
    '0' <= ch <= '9' || 'a' <= ch <= 'f' || 'A' <= ch <= 'F'
  }

  predicate IsLowerHexChar(ch: char) {
    '0' <= ch <= '9' || 'a' <= ch <= 'f'
  }

  /** Every character at positions i up to j is a hex digit. */
  predicate HexAt(s: string, i: nat, j: nat)
    requires i <= j <= |s|
  {
    forall k :: i <= k < j ==> IsHexChar(s[k])
  }

  predicate AllHex(s: string) {
    forall i :: 0 <= i < |s| ==> IsHexChar(s[i])
  }

  predicate AllLowerHex(s: string) {
    forall i :: 0 <= i < |s| ==> IsLowerHexChar(s[i])
  }

  /** A canonical colour code: six lower-case hex digits, no '#'. */
  predicate IsCanonicalCode(s: string) {
    |s| == 6 && AllLowerHex(s)
  }

  /** The value of one hex digit, either case. */
  function DigitValue(ch: char): (d: nat)
    requires IsHexChar(ch)
    ensures d < 16
    ensures d == 0 <==> ch == '0'
  {
    if ch <= '9' then ch as int - '0' as int
    else if ch >= 'a' then ch as int - 'a' as int + 10
    else ch as int - 'A' as int + 10
  }

  /** The digit that Python's hex() writes for d: 0-9, then lower-case a-f. */
  function Digit(d: nat): (ch: char)
    requires d < 16
    ensures IsLowerHexChar(ch) && DigitValue(ch) == d
  {
    if d < 10 then ('0' as int + d) as char else ('a' as int + d - 10) as char
  }

  function Pow16(n: nat): (p: nat)
    ensures p >= 1
  {
    if n == 0 then 1 else 16 * Pow16(n - 1)
  }

  /** int(s, 16) on a non-empty string of hex digits. */
  function ParseHex(s: string): (v: nat)
    requires |s| > 0 && AllHex(s)
    ensures v < Pow16(|s|)
  {
    if |s| == 1 then DigitValue(s[0])
    else 16 * ParseHex(s[..|s| - 1]) + DigitValue(s[|s| - 1])
  }

  /** The digits hex(n) writes after "0x": lower-case, no leading zero. */
  function HexDigits(n: nat): (s: string)
    ensures |s| >= 1 && AllLowerHex(s)
    ensures ParseHex(s) == n
    ensures s[0] == '0' ==> n == 0
    ensures n < 16 <==> |s| == 1
    ensures n < 256 <==> |s| <= 2
  {
    if n < 16 then [Digit(n)]
    else
      var front := HexDigits(n / 16);
      var s := front + [Digit(n % 16)];
      assert s[..|s| - 1] == front;
      s
  }

  function Abs(x: int): nat {
    if x < 0 then -x else x
  }

  /** Python's hex(x): an optional '-', then "0x", then the digits of |x|. */
  function PyHex(x: int): string {
    (if x < 0 then "-" else "") + "0x" + HexDigits(Abs(x))
  }

  // ---------------------------------------------------------------------------
  // str.split and str.zfill

  /** Python's s.split(sep) for a one-character separator. */
  function Split(s: string, sep: char): (parts: seq<string>)
    ensures |parts| >= 1
  {
    if s == [] then [""]
    else
      var rest := Split(s[1..], sep);
      if s[0] == sep then [""] + rest else [[s[0]] + rest[0]] + rest[1..]
  }

  lemma {:induction false} SplitNoSeparator(t: string, sep: char)
    requires sep !in t
    ensures Split(t, sep) == [t]
  {
    if t != [] {
      SplitNoSeparator(t[1..], sep);
      assert [t[0]] + t[1..] == t;
    }
  }

  lemma {:induction false} SplitAtFirst(p: string, sep: char, t: string)
    requires sep !in p
    ensures Split(p + [sep] + t, sep) == [p] + Split(t, sep)
  {
    if p == [] {
      assert (p + [sep] + t)[1..] == t;
    } else {
      SplitAtFirst(p[1..], sep, t);
      assert (p + [sep] + t)[1..] == p[1..] + [sep] + t;
      assert [p[0]] + p[1..] == p;
    }
  }

  /** The fields of hex(x) split at 'x': the sign and "0", then the digits. */
  lemma SplitPyHex(x: int)
    ensures Split(PyHex(x), 'x') == [if x < 0 then "-0" else "0", HexDigits(Abs(x))]
  {
    var digits := HexDigits(Abs(x));
    var sign: string := if x < 0 then "-" else "";
    assert PyHex(x) == (sign + "0") + ['x'] + digits;
    assert 'x' !in digits by {
      forall i | 0 <= i < |digits| ensures digits[i] != 'x' {
        assert IsLowerHexChar(digits[i]);
      }
    }
    assert 'x' !in sign + "0";
    assert sign + "0" == if x < 0 then "-0" else "0";
    SplitAtFirst(sign + "0", 'x', digits);
    SplitNoSeparator(digits, 'x');
  }

  function Zeros(n: nat): (z: string)
    ensures |z| == n && forall i :: 0 <= i < n ==> z[i] == '0'
  {
    if n == 0 then "" else "0" + Zeros(n - 1)
  }

  /** Python's s.zfill(width): pad with '0' on the left, after a leading sign. */
  function ZFill(s: string, width: nat): string {
    if |s| >= width then s
    else if |s| > 0 && (s[0] == '+' || s[0] == '-') then [s[0]] + Zeros(width - |s|) + s[1..]
    else Zeros(width - |s|) + s
  }

  // ---------------------------------------------------------------------------
  // rgb_to_hex

  /** One channel as rgb_to_hex writes it: hex(c).split('x')[1].zfill(2). */
  function ChannelHex(c: int): string {
    SplitPyHex(c);
    ZFill(Split(PyHex(c), 'x')[1], 2)
  }

  /** ''.join of the channels' hex, in order. */
  function JoinChannels(cs: seq<int>): string {
    if cs == [] then "" else ChannelHex(cs[0]) + JoinChannels(cs[1..])
  }

  /** rgb_to_hex(r, g, b): the hex of r, g and b joined. */
  function RgbToHex(c: Rgb): string {
    JoinChannels([c.r, c.g, c.b])
  }

  /** The code is the three channels' hex one after the other. */
  lemma RgbToHexChannels(c: Rgb)
    ensures RgbToHex(c) == ChannelHex(c.r) + ChannelHex(c.g) + ChannelHex(c.b)
  {
    var cs := [c.r, c.g, c.b];
    assert cs[1..] == [c.g, c.b] && cs[1..][1..] == [c.b] && cs[1..][1..][1..] == [];
    assert JoinChannels([c.b]) == ChannelHex(c.b);
    assert JoinChannels([c.g, c.b]) == ChannelHex(c.g) + ChannelHex(c.b);
  }

  /** A channel's hex is two digits exactly when its magnitude is at most 255;
      its digits are always lower-case hex, and the sign is dropped. */
  lemma ChannelHexShape(c: int)
    ensures ChannelHex(c) == ChannelHex(Abs(c))
    ensures AllLowerHex(ChannelHex(c)) && |ChannelHex(c)| >= 2
    ensures |ChannelHex(c)| == 2 <==> Abs(c) <= 255
  {
    SplitPyHex(c);
    SplitPyHex(Abs(c));
    var d := HexDigits(Abs(c));
    if |d| < 2 {
      assert ChannelHex(c) == "0" + d;
    }
  }

  /** For a byte, the channel's two digits read back as the byte. */
  lemma ChannelHexValue(c: int)
    requires 0 <= c <= 255
    ensures |ChannelHex(c)| == 2 && AllLowerHex(ChannelHex(c))
    ensures ParseHex(ChannelHex(c)) == c
  {
    ChannelHexShape(c);
    SplitPyHex(c);
    var d := HexDigits(c);
    var h := ChannelHex(c);
    if |d| == 1 {
      assert h == ['0', d[0]];
      assert h[..1] == ['0'];
    }
  }

  /** A byte prints as its high digit then its low digit. */
  lemma ChannelHexOfByte(v: int)
    requires 0 <= v < 256
    ensures ChannelHex(v) == [Digit(v / 16), Digit(v % 16)]
  {
    SplitPyHex(v);
    if v < 16 {
      assert HexDigits(v) == [Digit(v % 16)];
    } else {
      assert HexDigits(v / 16) == [Digit(v / 16)];
    }
  }

  /** The printed channel of a parsed hex pair is the pair in lower case. */
  lemma ChannelHexOfPair(p: string)
    requires |p| == 2 && AllHex(p)
    ensures ChannelHex(ParseHex(p)) == LowerAscii(p)
  {
    var v := ParseHex(p);
    PairValue(p);
    assert v / 16 == DigitValue(p[0]) && v % 16 == DigitValue(p[1]);
    ChannelHexOfByte(v);
    DigitOfValue(p[0]);
    DigitOfValue(p[1]);
    LowerAsciiAt(p);
  }

  /** int(p, 16) of a two-digit pair. */
  lemma PairValue(p: string)
    requires |p| == 2 && AllHex(p)
    ensures ParseHex(p) == 16 * DigitValue(p[0]) + DigitValue(p[1])
  {
    assert p[..1] == [p[0]];
  }

  lemma DigitOfValue(ch: char)
    requires IsHexChar(ch)
    ensures Digit(DigitValue(ch)) == LowerChar(ch)
  {
  }

  // ---------------------------------------------------------------------------
  // Case

  /** Lower-cases ASCII letters; every other character is kept. */
  function LowerChar(ch: char): (lo: char)
    ensures IsHexChar(ch) ==> IsLowerHexChar(lo) && DigitValue(lo) == DigitValue(ch)
    ensures IsHexChar(lo) <==> IsHexChar(ch)
  {
    if 'A' <= ch <= 'Z' then (ch as int + 32) as char else ch
  }

  /** s.lower() on ASCII text. */
  function LowerAscii(s: string): (lo: string)
    ensures |lo| == |s|
  {
    if s == [] then [] else [LowerChar(s[0])] + LowerAscii(s[1..])
  }

  /** Each character is lower-cased where it stands. */
  lemma {:induction false} LowerAsciiAt(s: string)
    ensures forall i :: 0 <= i < |s| ==> LowerAscii(s)[i] == LowerChar(s[i])
  {
    if s != [] {
      LowerAsciiAt(s[1..]);
      assert forall i :: 1 <= i < |s| ==> s[1..][i - 1] == s[i];
    }
  }

  lemma LowerAsciiSlice(s: string, i: nat, j: nat)
    requires i <= j <= |s|
    ensures LowerAscii(s)[i..j] == LowerAscii(s[i..j])
  {
    LowerAsciiAt(s);
    LowerAsciiAt(s[i..j]);
    PointwiseSlice(LowerAscii(s), s, LowerAscii(s[i..j]), i, j);
  }

  /** A slice of a character-by-character lower-casing is the lower-casing
      of that slice, character by character. */
  lemma PointwiseSlice(lo: string, s: string, lt: string, i: nat, j: nat)
    requires |lo| == |s| && forall k :: 0 <= k < |s| ==> lo[k] == LowerChar(s[k])
    requires i <= j <= |s| && |lt| == j - i
    requires forall k :: 0 <= k < j - i ==> lt[k] == LowerChar(s[i..j][k])
    ensures lo[i..j] == lt
  {
    forall k | 0 <= k < j - i ensures lo[i..j][k] == lt[k] {
      assert s[i..j][k] == s[i + k];
    }
  }

  lemma ParseHexLower(p: string)
    requires |p| == 2 && AllHex(p)
    ensures AllHex(LowerAscii(p)) && ParseHex(LowerAscii(p)) == ParseHex(p)
  {
    LowerAsciiAt(p);
    var lo := LowerAscii(p);
    assert p[..1] == [p[0]] && lo[..1] == [lo[0]];
  }

  // ---------------------------------------------------------------------------
  // HEXCOLOR_RE and hex_to_rgb

  /** The three named groups r, g and b of a match. */
  datatype HexGroups = HexGroups(r: string, g: string, b: string)

  predicate IsHexPair(p: string) {
    |p| == 2 && AllHex(p)
  }

  /** `$` without MULTILINE: the end of the string, or just before a final newline. */
  predicate AtEnd(s: string, j: nat) {
    j == |s| || (j + 1 == |s| && s[j] == '\n')
  }

  /** The three two-digit groups and `$`, tried from position i. */
  function MatchPairs(s: string, i: nat): (m: Option<HexGroups>)
    ensures m.Some? ==> IsHexPair(m.value.r) && IsHexPair(m.value.g) && IsHexPair(m.value.b)
  {
    if i + 6 <= |s| && HexAt(s, i, i + 6) && AtEnd(s, i + 6) then
      Some(HexGroups(s[i..i + 2], s[i + 2..i + 4], s[i + 4..i + 6]))
    else None
  }

  /** HEXCOLOR_RE.match(s). The pattern is anchored at the start; the optional
      `\#` is greedy, so a leading '#' is consumed first and given back only
      when the rest of the pattern fails after it. */
  function MatchHexColor(s: string): (m: Option<HexGroups>)
    ensures m.Some? ==> IsHexPair(m.value.r) && IsHexPair(m.value.g) && IsHexPair(m.value.b)
  {
    if |s| > 0 && s[0] == '#' && MatchPairs(s, 1).Some? then MatchPairs(s, 1)
    else MatchPairs(s, 0)
  }

  /** The groups read in base 16. */
  function GroupsRgb(m: HexGroups): Rgb
    requires IsHexPair(m.r) && IsHexPair(m.g) && IsHexPair(m.b)
  {
    Rgb(ParseHex(m.r), ParseHex(m.g), ParseHex(m.b))
  }

  /** The start of the message hex_to_rgb raises with. */
  const InvalidCodePrefix: string := "Not a valid hexadecimal color code: '"

  /** hex_to_rgb(s): the three pairs read in base 16, or ColorValidationError. */
  function HexToRgb(s: string): Result<Rgb> {
    match MatchHexColor(s)
    case None => Err(InvalidColorCode(s))
    case Some(m) => Ok(GroupsRgb(m))
  }

  /** A word of the pattern: optional '#', the digits, optional final newline. */
  function Word(hash: bool, digits: string, newline: bool): string {
    (if hash then "#" else "") + digits + (if newline then "\n" else "")
  }

  predicate IsSixHexDigits(d: string) {
    |d| == 6 && AllHex(d)
  }

  /** The channels hex_to_rgb reads from six hex digits. */
  function DigitsRgb(d: string): Rgb
    requires IsSixHexDigits(d)
  {
    Rgb(ParseHex(d[0..2]), ParseHex(d[2..4]), ParseHex(d[4..6]))
  }

  /** Every word of the pattern is accepted, and its channels are its pairs in base 16. */
  lemma HexToRgbOfWord(hash: bool, digits: string, newline: bool)
    requires IsSixHexDigits(digits)
    ensures HexToRgb(Word(hash, digits, newline)) == Ok(DigitsRgb(digits))
  {
    var s := Word(hash, digits, newline);
    var i := if hash then 1 else 0;
    assert s[i..i + 6] == digits;
    assert s[i..i + 2] == digits[0..2];
    assert s[i + 2..i + 4] == digits[2..4];
    assert s[i + 4..i + 6] == digits[4..6];
    assert MatchPairs(s, i).Some?;
  }

  /** The accepted strings are exactly the words of the pattern. */
  lemma HexToRgbAccepts(s: string)
    ensures HexToRgb(s).Ok? <==>
            exists hash, digits, newline :: IsSixHexDigits(digits) && s == Word(hash, digits, newline)
  {
    if HexToRgb(s).Ok? {
      var hash := |s| > 0 && s[0] == '#' && MatchPairs(s, 1).Some?;
      var i := if hash then 1 else 0;
      assert MatchPairs(s, i).Some?;
      var digits := s[i..i + 6];
      assert IsSixHexDigits(digits) by {
        forall k | 0 <= k < 6 ensures IsHexChar(digits[k]) {
          assert digits[k] == s[i + k];
        }
      }
      var newline := i + 7 == |s|;
      assert s[..i] == (if hash then "#" else "");
      assert s[i + 6..] == (if newline then "\n" else "");
      assert s == s[..i] + digits + s[i + 6..];
      assert s == Word(hash, digits, newline);
    }
    if exists hash, digits, newline :: IsSixHexDigits(digits) && s == Word(hash, digits, newline) {
      var hash, digits, newline :| IsSixHexDigits(digits) && s == Word(hash, digits, newline);
      HexToRgbOfWord(hash, digits, newline);
    }
  }

  /** Every accepted string yields three channels in [0, 255]. */
  lemma HexToRgbChannelsAreBytes(s: string)
    requires HexToRgb(s).Ok?
    ensures IsByteRgb(HexToRgb(s).value)
  {
    var m := MatchHexColor(s).value;
    assert ParseHex(m.r) < Pow16(2) && ParseHex(m.g) < Pow16(2) && ParseHex(m.b) < Pow16(2);
  }

  /** A leading '#' does not change acceptance or the channels. */
  lemma HexToRgbHashIgnored(s: string)
    requires s == [] || s[0] != '#'
    ensures HexToRgb("#" + s).Ok? <==> HexToRgb(s).Ok?
    ensures HexToRgb(s).Ok? ==> HexToRgb("#" + s).value == HexToRgb(s).value
  {
    var h := "#" + s;
    assert forall k :: 0 <= k < |s| ==> h[k + 1] == s[k];
    assert !IsHexChar(h[0]);
    if |s| >= 6 {
      assert h[1..3] == s[0..2] && h[3..5] == s[2..4] && h[5..7] == s[4..6];
    }
    assert MatchPairs(h, 1) == MatchPairs(s, 0);
  }

  /** Lower-casing keeps the matches of the groups and `$`, and their values. */
  lemma MatchPairsLower(s: string, i: nat)
    ensures MatchPairs(LowerAscii(s), i).Some? <==> MatchPairs(s, i).Some?
    ensures MatchPairs(s, i).Some? ==>
            GroupsRgb(MatchPairs(LowerAscii(s), i).value) == GroupsRgb(MatchPairs(s, i).value)
  {
    LowerAsciiAt(s);
    var lo := LowerAscii(s);
    if i + 6 <= |s| {
      assert HexAt(lo, i, i + 6) <==> HexAt(s, i, i + 6);
      assert AtEnd(lo, i + 6) <==> AtEnd(s, i + 6);
      if MatchPairs(s, i).Some? {
        LowerAsciiSlice(s, i, i + 2);
        LowerAsciiSlice(s, i + 2, i + 4);
        LowerAsciiSlice(s, i + 4, i + 6);
        ParseHexLower(s[i..i + 2]);
        ParseHexLower(s[i + 2..i + 4]);
        ParseHexLower(s[i + 4..i + 6]);
      }
    }
  }

  /** Letter case does not change acceptance or the channels. */
  lemma HexToRgbCaseIgnored(s: string)
    ensures HexToRgb(LowerAscii(s)).Ok? <==> HexToRgb(s).Ok?
    ensures HexToRgb(s).Ok? ==> HexToRgb(LowerAscii(s)).value == HexToRgb(s).value
  {
    MatchPairsLower(s, 0);
    MatchPairsLower(s, 1);
  }

  // ---------------------------------------------------------------------------
  // Round trips

  /** For byte channels, rgb_to_hex writes six lower-case hex digits whose
      pairs read back as the channels. */
  lemma RgbToHexFormat(c: Rgb)
    requires IsByteRgb(c)
    ensures IsCanonicalCode(RgbToHex(c))
    ensures DigitsRgb(RgbToHex(c)) == c
  {
    ChannelHexValue(c.r);
    ChannelHexValue(c.g);
    ChannelHexValue(c.b);
    RgbToHexChannels(c);
    var h := RgbToHex(c);
    assert h[0..2] == ChannelHex(c.r);
    assert h[2..4] == ChannelHex(c.g);
    assert h[4..6] == ChannelHex(c.b);
  }

  /** hex_to_rgb(rgb_to_hex(r, g, b)) == (r, g, b) for byte channels. */
  lemma RgbRoundTrip(c: Rgb)
    requires IsByteRgb(c)
    ensures HexToRgb(RgbToHex(c)) == Ok(c)
  {
    RgbToHexFormat(c);
    var h := RgbToHex(c);
    assert Word(false, h, false) == h;
    HexToRgbOfWord(false, h, false);
  }

  /** An accepted string with its '#' and final newline removed, lower-cased. */
  function Canonical(s: string): string {
    var noHash := if |s| > 0 && s[0] == '#' then s[1..] else s;
    var body := if |noHash| > 0 && noHash[|noHash| - 1] == '\n' then noHash[..|noHash| - 1] else noHash;
    LowerAscii(body)
  }

  /** The canonical form of a word is its digits in lower case. */
  lemma CanonicalOfWord(hash: bool, digits: string, newline: bool)
    requires IsSixHexDigits(digits)
    ensures Canonical(Word(hash, digits, newline)) == LowerAscii(digits)
  {
    var s := Word(hash, digits, newline);
    var noHash := if |s| > 0 && s[0] == '#' then s[1..] else s;
    assert noHash == digits + (if newline then "\n" else "");
    assert !newline ==> noHash[|noHash| - 1] == digits[5];
    var body := if |noHash| > 0 && noHash[|noHash| - 1] == '\n' then noHash[..|noHash| - 1] else noHash;
    assert body == digits;
  }

  /** Lower-casing six characters is lower-casing each pair of them. */
  lemma LowerAsciiPairs(d: string)
    requires |d| == 6
    ensures LowerAscii(d) == LowerAscii(d[0..2]) + LowerAscii(d[2..4]) + LowerAscii(d[4..6])
  {
    LowerAsciiSlice(d, 0, 2);
    LowerAsciiSlice(d, 2, 4);
    LowerAsciiSlice(d, 4, 6);
    var lo := LowerAscii(d);
    var x, y, z := lo[0..2], lo[2..4], lo[4..6];
    forall k | 0 <= k < 6 ensures lo[k] == (x + y + z)[k] {
      if k < 2 {
        assert x[k] == lo[k];
      } else if k < 4 {
        assert y[k - 2] == lo[k];
      } else {
        assert z[k - 4] == lo[k];
      }
    }
  }

  /** Printing the channels read from six hex digits gives the digits in lower case. */
  lemma RgbToHexOfPairs(digits: string)
    requires IsSixHexDigits(digits)
    ensures RgbToHex(DigitsRgb(digits)) == LowerAscii(digits)
  {
    ChannelHexOfPair(digits[0..2]);
    ChannelHexOfPair(digits[2..4]);
    ChannelHexOfPair(digits[4..6]);
    RgbToHexChannels(DigitsRgb(digits));
    LowerAsciiPairs(digits);
  }

  /** Six hex digits in lower case are a canonical code. */
  lemma LowerDigitsCanonical(digits: string)
    requires IsSixHexDigits(digits)
    ensures IsCanonicalCode(LowerAscii(digits))
  {
    LowerAsciiAt(digits);
    var lo := LowerAscii(digits);
    forall i | 0 <= i < 6 ensures IsLowerHexChar(lo[i]) {
      assert IsHexChar(digits[i]);
    }
  }

  /** The round trip on one word of the pattern. */
  lemma WordRoundTrip(hash: bool, digits: string, newline: bool)
    requires IsSixHexDigits(digits)
    ensures HexToRgb(Word(hash, digits, newline)) == Ok(DigitsRgb(digits))
    ensures RgbToHex(DigitsRgb(digits)) == Canonical(Word(hash, digits, newline))
    ensures IsCanonicalCode(Canonical(Word(hash, digits, newline)))
  {
    HexToRgbOfWord(hash, digits, newline);
    CanonicalOfWord(hash, digits, newline);
    RgbToHexOfPairs(digits);
    LowerDigitsCanonical(digits);
  }

  /** rgb_to_hex(hex_to_rgb(s)) is the canonical form of every accepted s. */
  lemma HexRoundTrip(s: string)
    requires HexToRgb(s).Ok?
    ensures RgbToHex(HexToRgb(s).value) == Canonical(s)
    ensures IsCanonicalCode(Canonical(s))
  {
    HexToRgbAccepts(s);
    var hash, digits, newline :| IsSixHexDigits(digits) && s == Word(hash, digits, newline);
    WordRoundTrip(hash, digits, newline);
  }

  /** A canonical code is its own canonical form and is accepted. */
  lemma CanonicalCodeFixed(s: string)
    requires IsCanonicalCode(s)
    ensures HexToRgb(s).Ok? && Canonical(s) == s
  {
    assert Word(false, s, false) == s;
    HexToRgbOfWord(false, s, false);
    assert s[|s| - 1] != '\n' by { assert IsLowerHexChar(s[5]); }
    LowerAsciiAt(s);
    assert LowerAscii(s) == s;
  }

  lemma ConcatLowerHex(x: string, y: string, z: string)
    requires AllLowerHex(x) && AllLowerHex(y) && AllLowerHex(z)
    ensures AllLowerHex(x + y + z)
  {
    var w := x + y + z;
    forall i | 0 <= i < |w| ensures IsLowerHexChar(w[i]) {
      if i < |x| {
        assert w[i] == x[i];
      } else if i < |x| + |y| {
        assert w[i] == y[i - |x|];
      } else {
        assert w[i] == z[i - |x| - |y|];
      }
    }
  }

  /** rgb_to_hex writes only lower-case hex digits, at least six of them, and
      exactly six when every channel's magnitude is at most 255. */
  lemma RgbToHexLowerHex(c: Rgb)
    ensures AllLowerHex(RgbToHex(c)) && |RgbToHex(c)| >= 6
    ensures |RgbToHex(c)| == 6 <==> IsByteMagnitude(c)
  {
    ChannelHexShape(c.r);
    ChannelHexShape(c.g);
    ChannelHexShape(c.b);
    RgbToHexChannels(c);
    ConcatLowerHex(ChannelHex(c.r), ChannelHex(c.g), ChannelHex(c.b));
  }

  /** An accepted string of lower-case hex digits is a canonical code. */
  lemma AcceptedLowerHex(s: string)
    requires AllLowerHex(s) && HexToRgb(s).Ok?
    ensures IsCanonicalCode(s)
  {
    HexToRgbAccepts(s);
    var hash, digits, newline :| IsSixHexDigits(digits) && s == Word(hash, digits, newline);
    assert !hash by { assert IsLowerHexChar(s[0]); }
    assert !newline by { assert IsLowerHexChar(s[|s| - 1]); }
    assert s == digits;
  }

  /** Out of range, rgb_to_hex loses information: a channel above 255 makes the
      code longer than six digits (so hex_to_rgb rejects it), and a negative
      channel is printed as its magnitude. */
  lemma RgbToHexOutOfRange(c: Rgb)
    requires !IsByteRgb(c)
    ensures c.r > 255 || c.g > 255 || c.b > 255 ==> |RgbToHex(c)| > 6 && HexToRgb(RgbToHex(c)).Err?
    ensures RgbToHex(c) == RgbToHex(Rgb(Abs(c.r), Abs(c.g), Abs(c.b)))
    ensures HexToRgb(RgbToHex(c)) != Ok(c)
  {
    ChannelHexShape(c.r);
    ChannelHexShape(c.g);
    ChannelHexShape(c.b);
    RgbToHexChannels(c);
    RgbToHexChannels(Rgb(Abs(c.r), Abs(c.g), Abs(c.b)));
    var h := RgbToHex(c);
    if HexToRgb(h).Ok? {
      RgbToHexLowerHex(c);
      AcceptedLowerHex(h);
      HexToRgbChannelsAreBytes(h);
    }
  }

  // ---------------------------------------------------------------------------
  // rgb_complement

  /** rgb_complement(r, g, b): each channel x becomes 255 - x. */
  function RgbComplement(c: Rgb): (k: Rgb)
    ensures IsByteRgb(k) <==> IsByteRgb(c)
  {
    Rgb(255 - c.r, 255 - c.g, 255 - c.b)
  }

  /** The complement is its own inverse. */
  lemma ComplementInvolution(c: Rgb)
    ensures RgbComplement(RgbComplement(c)) == c
  {
  }

  /** Two strings of hex digits of equal length, each digit d of the first
      standing against 15 - d in the second. */
  predicate DigitsComplement(p: string, q: string) {
    && |p| == |q|
    && forall k :: 0 <= k < |p| ==>
         IsHexChar(p[k]) && IsHexChar(q[k]) && DigitValue(q[k]) == 15 - DigitValue(p[k])
  }

  /** The hex digits of 255 - x are those of x, each d replaced by 15 - d. */
  lemma ComplementChannelDigits(x: int)
    requires 0 <= x <= 255
    ensures |ChannelHex(x)| == 2 && DigitsComplement(ChannelHex(x), ChannelHex(255 - x))
  {
    var p, q := ChannelHex(x), ChannelHex(255 - x);
    assert IsHexPair(p) && ParseHex(p) == x by {
      ChannelHexValue(x);
      assert forall i :: 0 <= i < |p| ==> IsLowerHexChar(p[i]);
    }
    assert IsHexPair(q) && ParseHex(q) == 255 - x by {
      ChannelHexValue(255 - x);
      assert forall i :: 0 <= i < |q| ==> IsLowerHexChar(q[i]);
    }
    ComplementPair(p, q);
  }

  /** Two pairs whose values add up to 255 have digits adding up to 15. */
  lemma ComplementPair(p: string, q: string)
    requires IsHexPair(p) && IsHexPair(q) && ParseHex(p) + ParseHex(q) == 255
    ensures DigitsComplement(p, q)
  {
    PairValue(p);
    PairValue(q);
    DigitsAddUp(DigitValue(p[0]), DigitValue(p[1]), DigitValue(q[0]), DigitValue(q[1]));
    assert forall k :: 0 <= k < 2 ==> IsHexChar(p[k]) && IsHexChar(q[k]);
  }

  /** Two-digit base-16 numbers adding up to 255 add up digit by digit to 15. */
  lemma DigitsAddUp(a: int, b: int, c: int, d: int)
    requires 0 <= a < 16 && 0 <= b < 16 && 0 <= c < 16 && 0 <= d < 16
    requires 16 * a + b + 16 * c + d == 255
    ensures a + c == 15 && b + d == 15
  {
    assert 16 * (a + c) + (b + d) == 255;
  }

  lemma ConcatComplement(x: string, y: string, z: string, xk: string, yk: string, zk: string)
    requires DigitsComplement(x, xk) && DigitsComplement(y, yk) && DigitsComplement(z, zk)
    ensures DigitsComplement(x + y + z, xk + yk + zk)
  {
    var w, wk := x + y + z, xk + yk + zk;
    forall i | 0 <= i < |w|
      ensures IsHexChar(w[i]) && IsHexChar(wk[i]) && DigitValue(wk[i]) == 15 - DigitValue(w[i])
    {
      if i < |x| {
        assert w[i] == x[i] && wk[i] == xk[i];
      } else if i < |x| + |y| {
        assert w[i] == y[i - |x|] && wk[i] == yk[i - |x|];
      } else {
        assert w[i] == z[i - |x| - |y|] && wk[i] == zk[i - |x| - |y|];
      }
    }
  }

  /** In hex, complementing a byte colour maps every digit d to 15 - d. */
  lemma ComplementHexDigits(c: Rgb)
    requires IsByteRgb(c)
    ensures |RgbToHex(c)| == 6 && DigitsComplement(RgbToHex(c), RgbToHex(RgbComplement(c)))
  {
    var k := RgbComplement(c);
    var x, y, z := ChannelHex(c.r), ChannelHex(c.g), ChannelHex(c.b);
    var xk, yk, zk := ChannelHex(k.r), ChannelHex(k.g), ChannelHex(k.b);
    assert DigitsComplement(x, xk) && |x| == 2 by { ComplementChannelDigits(c.r); }
    assert DigitsComplement(y, yk) && |y| == 2 by { ComplementChannelDigits(c.g); }
    assert DigitsComplement(z, zk) && |z| == 2 by { ComplementChannelDigits(c.b); }
    RgbToHexChannels(c);
    RgbToHexChannels(k);
    ConcatComplement(x, y, z, xk, yk, zk);
  }

  // ---------------------------------------------------------------------------
  // The floating-point converters and the helpers built on them

  /** rgb_to_hsl, hsl_to_rgb, rgb_to_hsv and rgb_to_cmyk, taken as given. */
  datatype FloatConverters = FloatConverters(
    rgbToHsl: Rgb -> (real, real, real),
    hslToRgb: (real, real, real) -> Rgb,
    rgbToHsv: Rgb -> (real, real, real),
    rgbToCmyk: Rgb -> (real, real, real, real))

  /** Python's x % y on floats for y > 0: the result takes the sign of y. */
  function PyFloatMod(x: real, y: real): (m: real)
    requires y > 0.0
    ensures 0.0 <= m < y
    ensures (x - m) / y == ((x - m) / y).Floor as real
  {
    var q := (x / y).Floor;
    var frac := x / y - q as real;
    assert 0.0 <= frac < 1.0;
    assert x - q as real * y == frac * y;
    assert 0.0 <= frac * y < y by {
      assert (1.0 - frac) * y > 0.0;
    }
    assert (q as real * y) / y == q as real;
    x - q as real * y
  }

  /** The colour at `turn` degrees round the hue wheel from (H, S, L). */
  function RotateHue(f: FloatConverters, hsl: (real, real, real), turn: real): Rgb {
    f.hslToRgb(PyFloatMod(hsl.0 + turn, 360.0), hsl.1, hsl.2)
  }

  /** triadic_colors(r, g, b): the hex codes at 120 and 240 degrees. */
  function TriadicColors(f: FloatConverters, c: Rgb): (string, string) {
    var hsl := f.rgbToHsl(c);
    (RgbToHex(RotateHue(f, hsl, 120.0)), RgbToHex(RotateHue(f, hsl, 240.0)))
  }

  /** rectangle_tetradic_colors(r, g, b): the hex codes at 60, 180 and 240 degrees. */
  function RectangleTetradicColors(f: FloatConverters, c: Rgb): (string, string, string) {
    var hsl := f.rgbToHsl(c);
    (RgbToHex(RotateHue(f, hsl, 60.0)), RgbToHex(RotateHue(f, hsl, 180.0)),
     RgbToHex(RotateHue(f, hsl, 240.0)))
  }

  /** Every channel's magnitude is at most 255. */
  predicate IsByteMagnitude(c: Rgb) {
    Abs(c.r) <= 255 && Abs(c.g) <= 255 && Abs(c.b) <= 255
  }

  /** What the floating-point converters deliver mathematically: byte colours
      map to S and L in [0, 1], and a hue in [0, 360) with S and L in [0, 1]
      maps to channels of magnitude at most 255. */
  ghost predicate WellBehaved(f: FloatConverters) {
    && (forall c :: IsByteRgb(c) ==> 0.0 <= f.rgbToHsl(c).1 <= 1.0 && 0.0 <= f.rgbToHsl(c).2 <= 1.0)
    && (forall h, s, l :: 0.0 <= h < 360.0 && 0.0 <= s <= 1.0 && 0.0 <= l <= 1.0 ==>
          IsByteMagnitude(f.hslToRgb(h, s, l)))
  }

  /** Channels of magnitude at most 255 print as a canonical code. */
  lemma RgbToHexOfByteMagnitude(c: Rgb)
    requires IsByteMagnitude(c)
    ensures IsCanonicalCode(RgbToHex(c))
  {
    ChannelHexShape(c.r);
    ChannelHexShape(c.g);
    ChannelHexShape(c.b);
    RgbToHexChannels(c);
    RgbToHexChannels(Rgb(Abs(c.r), Abs(c.g), Abs(c.b)));
    RgbToHexFormat(Rgb(Abs(c.r), Abs(c.g), Abs(c.b)));
  }

  /** hex_to_rgb accepts what rgb_to_hex prints exactly when every channel's
      magnitude is at most 255, and then the code is kept as it is. */
  lemma RgbToHexAccepted(c: Rgb)
    ensures HexToRgb(RgbToHex(c)).Ok? <==> IsByteMagnitude(c)
    ensures IsByteMagnitude(c) ==> Canonical(RgbToHex(c)) == RgbToHex(c)
  {
    var h := RgbToHex(c);
    if IsByteMagnitude(c) {
      RgbToHexOfByteMagnitude(c);
      CanonicalCodeFixed(h);
    } else if HexToRgb(h).Ok? {
      RgbToHexLowerHex(c);
      AcceptedLowerHex(h);
      assert false;
    }
  }

  /** The triad and tetrad codes of a byte colour are canonical codes. */
  lemma DerivedCodesCanonical(f: FloatConverters, c: Rgb)
    requires WellBehaved(f) && IsByteRgb(c)
    ensures IsCanonicalCode(TriadicColors(f, c).0) && IsCanonicalCode(TriadicColors(f, c).1)
    ensures IsCanonicalCode(RectangleTetradicColors(f, c).0)
    ensures IsCanonicalCode(RectangleTetradicColors(f, c).1)
    ensures IsCanonicalCode(RectangleTetradicColors(f, c).2)
  {
    var hsl := f.rgbToHsl(c);
    forall turn: real | turn >= 0.0 ensures IsCanonicalCode(RgbToHex(RotateHue(f, hsl, turn))) {
      var h := PyFloatMod(hsl.0 + turn, 360.0);
      assert IsByteMagnitude(f.hslToRgb(h, hsl.1, hsl.2));
      RgbToHexOfByteMagnitude(RotateHue(f, hsl, turn));
    }
  }
}
