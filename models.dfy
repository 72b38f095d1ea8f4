/** The colour model of restfulcolors: a SimpleColor is a validated, canonical
    hex code; a Color adds the derived attributes (RGB, HSL, HSV, CMYK) and
    links (complement, triad, tetrad), each link a SimpleColor. */
module Models {
  import opened ColorUtils

  /** SimpleColor: a colour stored as just its hex code. */
  datatype SimpleColor = SimpleColor(colorcode: string)
  {
    /** str(color): the colour code. */
    function Str(): string {
      colorcode
    }
  }

  /** SimpleColor(code): validate with hex_to_rgb and canonicalise with
      rgb_to_hex; raises ColorValidationError exactly when hex_to_rgb does. */
  function NewSimpleColor(code: string): (r: Result<SimpleColor>)
    ensures r.Ok? <==> HexToRgb(code).Ok?
    ensures r.Err? ==> r.error == HexToRgb(code).error
    ensures r.Ok? ==> r.value.Str() == Canonical(code) && IsCanonicalCode(r.value.colorcode)
  {
    match HexToRgb(code)
    case Err(e) => Err(e)
    case Ok(rgb) =>
      HexRoundTrip(code);
      Ok(SimpleColor(RgbToHex(rgb)))
  }

  /** An accepted code becomes the SimpleColor of its canonical form. */
  lemma NewSimpleColorValue(code: string)
    requires HexToRgb(code).Ok?
    ensures NewSimpleColor(code) == Ok(SimpleColor(Canonical(code)))
  {
  }

  /** A canonical code is kept as it is, so str() gives it back. */
  lemma NewSimpleColorOfCanonical(code: string)
    requires IsCanonicalCode(code)
    ensures NewSimpleColor(code) == Ok(SimpleColor(code))
  {
    CanonicalCodeFixed(code);
  }

  /** Canonicalising twice is canonicalising once. */
  lemma NewSimpleColorIdempotent(code: string)
    requires NewSimpleColor(code).Ok?
    ensures NewSimpleColor(NewSimpleColor(code).value.colorcode) == NewSimpleColor(code)
  {
    NewSimpleColorOfCanonical(NewSimpleColor(code).value.colorcode);
  }

  // ---------------------------------------------------------------------------
  // The href of SimpleColorSchema

  /** The schema's href field: URL_BASE, a '/', then the colour code. */
  function Href(urlBase: string, sc: SimpleColor): string {
    urlBase + "/" + sc.colorcode
  }

  /** The part of a URL after its last '/' (all of it when it has none). */
  function LastSegment(url: string): (seg: string)
    ensures '/' !in seg
    ensures |seg| <= |url| && seg == url[|url| - |seg|..]
  {
    if url == [] then ""
    else if url[|url| - 1] == '/' then ""
    else LastSegment(url[..|url| - 1]) + [url[|url| - 1]]
  }

  lemma {:induction false} LastSegmentAfterSlash(front: string, tail: string)
    requires '/' !in tail
    ensures LastSegment(front + "/" + tail) == tail
  {
    var p := front + "/";
    var url := p + tail;
    if tail == [] {
      assert url == p && url[|url| - 1] == '/';
    } else {
      var t, c := tail[..|tail| - 1], tail[|tail| - 1];
      assert c != '/' by {
        assert c in tail;
      }
      assert tail == t + [c];
      assert url == (p + t) + [c];
      assert url[..|url| - 1] == p + t;
      LastSegmentAfterSlash(front, t);
      assert LastSegment(url) == LastSegment(p + t) + [c];
    }
  }

  /** The href of a valid colour starts with URL_BASE and a '/', and its last
      path segment is the colour code, whatever URL_BASE is. */
  lemma HrefNamesColor(urlBase: string, sc: SimpleColor)
    requires IsCanonicalCode(sc.colorcode)
    ensures Href(urlBase, sc)[..|urlBase| + 1] == urlBase + "/"
    ensures LastSegment(Href(urlBase, sc)) == sc.colorcode
  {
    assert '/' !in sc.colorcode by {
      forall i | 0 <= i < |sc.colorcode| ensures sc.colorcode[i] != '/' {
        assert IsLowerHexChar(sc.colorcode[i]);
      }
    }
    LastSegmentAfterSlash(urlBase, sc.colorcode);
  }

  // ---------------------------------------------------------------------------
  // Color

  /** The namedtuples stored in Color.attributes. */
  datatype ColorTuple =
    | RgbColor(R: int, G: int, B: int)
    | HslColor(H: real, S: real, L: real)
    | HsvColor(H: real, S: real, V: real)
    | CmykColor(C: real, M: real, Y: real, K: real)

  /** The error SimpleColor raises for the first code of the list it rejects, if any. */
  function FirstInvalid(codes: seq<string>): Option<ColorValidationError> {
    if codes == [] then None
    else match HexToRgb(codes[0])
      case Err(e) => Some(e)
      case Ok(_) => FirstInvalid(codes[1..])
  }

  /** No error exactly when every code is accepted. */
  lemma {:induction false} FirstInvalidNone(codes: seq<string>)
    ensures FirstInvalid(codes).None? <==> forall i :: 0 <= i < |codes| ==> HexToRgb(codes[i]).Ok?
  {
    if codes != [] {
      var rest := codes[1..];
      FirstInvalidNone(rest);
      assert forall i :: 1 <= i < |codes| ==> codes[i] == rest[i - 1];
    }
  }

  /** An error comes from a rejected code with every code before it accepted. */
  lemma {:induction false} FirstInvalidFirst(codes: seq<string>)
    requires FirstInvalid(codes).Some?
    ensures exists i :: 0 <= i < |codes| && HexToRgb(codes[i]) == Err(FirstInvalid(codes).value) &&
              forall j :: 0 <= j < i ==> HexToRgb(codes[j]).Ok?
  {
    var rest := codes[1..];
    if HexToRgb(codes[0]).Ok? {
      FirstInvalidFirst(rest);
      var k :| 0 <= k < |rest| && HexToRgb(rest[k]) == Err(FirstInvalid(rest).value) &&
        forall j :: 0 <= j < k ==> HexToRgb(rest[j]).Ok?;
      forall j | 0 <= j < k + 1 ensures HexToRgb(codes[j]).Ok? {
        if j > 0 {
          assert codes[j] == rest[j - 1];
        }
      }
      assert codes[k + 1] == rest[k];
    }
  }

  /** Checking a list in two parts: the first part's error, else the second's. */
  lemma {:induction false} FirstInvalidAppend(a: seq<string>, b: seq<string>)
    ensures FirstInvalid(a + b) == if FirstInvalid(a).Some? then FirstInvalid(a) else FirstInvalid(b)
  {
    if a == [] {
      assert a + b == b;
    } else {
      assert (a + b)[0] == a[0];
      assert (a + b)[1..] == a[1..] + b;
      FirstInvalidAppend(a[1..], b);
    }
  }

  /** Checking one more code after a list. */
  lemma FirstInvalidSnoc(a: seq<string>, code: string)
    ensures FirstInvalid(a + [code]) ==
      if FirstInvalid(a).Some? then FirstInvalid(a)
      else if HexToRgb(code).Err? then Some(HexToRgb(code).error) else None
  {
    FirstInvalidAppend(a, [code]);
    assert [code][1..] == [];
  }

  /** [SimpleColor(c) for c in codes] when no code is rejected: each code
      canonicalised, in order. */
  function SimpleColors(codes: seq<string>): (colors: seq<SimpleColor>)
    ensures |colors| == |codes|
  {
    if codes == [] then []
    else SimpleColors(codes[..|codes| - 1]) + [SimpleColor(Canonical(codes[|codes| - 1]))]
  }

  /** The colour at each position is its code in canonical form. */
  lemma {:induction false} SimpleColorsAt(codes: seq<string>, i: nat)
    requires i < |codes|
    ensures SimpleColors(codes)[i] == SimpleColor(Canonical(codes[i]))
  {
    var front := codes[..|codes| - 1];
    if i < |front| {
      SimpleColorsAt(front, i);
      assert codes[i] == front[i];
    }
  }

  /** Each SimpleColor of the list is what SimpleColor(c) builds from its code. */
  lemma SimpleColorsBuilt(codes: seq<string>)
    requires forall i :: 0 <= i < |codes| ==> HexToRgb(codes[i]).Ok?
    ensures forall i :: 0 <= i < |codes| ==> NewSimpleColor(codes[i]) == Ok(SimpleColors(codes)[i])
  {
    forall i | 0 <= i < |codes| ensures NewSimpleColor(codes[i]) == Ok(SimpleColors(codes)[i]) {
      NewSimpleColorValue(codes[i]);
      SimpleColorsAt(codes, i);
    }
  }

  /** Codes already canonical are kept as they are. */
  lemma SimpleColorsKept(codes: seq<string>)
    requires forall i :: 0 <= i < |codes| ==> Canonical(codes[i]) == codes[i]
    ensures forall i :: 0 <= i < |codes| ==> SimpleColors(codes)[i] == SimpleColor(codes[i])
  {
    forall i | 0 <= i < |codes| ensures SimpleColors(codes)[i] == SimpleColor(codes[i]) {
      SimpleColorsAt(codes, i);
    }
  }

  /** One more accepted code: still no error, and one more colour. */
  lemma ListStepOk(codes: seq<string>, i: nat)
    requires i < |codes| && FirstInvalid(codes[..i]).None? && HexToRgb(codes[i]).Ok?
    ensures FirstInvalid(codes[..i + 1]).None?
    ensures SimpleColors(codes[..i + 1]) == SimpleColors(codes[..i]) + [SimpleColor(Canonical(codes[i]))]
  {
    assert codes[..i + 1] == codes[..i] + [codes[i]];
    FirstInvalidSnoc(codes[..i], codes[i]);
  }

  /** An error in a prefix is the error of the whole list. */
  lemma FirstInvalidPrefix(codes: seq<string>, k: nat)
    requires k <= |codes| && FirstInvalid(codes[..k]).Some?
    ensures FirstInvalid(codes) == FirstInvalid(codes[..k])
  {
    assert codes == codes[..k] + codes[k..];
    FirstInvalidAppend(codes[..k], codes[k..]);
  }

  /** The first rejected code gives the list's error. */
  lemma ListStepErr(codes: seq<string>, i: nat)
    requires i < |codes| && FirstInvalid(codes[..i]).None? && HexToRgb(codes[i]).Err?
    ensures FirstInvalid(codes) == Some(HexToRgb(codes[i]).error)
  {
    assert codes == codes[..i] + codes[i..];
    FirstInvalidAppend(codes[..i], codes[i..]);
    assert codes[i..][0] == codes[i];
  }

  /** The list comprehension run one SimpleColor at a time: the first
      ColorValidationError raised, or the whole list. */
  method SimpleColorList(codes: seq<string>) returns (r: Result<seq<SimpleColor>>)
    ensures r.Err? <==> FirstInvalid(codes).Some?
    ensures r.Err? ==> r.error == FirstInvalid(codes).value
    ensures r.Ok? ==> r.value == SimpleColors(codes)
  {
    var colors := [];
    for i := 0 to |codes|
      invariant colors == SimpleColors(codes[..i])
      invariant FirstInvalid(codes[..i]).None?
    {
      var sc := NewSimpleColor(codes[i]);
      if sc.Err? {
        ListStepErr(codes, i);
        return Err(sc.error);
      }
      ListStepOk(codes, i);
      NewSimpleColorValue(codes[i]);
      colors := colors + [sc.value];
    }
    assert codes[..|codes|] == codes;
    return Ok(colors);
  }

  /** The colours behind a colour's links, in the order Color builds them:
      the complement, the triad at 120 and 240 degrees round the hue wheel,
      the tetrad at 60, 180 and 240 degrees. */
  function LinkColors(f: FloatConverters, rgb: Rgb): (cs: seq<Rgb>)
    ensures |cs| == 6 && cs[0] == RgbComplement(rgb)
  {
    var hsl := f.rgbToHsl(rgb);
    [RgbComplement(rgb), RotateHue(f, hsl, 120.0), RotateHue(f, hsl, 240.0),
     RotateHue(f, hsl, 60.0), RotateHue(f, hsl, 180.0), RotateHue(f, hsl, 240.0)]
  }

  /** The hex codes of a colour's links, as rgb_complement, triadic_colors and
      rectangle_tetradic_colors give them. */
  function LinkCodes(f: FloatConverters, rgb: Rgb): (codes: seq<string>)
    ensures |codes| == 6
  {
    var triad := TriadicColors(f, rgb);
    var tetrad := RectangleTetradicColors(f, rgb);
    [RgbToHex(RgbComplement(rgb)), triad.0, triad.1, tetrad.0, tetrad.1, tetrad.2]
  }

  lemma LinkCodesPrinted(f: FloatConverters, rgb: Rgb)
    ensures forall i :: 0 <= i < 6 ==> LinkCodes(f, rgb)[i] == RgbToHex(LinkColors(f, rgb)[i])
  {
    var codes, cs := LinkCodes(f, rgb), LinkColors(f, rgb);
    assert codes == [RgbToHex(cs[0]), RgbToHex(cs[1]), RgbToHex(cs[2]),
                     RgbToHex(cs[3]), RgbToHex(cs[4]), RgbToHex(cs[5])];
    SixMapped(RgbToHex, cs, codes);
  }

  /** A list of six written out element by element is the map of another. */
  lemma SixMapped<A, B>(g: A -> B, xs: seq<A>, ys: seq<B>)
    requires |xs| == 6 && ys == [g(xs[0]), g(xs[1]), g(xs[2]), g(xs[3]), g(xs[4]), g(xs[5])]
    ensures forall i :: 0 <= i < 6 ==> ys[i] == g(xs[i])
  {
  }

  /** The ColorValidationError that Color(code) raises, if any: the one from
      the code itself, or else the one for the first link code rejected. */
  function ColorError(code: string, f: FloatConverters): Option<ColorValidationError> {
    match HexToRgb(code)
    case Err(e) => Some(e)
    case Ok(rgb) => FirstInvalid(LinkCodes(f, rgb))
  }

  /** Every link colour's channels have magnitude at most 255. */
  predicate LinksInRange(f: FloatConverters, rgb: Rgb) {
    forall i :: 0 <= i < 6 ==> IsByteMagnitude(LinkColors(f, rgb)[i])
  }

  /** SimpleColor accepts every link code exactly when the link colours are in range. */
  lemma LinkCodesAccepted(f: FloatConverters, rgb: Rgb)
    ensures LinksInRange(f, rgb) <==> forall i :: 0 <= i < 6 ==> HexToRgb(LinkCodes(f, rgb)[i]).Ok?
  {
    LinkCodesPrinted(f, rgb);
    forall i | 0 <= i < 6
      ensures HexToRgb(LinkCodes(f, rgb)[i]).Ok? <==> IsByteMagnitude(LinkColors(f, rgb)[i])
    {
      RgbToHexAccepted(LinkColors(f, rgb)[i]);
    }
  }

  /** In range, every link code is a canonical code, kept as it is. */
  lemma LinkCodesCanonical(f: FloatConverters, rgb: Rgb)
    requires LinksInRange(f, rgb)
    ensures forall i :: 0 <= i < 6 ==>
              IsCanonicalCode(LinkCodes(f, rgb)[i]) && Canonical(LinkCodes(f, rgb)[i]) == LinkCodes(f, rgb)[i]
  {
    LinkCodesPrinted(f, rgb);
    forall i | 0 <= i < 6
      ensures IsCanonicalCode(LinkCodes(f, rgb)[i]) && Canonical(LinkCodes(f, rgb)[i]) == LinkCodes(f, rgb)[i]
    {
      RgbToHexOfByteMagnitude(LinkColors(f, rgb)[i]);
      RgbToHexAccepted(LinkColors(f, rgb)[i]);
    }
  }

  /** Color(code) raises nothing exactly when the code is accepted and its link
      colours are in range. */
  lemma ColorErrorNone(code: string, f: FloatConverters)
    ensures ColorError(code, f).None? <==> HexToRgb(code).Ok? && LinksInRange(f, HexToRgb(code).value)
  {
    if HexToRgb(code).Ok? {
      LinkCodesAccepted(f, HexToRgb(code).value);
      FirstInvalidNone(LinkCodes(f, HexToRgb(code).value));
    }
  }

  /** The complement link reads back as the complement of the colour. */
  lemma ComplementLink(code: string, f: FloatConverters)
    requires HexToRgb(code).Ok?
    ensures var rgb := HexToRgb(code).value;
      && IsCanonicalCode(LinkCodes(f, rgb)[0])
      && HexToRgb(LinkCodes(f, rgb)[0]) == Ok(RgbComplement(rgb))
  {
    var rgb := HexToRgb(code).value;
    HexToRgbChannelsAreBytes(code);
    RgbToHexFormat(RgbComplement(rgb));
    RgbRoundTrip(RgbComplement(rgb));
  }

  /** Color.attributes: the colour in each of the four colour spaces, by name. */
  function Attributes(f: FloatConverters, rgb: Rgb): map<string, ColorTuple> {
    var hsl := f.rgbToHsl(rgb);
    var hsv := f.rgbToHsv(rgb);
    var cmyk := f.rgbToCmyk(rgb);
    map[]["rgb" := RgbColor(rgb.r, rgb.g, rgb.b)]["hsl" := HslColor(hsl.0, hsl.1, hsl.2)]
         ["hsv" := HsvColor(hsv.0, hsv.1, hsv.2)]["cmyk" := CmykColor(cmyk.0, cmyk.1, cmyk.2, cmyk.3)]
  }

  /** The attributes hold the four colour spaces, the RGB entry being the colour
      itself and the others converted from it. */
  lemma AttributesOf(f: FloatConverters, rgb: Rgb)
    ensures var a := Attributes(f, rgb);
      && a.Keys == {"rgb", "hsl", "hsv", "cmyk"}
      && a["rgb"] == RgbColor(rgb.r, rgb.g, rgb.b)
      && a["hsl"] == HslColor(f.rgbToHsl(rgb).0, f.rgbToHsl(rgb).1, f.rgbToHsl(rgb).2)
      && a["hsv"] == HsvColor(f.rgbToHsv(rgb).0, f.rgbToHsv(rgb).1, f.rgbToHsv(rgb).2)
      && a["cmyk"] == CmykColor(f.rgbToCmyk(rgb).0, f.rgbToCmyk(rgb).1, f.rgbToCmyk(rgb).2, f.rgbToCmyk(rgb).3)
  {
  }

  /** Color.links: the complement, the triad and the tetrad, each a list of
      SimpleColors. */
  function Links(f: FloatConverters, rgb: Rgb): map<string, seq<SimpleColor>> {
    var triad := TriadicColors(f, rgb);
    var tetrad := RectangleTetradicColors(f, rgb);
    map[]["complement" := SimpleColors([RgbToHex(RgbComplement(rgb))])]
         ["triad" := SimpleColors([triad.0, triad.1])]
         ["tetrad" := SimpleColors([tetrad.0, tetrad.1, tetrad.2])]
  }

  /** The link codes, grouped as Color groups them. */
  lemma LinkCodesGrouped(f: FloatConverters, rgb: Rgb)
    ensures var triad := TriadicColors(f, rgb);
      var tetrad := RectangleTetradicColors(f, rgb);
      LinkCodes(f, rgb) == [RgbToHex(RgbComplement(rgb))] + [triad.0, triad.1] + [tetrad.0, tetrad.1, tetrad.2]
  {
    var triad := TriadicColors(f, rgb);
    var tetrad := RectangleTetradicColors(f, rgb);
    SixSplit(RgbToHex(RgbComplement(rgb)), triad.0, triad.1, tetrad.0, tetrad.1, tetrad.2);
  }

  lemma SixSplit<A>(a0: A, a1: A, a2: A, a3: A, a4: A, a5: A)
    ensures [a0, a1, a2, a3, a4, a5] == [a0] + [a1, a2] + [a3, a4, a5]
  {
  }


  /** Links built from one, two and three codes that canonicalise to
      themselves hold the SimpleColors of those very codes. */
  lemma KeptLinks(l: map<string, seq<SimpleColor>>, codes: seq<string>,
                  c0: string, t0: string, t1: string, u0: string, u1: string, u2: string)
    requires codes == [c0, t0, t1, u0, u1, u2]
    requires forall i :: 0 <= i < 6 ==> Canonical(codes[i]) == codes[i]
    requires l == map[]["complement" := SimpleColors([c0])]
                       ["triad" := SimpleColors([t0, t1])]
                       ["tetrad" := SimpleColors([u0, u1, u2])]
    ensures l.Keys == {"complement", "triad", "tetrad"}
    ensures l["complement"] == [SimpleColor(codes[0])]
    ensures l["triad"] == [SimpleColor(codes[1]), SimpleColor(codes[2])]
    ensures l["tetrad"] == [SimpleColor(codes[3]), SimpleColor(codes[4]), SimpleColor(codes[5])]
  {
    assert codes[0] == c0 && codes[1] == t0 && codes[2] == t1;
    assert codes[3] == u0 && codes[4] == u1 && codes[5] == u2;
    SimpleColorsKept([c0]);
    SimpleColorsKept([t0, t1]);
    SimpleColorsKept([u0, u1, u2]);
  }

  /** In range, the links hold one, two and three colours whose codes are the
      link codes themselves, each a canonical code. */
  lemma LinksHoldLinkCodes(f: FloatConverters, rgb: Rgb)
    requires LinksInRange(f, rgb)
    ensures var l := Links(f, rgb);
      var codes := LinkCodes(f, rgb);
      && l.Keys == {"complement", "triad", "tetrad"}
      && l["complement"] == [SimpleColor(codes[0])]
      && l["triad"] == [SimpleColor(codes[1]), SimpleColor(codes[2])]
      && l["tetrad"] == [SimpleColor(codes[3]), SimpleColor(codes[4]), SimpleColor(codes[5])]
    ensures forall i :: 0 <= i < 6 ==> IsCanonicalCode(LinkCodes(f, rgb)[i])
  {
    var triad := TriadicColors(f, rgb);
    var tetrad := RectangleTetradicColors(f, rgb);
    LinkCodesCanonical(f, rgb);
    KeptLinks(Links(f, rgb), LinkCodes(f, rgb),
              RgbToHex(RgbComplement(rgb)), triad.0, triad.1, tetrad.0, tetrad.1, tetrad.2);
  }

  /** A full colour: the canonical code, its attributes and its links. */
  class Color {
    const colorcode: string
    var attributes: map<string, ColorTuple>
    var links: map<string, seq<SimpleColor>>

    /** The first half of Color(code), for a code hex_to_rgb accepts: the code
        canonicalised as SimpleColor does, then the attributes filled one key
        at a time. FillLinks does the rest. */
    constructor (code: string, f: FloatConverters)
      requires HexToRgb(code).Ok?
      ensures NewSimpleColor(code) == Ok(SimpleColor(colorcode))
      ensures attributes == Attributes(f, HexToRgb(code).value)
      ensures links == map[]
    {
      NewSimpleColorValue(code);
      colorcode := NewSimpleColor(code).value.colorcode;
      new;
      var rgb := HexToRgb(code).value;
      attributes := map[];
      attributes := attributes["rgb" := RgbColor(rgb.r, rgb.g, rgb.b)];
      var hsl := f.rgbToHsl(rgb);
      attributes := attributes["hsl" := HslColor(hsl.0, hsl.1, hsl.2)];
      var hsv := f.rgbToHsv(rgb);
      attributes := attributes["hsv" := HsvColor(hsv.0, hsv.1, hsv.2)];
      var cmyk := f.rgbToCmyk(rgb);
      attributes := attributes["cmyk" := CmykColor(cmyk.0, cmyk.1, cmyk.2, cmyk.3)];
      links := map[];
    }

    /** self.links[name] = [SimpleColor(c) for c in codes]: nothing is stored
        when SimpleColor raises. */
    method SetLink(name: string, codes: seq<string>) returns (err: Option<ColorValidationError>)
      modifies this
      ensures err == FirstInvalid(codes)
      ensures links == if err.None? then old(links)[name := SimpleColors(codes)] else old(links)
      ensures attributes == old(attributes)
    {
      var r := SimpleColorList(codes);
      if r.Err? {
        return Some(r.error);
      }
      links := links[name := r.value];
      return None;
    }

    /** The links of Color(code), made from attributes['rgb'] once the links
        are empty: the complement, then the triad, then the tetrad. The result
        is the error raised for the first link code SimpleColor rejects. */
    method FillLinks(f: FloatConverters) returns (err: Option<ColorValidationError>)
      requires "rgb" in attributes && attributes["rgb"].RgbColor? && links == map[]
      modifies this
      ensures var a := old(attributes)["rgb"];
        err == FirstInvalid(LinkCodes(f, Rgb(a.R, a.G, a.B)))
      ensures var a := old(attributes)["rgb"];
        err.None? ==> links == Links(f, Rgb(a.R, a.G, a.B))
      ensures attributes == old(attributes)
    {
      var a := attributes["rgb"];
      var rgb := Rgb(a.R, a.G, a.B);
      var triad := TriadicColors(f, rgb);
      var tetrad := RectangleTetradicColors(f, rgb);
      var complementCodes := [RgbToHex(RgbComplement(rgb))];
      LinkCodesGrouped(f, rgb);
      FirstInvalidAppend(complementCodes, [triad.0, triad.1]);
      FirstInvalidAppend(complementCodes + [triad.0, triad.1], [tetrad.0, tetrad.1, tetrad.2]);
      err := SetLink("complement", complementCodes);
      if err.Some? {
        return;
      }
      err := SetLink("triad", [triad.0, triad.1]);
      if err.Some? {
        return;
      }
      err := SetLink("tetrad", [tetrad.0, tetrad.1, tetrad.2]);
    }
  }

  /** Color(code) as the caller sees it: the ColorValidationError raised, or
      the new colour with its attributes and links. */
  method NewColor(code: string, f: FloatConverters) returns (r: Result<Color>)
    ensures r.Err? <==> ColorError(code, f).Some?
    ensures r.Err? ==> r.error == ColorError(code, f).value
    ensures r.Ok? ==> fresh(r.value) && NewSimpleColor(code) == Ok(SimpleColor(r.value.colorcode))
    ensures r.Ok? ==> r.value.attributes == Attributes(f, HexToRgb(code).value)
    ensures r.Ok? ==> r.value.links == Links(f, HexToRgb(code).value)
  {
    var checked := HexToRgb(code);
    if checked.Err? {
      return Err(checked.error);
    }
    var c := new Color(code, f);
    AttributesOf(f, checked.value);
    var err := c.FillLinks(f);
    if err.Some? {
      return Err(err.value);
    }
    return Ok(c);
  }

  /** With converters that behave as the mathematics says, every link colour
      of a byte colour is in range. */
  lemma WellBehavedLinksInRange(f: FloatConverters, rgb: Rgb)
    requires WellBehaved(f) && IsByteRgb(rgb)
    ensures LinksInRange(f, rgb)
  {
    var hsl := f.rgbToHsl(rgb);
    forall turn: real ensures IsByteMagnitude(RotateHue(f, hsl, turn)) {
      var h := PyFloatMod(hsl.0 + turn, 360.0);
      assert IsByteMagnitude(f.hslToRgb(h, hsl.1, hsl.2));
    }
  }

  /** With converters that behave as the mathematics says, Color(code) raises
      exactly when hex_to_rgb(code) does, and with the same error. */
  lemma ColorErrorOnlyFromCode(code: string, f: FloatConverters)
    requires WellBehaved(f)
    ensures ColorError(code, f).Some? <==> HexToRgb(code).Err?
    ensures HexToRgb(code).Err? ==> ColorError(code, f) == Some(HexToRgb(code).error)
  {
    ColorErrorNone(code, f);
    if HexToRgb(code).Ok? {
      HexToRgbChannelsAreBytes(code);
      WellBehavedLinksInRange(f, HexToRgb(code).value);
    }
  }
}
