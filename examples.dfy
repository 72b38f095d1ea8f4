/** The concrete cases the library's tests check, stated on the model. */
module Examples {
  import opened ColorUtils
  import opened Models

  /** Three hex pairs written one after the other read as their values. */
  lemma PairsRead(p: string, q: string, t: string)
    requires IsHexPair(p) && IsHexPair(q) && IsHexPair(t)
    ensures HexToRgb(p + q + t) == Ok(Rgb(ParseHex(p), ParseHex(q), ParseHex(t)))
  {
    var d := p + q + t;
    assert d[0..2] == p && d[2..4] == q && d[4..6] == t;
    assert IsSixHexDigits(d) by {
      forall i | 0 <= i < 6 ensures IsHexChar(d[i]) {
        assert d[i] == if i < 2 then p[i] else if i < 4 then q[i - 2] else t[i - 4];
      }
    }
    assert Word(false, d, false) == d;
    HexToRgbOfWord(false, d, false);
  }

  /** A grey prints as its pair, in lower case, three times. */
  lemma RepeatedPairPrinted(p: string)
    requires IsHexPair(p)
    ensures RgbToHex(Rgb(ParseHex(p), ParseHex(p), ParseHex(p))) == LowerAscii(p) + LowerAscii(p) + LowerAscii(p)
  {
    var v := ParseHex(p);
    RgbToHexChannels(Rgb(v, v, v));
    ChannelHexOfPair(p);
  }

  /** A code hex_to_rgb accepts has six characters, plus one for a leading
      '#' and one for a final newline. */
  lemma AcceptedLength(s: string)
    ensures HexToRgb(s).Ok? ==> 6 <= |s| <= 8 && (|s| > 6 ==> s[0] == '#' || s[|s| - 1] == '\n')
  {
    if HexToRgb(s).Ok? {
      HexToRgbAccepts(s);
      var hash, digits, newline :| IsSixHexDigits(digits) && s == Word(hash, digits, newline);
      assert |s| == 6 + (if hash then 1 else 0) + (if newline then 1 else 0);
      if |s| > 6 && !hash {
        assert s[|s| - 1] == '\n';
      }
    }
  }

  /** A code made of three pairs reads as the colour of their values. */
  lemma ReadAs(p: string, q: string, t: string, code: string, c: Rgb)
    requires IsHexPair(p) && IsHexPair(q) && IsHexPair(t) && code == p + q + t
    requires c == Rgb(ParseHex(p), ParseHex(q), ParseHex(t))
    ensures HexToRgb(code) == Ok(c)
  {
    PairsRead(p, q, t);
  }

  /** A grey prints as the lower-case form of its pair, three times. */
  lemma GreyPrintedAs(p: string, v: int, lo: string, code: string)
    requires IsHexPair(p) && ParseHex(p) == v && LowerAscii(p) == lo && code == lo + lo + lo
    ensures RgbToHex(Rgb(v, v, v)) == code
  {
    RepeatedPairPrinted(p);
  }

  lemma ValueFF()
    ensures IsHexPair("FF") && ParseHex("FF") == 255 && LowerAscii("FF") == "ff"
  {
    assert IsHexPair("FF");
    PairValue("FF");
    LowerAsciiAt("FF");
  }

  lemma Value00()
    ensures IsHexPair("00") && ParseHex("00") == 0 && LowerAscii("00") == "00"
  {
    assert IsHexPair("00");
    PairValue("00");
    LowerAsciiAt("00");
  }

  lemma ValueC0()
    ensures IsHexPair("c0") && ParseHex("c0") == 192 && LowerAscii("c0") == "c0"
  {
    assert IsHexPair("c0");
    PairValue("c0");
    LowerAsciiAt("c0");
  }

  /** hex_to_rgb reads an upper-case code, with or without '#'. */
  lemma HexToRgbWhite()
    ensures HexToRgb("FFFFFF") == Ok(Rgb(255, 255, 255))
    ensures HexToRgb("#FFFFFF") == Ok(Rgb(255, 255, 255))
  {
    assert HexToRgb("FFFFFF") == Ok(Rgb(255, 255, 255)) by {
      ValueFF();
      ReadAs("FF", "FF", "FF", "FFFFFF", Rgb(255, 255, 255));
    }
    assert "#" + "FFFFFF" == "#FFFFFF";
    HexToRgbHashIgnored("FFFFFF");
  }

  /** hex_to_rgb reads black. */
  lemma HexToRgbBlack()
    ensures HexToRgb("000000") == Ok(Rgb(0, 0, 0))
  {
    Value00();
    ReadAs("00", "00", "00", "000000", Rgb(0, 0, 0));
  }

  /** hex_to_rgb reads red. */
  lemma HexToRgbRed()
    ensures HexToRgb("FF0000") == Ok(Rgb(255, 0, 0))
  {
    ValueFF();
    Value00();
    ReadAs("FF", "00", "00", "FF0000", Rgb(255, 0, 0));
  }

  /** hex_to_rgb reads a lower-case code. */
  lemma HexToRgbSilver()
    ensures HexToRgb("c0c0c0") == Ok(Rgb(192, 192, 192))
  {
    ValueC0();
    ReadAs("c0", "c0", "c0", "c0c0c0", Rgb(192, 192, 192));
  }

  /** hex_to_rgb rejects a word that is not a colour code, naming it. */
  lemma HexToRgbRejectsWord()
    ensures HexToRgb("foo") == Err(InvalidColorCode("foo"))
  {
    AcceptedLength("foo");
  }

  /** rgb_to_hex prints a grey as lower-case pairs. */
  lemma RgbToHexSilver()
    ensures RgbToHex(Rgb(192, 192, 192)) == "c0c0c0"
  {
    ValueC0();
    GreyPrintedAs("c0", 192, "c0", "c0c0c0");
  }

  /** rgb_to_hex prints white in lower case. */
  lemma RgbToHexWhite()
    ensures RgbToHex(Rgb(255, 255, 255)) == "ffffff"
  {
    ValueFF();
    GreyPrintedAs("FF", 255, "ff", "ffffff");
  }

  /** SimpleColor keeps a canonical code and rejects a seven-digit one. */
  lemma SimpleColorCases()
    ensures NewSimpleColor("191900") == Ok(SimpleColor("191900"))
    ensures NewSimpleColor("191900").value.Str() == "191900"
    ensures NewSimpleColor("191900f").Err?
  {
    NewSimpleColorOfCanonical("191900");
    AcceptedLength("191900f");
  }

  /** The complement link of white is black. */
  lemma WhiteComplement(f: FloatConverters)
    ensures LinkCodes(f, Rgb(255, 255, 255))[0] == "000000"
  {
    var white := Rgb(255, 255, 255);
    assert LinkCodes(f, white)[0] == RgbToHex(Rgb(0, 0, 0)) by {
      LinkCodesPrinted(f, white);
      assert LinkColors(f, white)[0] == Rgb(0, 0, 0);
    }
    RgbToHexBlack();
  }

  /** rgb_to_hex prints black as six zeros. */
  lemma RgbToHexBlack()
    ensures RgbToHex(Rgb(0, 0, 0)) == "000000"
  {
    Value00();
    GreyPrintedAs("00", 0, "00", "000000");
  }

  /** The colour ff00ff is stored as it is, and its href is the base URL
      followed by "/ff00ff" (the test's base URL is "/api/v1/colors"). */
  lemma HrefCase(urlBase: string)
    ensures NewSimpleColor("ff00ff") == Ok(SimpleColor("ff00ff"))
    ensures Href(urlBase, NewSimpleColor("ff00ff").value) == urlBase + "/ff00ff"
  {
    assert urlBase + "/" + "ff00ff" == urlBase + "/ff00ff" by {
      assert "/" + "ff00ff" == "/ff00ff";
    }
    assert NewSimpleColor("ff00ff") == Ok(SimpleColor("ff00ff")) by {
      assert IsCanonicalCode("ff00ff");
      NewSimpleColorOfCanonical("ff00ff");
    }
  }

  /** Color("FFFFFF"): its rgb attribute is white and its complement link is
      the SimpleColor "000000", whatever the floating-point converters. */
  lemma WhiteColor(f: FloatConverters)
    ensures HexToRgb("FFFFFF") == Ok(Rgb(255, 255, 255))
    ensures Attributes(f, Rgb(255, 255, 255))["rgb"] == RgbColor(255, 255, 255)
    ensures Links(f, Rgb(255, 255, 255))["complement"] == [SimpleColor("000000")]
    ensures Links(f, Rgb(255, 255, 255))["complement"][0].Str() == "000000"
  {
    var white := Rgb(255, 255, 255);
    HexToRgbWhite();
    AttributesOf(f, white);
    assert RgbToHex(RgbComplement(white)) == "000000" by {
      WhiteComplement(f);
      LinkCodesPrinted(f, white);
    }
    assert SimpleColors(["000000"]) == [SimpleColor("000000")] by {
      BlackKept();
    }
    ComplementLinkEntry(f, white);
  }

  /** The SimpleColor list of the code "000000" holds that code as it is. */
  lemma BlackKept()
    ensures SimpleColors(["000000"]) == [SimpleColor("000000")]
  {
    CanonicalCodeFixed("000000");
    SimpleColorsAt(["000000"], 0);
  }

  /** The complement entry of the links is the list of one SimpleColor of the
      complement's code. */
  lemma ComplementLinkEntry(f: FloatConverters, rgb: Rgb)
    ensures Links(f, rgb)["complement"] == SimpleColors([RgbToHex(RgbComplement(rgb))])
  {
  }
}
