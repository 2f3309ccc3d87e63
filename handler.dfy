/** The HTTP handler of `GET /:size/:bg/:fg`, as far as it decides
    anything: the size segment, the two colour segments, the output format
    from the path's extension and the overlay text, in the order the
    handler checks them, followed by the hand-over to the image service.
    Routing, headers, the ETag and writing the body are outside the model. */
module Handler {
  import opened Results
  import opened GoStrings
  import opened GoStrconv
  import opened Service

  type Byte = x: int | 0 <= x < 256

  /** color.RGBA: three colour channels and an alpha channel. */
  datatype RGBA = RGBA(r: Byte, g: Byte, b: Byte, a: Byte)

  /** Why a colour string was refused: its length after normalising, or
      the error strconv.ParseUint reported. */
  datatype ColorError = BadLength | BadHex(err: NumError)

  // ---------------------------------------------------------------------
  // Colours

  /** A colour string with one leading '#' removed and the three-character
      shorthand widened by doubling every character. */
  function NormalizeHex(hex: string): (h: string)
    ensures var t := TrimPrefix(hex, "#");
      && (|t| == 3 ==> |h| == 6 && forall i :: 0 <= i < 6 ==> h[i] == t[i / 2])
      && (|t| != 3 ==> h == t)
  {
    var t := TrimPrefix(hex, "#");
    if |t| == 3 then [t[0], t[0], t[1], t[1], t[2], t[2]] else t
  }

  /** Every character of a colour string survives normalisation, except a
      single leading '#'. */
  lemma NormalizeHexKeeps(hex: string, i: nat)
    requires i < |hex| && !(i == 0 && hex[0] == '#')
    ensures hex[i] in NormalizeHex(hex)
  {
    var t := TrimPrefix(hex, "#");
    var j := if HasPrefix(hex, "#") then i - 1 else i;
    assert 0 <= j < |t| && t[j] == hex[i];
    if |t| == 3 {
      assert NormalizeHex(hex)[2 * j] == t[j];
    }
  }

  /** parseHexColor: a colour string of six hexadecimal digits, after one
      optional '#' and the shorthand widening, read as a 24-bit number whose
      bytes are red, green and blue; alpha is always 255. Any other length
      is refused first, then any character that is not a hex digit. */
  function ParseHexColor(hex: string): (r: Result<RGBA, ColorError>)
    ensures r.Success? <==> |NormalizeHex(hex)| == 6 && AllDigits(NormalizeHex(hex), 16)
    ensures |NormalizeHex(hex)| != 6 ==> r == Failure(BadLength)
    ensures |NormalizeHex(hex)| == 6 && !AllDigits(NormalizeHex(hex), 16) ==> r == Failure(BadHex(ErrSyntax))
    ensures r.Success? ==>
      && r.value.a == 255
      && r.value.r * 0x1_0000 + r.value.g * 0x100 + r.value.b == DigitsValue(NormalizeHex(hex), 16)
  {
    var h := NormalizeHex(hex);
    if |h| != 6 then Failure(BadLength)
    else
      PowValues();
      var parsed := ParseUint(h, 16, 24);
      assert parsed != Failure(ErrRange) by {
        assert Pow(16, |h|) <= Pow(2, 24);
      }
      match parsed
      case Failure(e) =>
        assert e == ErrSyntax;
        Failure(BadHex(e))
      case Success(rgb) =>
        DigitsValueBound(h, 16);
        ChannelsOfRgb(rgb);
        Success(RGBA((rgb / 0x1_0000) % 0x100, (rgb / 0x100) % 0x100, rgb % 0x100, 255))
  }

  /** The shifts and masks of the channel split lose nothing: a 24-bit
      value is red * 2^16 + green * 2^8 + blue. */
  lemma ChannelsOfRgb(v: nat)
    requires v < 0x100_0000
    ensures ((v / 0x1_0000) % 0x100) * 0x1_0000 + ((v / 0x100) % 0x100) * 0x100 + v % 0x100 == v
  {
    var hi, lo := v / 0x1_0000, v % 0x1_0000;
    assert v == hi * 0x1_0000 + lo;
    assert hi < 0x100;
    assert lo / 0x100 < 0x100;
    assert v / 0x100 == hi * 0x100 + lo / 0x100;
    assert v % 0x100 == lo % 0x100;
  }

  /** Splitting a 24-bit value built from three bytes gives the bytes back. */
  lemma RgbOfChannels(r: Byte, g: Byte, b: Byte)
    ensures var v := r * 0x1_0000 + g * 0x100 + b;
      (v / 0x1_0000) % 0x100 == r && (v / 0x100) % 0x100 == g && v % 0x100 == b
  {
    var v := r * 0x1_0000 + g * 0x100 + b;
    assert v / 0x1_0000 == r;
    assert v / 0x100 == r * 0x100 + g;
  }

  /** Where success means an accepted string: only hex digits, with at
      most one '#' and that one in front. In particular a colour string
      carrying an extension such as ".png" is refused. */
  lemma ParseHexColorCharacters(hex: string)
    requires ParseHexColor(hex).Success?
    ensures forall i :: 0 <= i < |hex| ==> DigitValue(hex[i]) < 16 || (i == 0 && hex[i] == '#')
  {
    var h := NormalizeHex(hex);
    forall i | 0 <= i < |hex| && !(i == 0 && hex[i] == '#')
      ensures DigitValue(hex[i]) < 16
    {
      NormalizeHexKeeps(hex, i);
      var j :| 0 <= j < |h| && h[j] == hex[i];
    }
  }

  /** The value of a six-digit hex numeral, two digits per byte. */
  lemma SixHexDigits(h: string)
    requires |h| == 6
    ensures DigitsValue(h, 16)
      == (DigitValue(h[0]) * 16 + DigitValue(h[1])) * 0x1_0000
       + (DigitValue(h[2]) * 16 + DigitValue(h[3])) * 0x100
       + (DigitValue(h[4]) * 16 + DigitValue(h[5]))
  {
    assert h[..0] == [];
    assert h[..1] == h[..0] + [h[0]];
    DigitsValueSnoc(h[..0], h[0], 16);
    assert h[..2] == h[..1] + [h[1]];
    DigitsValueSnoc(h[..1], h[1], 16);
    assert h[..3] == h[..2] + [h[2]];
    DigitsValueSnoc(h[..2], h[2], 16);
    assert h[..4] == h[..3] + [h[3]];
    DigitsValueSnoc(h[..3], h[3], 16);
    assert h[..5] == h[..4] + [h[4]];
    DigitsValueSnoc(h[..4], h[4], 16);
    assert h[..6] == h[..5] + [h[5]];
    DigitsValueSnoc(h[..5], h[5], 16);
    assert h[..6] == h;
  }

  /** The lower-case hex digit for 0 <= d < 16. */
  function HexDigit(d: nat): (c: char)
    requires d < 16
    ensures DigitValue(c) == d && LowerRune(c) == c
  {
    if d < 10 then ('0' as int + d) as char else ('a' as int + d - 10) as char
  }

  lemma HexDigitOfValue(c: char)
    requires DigitValue(c) < 16
    ensures HexDigit(DigitValue(c)) == LowerRune(c)
  {}

  /** A byte as two lower-case hex digits. */
  function Hex2(b: Byte): string
  {
    [HexDigit(b / 16), HexDigit(b % 16)]
  }

  /** A colour as the six lower-case hex digits of red, green and blue:
      the canonical spelling that ParseHexColor reads. */
  function FormatHex(c: RGBA): (s: string)
    ensures |s| == 6 && AllDigits(s, 16)
  {
    Hex2(c.r) + Hex2(c.g) + Hex2(c.b)
  }

  /** The two digits of a byte denote that byte. */
  lemma Hex2Value(b: Byte)
    ensures DigitValue(Hex2(b)[0]) * 16 + DigitValue(Hex2(b)[1]) == b
  {
    assert DigitValue(Hex2(b)[0]) == b / 16;
    assert DigitValue(Hex2(b)[1]) == b % 16;
  }

  /** The canonical spelling denotes the colour's 24-bit value. */
  lemma FormatHexValue(c: RGBA)
    ensures DigitsValue(FormatHex(c), 16) == c.r * 0x1_0000 + c.g * 0x100 + c.b
  {
    var s := FormatHex(c);
    SixHexDigits(s);
    Hex2Value(c.r);
    Hex2Value(c.g);
    Hex2Value(c.b);
    assert s[0] == Hex2(c.r)[0] && s[1] == Hex2(c.r)[1];
    assert s[2] == Hex2(c.g)[0] && s[3] == Hex2(c.g)[1];
    assert s[4] == Hex2(c.b)[0] && s[5] == Hex2(c.b)[1];
  }

  /** Reading the canonical spelling of an opaque colour gives the colour
      back, with or without a leading '#'. */
  lemma {:induction false} ParseFormatHex(c: RGBA)
    requires c.a == 255
    ensures ParseHexColor(FormatHex(c)) == Success(c)
    ensures ParseHexColor("#" + FormatHex(c)) == Success(c)
  {
    var s := FormatHex(c);
    assert NormalizeHex(s) == s by {
      assert DigitValue(s[0]) < 16;
      assert TrimPrefix(s, "#") == s;
    }
    assert NormalizeHex("#" + s) == s by {
      assert ("#" + s)[..1] == "#";
      assert ("#" + s)[1..] == s;
      assert TrimPrefix("#" + s, "#") == s;
    }
    FormatHexValue(c);
    var v := ParseHexColor(s).value;
    BytesFromRgb(v, c.r, c.g, c.b);
  }

  /** The byte spelt by two hex digits. */
  function HexPair(x: char, y: char): Byte
    requires DigitValue(x) < 16 && DigitValue(y) < 16
  {
    DigitValue(x) * 16 + DigitValue(y)
  }

  /** Two hex digits written back as a byte give the same digits, in
      lower case. */
  lemma Hex2OfDigits(x: char, y: char)
    requires DigitValue(x) < 16 && DigitValue(y) < 16
    ensures Hex2(HexPair(x, y)) == [LowerRune(x), LowerRune(y)]
  {
    var b := HexPair(x, y);
    assert b / 16 == DigitValue(x) && b % 16 == DigitValue(y);
    HexDigitOfValue(x);
    HexDigitOfValue(y);
  }

  /** Three bytes are determined by the 24-bit value they make up. */
  lemma BytesFromRgb(c: RGBA, r: Byte, g: Byte, b: Byte)
    requires c.r * 0x1_0000 + c.g * 0x100 + c.b == r * 0x1_0000 + g * 0x100 + b
    ensures c.r == r && c.g == g && c.b == b
  {
    RgbOfChannels(c.r, c.g, c.b);
    RgbOfChannels(r, g, b);
  }

  /** A colour whose three bytes are spelt by consecutive digit pairs of
      `h` is spelt by `h` in lower case. */
  lemma FormatHexOfPairs(c: RGBA, h: string)
    requires |h| == 6
    requires Hex2(c.r) == [LowerRune(h[0]), LowerRune(h[1])]
    requires Hex2(c.g) == [LowerRune(h[2]), LowerRune(h[3])]
    requires Hex2(c.b) == [LowerRune(h[4]), LowerRune(h[5])]
    ensures FormatHex(c) == ToLower(h)
  {
    var s := FormatHex(c);
    assert forall i :: 0 <= i < 6 ==> s[i] == ToLower(h)[i];
  }

  /** A colour whose 24-bit value is that of six hex digits is spelt by
      those digits, in lower case. */
  lemma FormatHexOfDigits(c: RGBA, h: string)
    requires |h| == 6 && AllDigits(h, 16)
    requires c.r * 0x1_0000 + c.g * 0x100 + c.b == DigitsValue(h, 16)
    ensures FormatHex(c) == ToLower(h)
  {
    SixHexDigits(h);
    var r, g, b := HexPair(h[0], h[1]), HexPair(h[2], h[3]), HexPair(h[4], h[5]);
    BytesFromRgb(c, r, g, b);
    Hex2OfDigits(h[0], h[1]);
    Hex2OfDigits(h[2], h[3]);
    Hex2OfDigits(h[4], h[5]);
    FormatHexOfPairs(c, h);
  }

  /** Writing out what ParseHexColor read gives the normalised input in
      lower case: the only thing lost is the letter case of the digits. */
  lemma FormatParseHex(hex: string)
    requires ParseHexColor(hex).Success?
    ensures FormatHex(ParseHexColor(hex).value) == ToLower(NormalizeHex(hex))
  {
    FormatHexOfDigits(ParseHexColor(hex).value, NormalizeHex(hex));
  }

  /** A shorthand colour means the same as its widened form. */
  lemma ShorthandIsDoubled(x: char, y: char, z: char)
    requires x != '#'
    ensures ParseHexColor([x, y, z]) == ParseHexColor([x, x, y, y, z, z])
    ensures ParseHexColor("#" + [x, y, z]) == ParseHexColor([x, x, y, y, z, z])
  {
    assert [x, y, z][..1] == [x];
    assert TrimPrefix([x, y, z], "#") == [x, y, z];
    assert TrimPrefix("#" + [x, y, z], "#") == [x, y, z] by {
      assert ("#" + [x, y, z])[..1] == "#";
    }
    assert NormalizeHex([x, y, z]) == [x, x, y, y, z, z];
    assert [x, x, y, y, z, z][..1] == [x];
    assert NormalizeHex([x, x, y, y, z, z]) == [x, x, y, y, z, z];
  }

  /** Only one '#' is removed, so a doubled '#' makes every colour
      string the wrong length or not hexadecimal. */
  lemma OneHashOnly(t: string)
    ensures ParseHexColor("##" + t).Failure?
  {
    var hex := "##" + t;
    assert hex[..1] == "#" && hex[1..] == "#" + t;
    var u := TrimPrefix(hex, "#");
    assert u == "#" + t && u[0] == '#';
    assert DigitValue('#') == 36;
    assert NormalizeHex(hex)[0] == '#';
  }

  // ---------------------------------------------------------------------
  // Errors

  /** The handler's refusals: the client errors answered with 400, and a
      failed rendering answered with 500. */
  datatype HandlerError =
    | InvalidSizeFormat
    | InvalidWidth
    | InvalidHeight
    | InvalidSize
    | InvalidBackground(bg: string)
    | InvalidForeground(fg: string)
    | GenerateFailed

  /** The HTTP status of a refusal. */
  function StatusCode(e: HandlerError): (code: int)
    ensures code == 500 <==> e == GenerateFailed
    ensures code == 400 <==> e != GenerateFailed
  {
    if e == GenerateFailed then 500 else 400
  }

  /** The response body of a refusal. Every client error starts with
      "Invalid ", the server error does not. */
  function Message(e: HandlerError): (m: string)
    ensures HasPrefix(m, "Invalid ") <==> StatusCode(e) == 400
    ensures e.InvalidBackground? ==> HasSuffix(m, e.bg)
    ensures e.InvalidForeground? ==> HasSuffix(m, e.fg)
  {
    match e
    case InvalidSizeFormat => "Invalid size format"
    case InvalidWidth => "Invalid width"
    case InvalidHeight => "Invalid height"
    case InvalidSize => "Invalid size"
    case InvalidBackground(bg) => "Invalid background color: " + bg
    case InvalidForeground(fg) => "Invalid foreground color: " + fg
    case GenerateFailed =>
      var m := "Failed to generate image";
      assert m[..8] != "Invalid " by { assert m[..8][0] == 'F'; }
      m
  }

  /** Different refusals have different bodies: the body tells which
      check failed and, for a colour, which string was refused. */
  lemma MessageDetermines(e1: HandlerError, e2: HandlerError)
    requires Message(e1) == Message(e2)
    ensures e1 == e2
  {
    var m := Message(e1);
    if e1.InvalidBackground? || e1.InvalidForeground? || e2.InvalidBackground? || e2.InvalidForeground? {
      assert |m| >= 26;
      assert m[8] == Message(e2)[8];
      if e1.InvalidBackground? && e2.InvalidBackground? {
        assert e1.bg == m[26..] == e2.bg;
      } else if e1.InvalidForeground? && e2.InvalidForeground? {
        assert e1.fg == m[26..] == e2.fg;
      }
    } else {
      assert |m| == |Message(e2)|;
      assert m[8] == Message(e2)[8];
    }
  }

  // ---------------------------------------------------------------------
  // Size

  /** The size segment: "WxH" with exactly one 'x' and an integer on each
      side, or a single integer for a square. Any integer Atoi accepts is a
      dimension, zero and negative ones included. */
  function ParseSize(size: string): (r: Result<(int, int), HandlerError>)
    ensures r.Failure? ==> r.error in {InvalidSizeFormat, InvalidWidth, InvalidHeight, InvalidSize}
    ensures r == Failure(InvalidSizeFormat) <==> Count(size, 'x') >= 2
    ensures r == Failure(InvalidSize) <==> 'x' !in size && Atoi(size).Failure?
    ensures r.Success? ==> IsInt64(r.value.0) && IsInt64(r.value.1)
  {
    if 'x' in size then
      var parts := Split(size, 'x');
      if |parts| != 2 then Failure(InvalidSizeFormat)
      else
        match Atoi(parts[0])
        case Failure(_) => Failure(InvalidWidth)
        case Success(w) =>
          match Atoi(parts[1])
          case Failure(_) => Failure(InvalidHeight)
          case Success(h) => Success((w, h))
    else
      match Atoi(size)
      case Failure(_) => Failure(InvalidSize)
      case Success(v) => Success((v, v))
  }

  /** "WxH": the width is read first, so a bad width is reported even
      when the height is bad too; on success the dimensions are the two
      integers. */
  lemma SizeWidthThenHeight(w: string, h: string)
    requires 'x' !in w && 'x' !in h
    ensures ParseSize(w + "x" + h) ==
      if Atoi(w).Failure? then Failure(InvalidWidth)
      else if Atoi(h).Failure? then Failure(InvalidHeight)
      else Success((Atoi(w).value, Atoi(h).value))
  {
    SplitTwo(w, h, 'x');
    assert 'x' in w + "x" + h by {
      assert (w + "x" + h)[|w|] == 'x';
    }
  }

  /** A size without 'x' is one integer N, the square N by N. */
  lemma SizeSquare(size: string)
    requires 'x' !in size
    ensures ParseSize(size).Success? <==> Atoi(size).Success?
    ensures ParseSize(size).Success? ==> ParseSize(size).value == (Atoi(size).value, Atoi(size).value)
  {}

  /** Every pair of 64-bit integers, written in decimal, is a size the
      handler accepts: no dimension is too small, not even zero or a
      negative one. */
  lemma {:induction false} SizeAcceptsEveryInt(w: int, h: int)
    requires IsInt64(w) && IsInt64(h)
    ensures ParseSize(Itoa(w) + "x" + Itoa(h)) == Success((w, h))
    ensures ParseSize(Itoa(w)) == Success((w, w))
  {
    AtoiItoa(w);
    AtoiItoa(h);
    SizeWidthThenHeight(Itoa(w), Itoa(h));
  }

  /** Zero is accepted as a size. */
  lemma SizeZeroAccepted()
    ensures ParseSize("0") == Success((0, 0))
  {
    assert Magnitude("0") == "0";
    assert DigitsValue("0", 10) == 0;
    assert IsDecimal("0") && DecimalValue("0") == 0;
    assert Atoi("0") == Success(0);
  }

  /** A negative width and a height with an explicit '+' are accepted. */
  lemma SizeSignedAccepted()
    ensures ParseSize("-5" + "x" + "+5") == Success((-5, 5))
  {
    AtoiSignedFive();
    SizeWidthThenHeight("-5", "+5");
  }

  lemma AtoiSignedFive()
    ensures Atoi("-5") == Success(-5) && Atoi("+5") == Success(5)
  {
    assert Magnitude("-5") == "5" && Magnitude("+5") == "5";
    assert DigitsValue("5", 10) == 5;
    assert IsDecimal("-5") && DecimalValue("-5") == -5;
    assert IsDecimal("+5") && DecimalValue("+5") == 5;
  }

  /** A size with three parts is refused as a whole. */
  lemma SizeThreePartsRefused()
    ensures ParseSize("1x2x3") == Failure(InvalidSizeFormat)
  {
    assert Count("1x2x3", 'x') == 2;
  }

  /** A missing width, a missing height and an empty segment, each with
      its own message. */
  lemma SizeEmptyPartsRefused()
    ensures ParseSize("x5") == Failure(InvalidWidth)
    ensures ParseSize("5x") == Failure(InvalidHeight)
    ensures ParseSize("") == Failure(InvalidSize)
  {
    assert !IsDecimal("");
    SizeWidthThenHeight("", "5");
    assert "" + "x" + "5" == "x5";
    SizeWidthThenHeight("5", "");
    assert "5" + "x" + "" == "5x";
  }

  /** The default overlay text is "{width}x{height}" in decimal: a size
      segment that reads back as the same dimensions. */
  lemma DefaultTextIsSize(w: int, h: int)
    requires IsInt64(w) && IsInt64(h)
    ensures DisplayText("", w, h) == Itoa(w) + "x" + Itoa(h)
    ensures ParseSize(DisplayText("", w, h)) == Success((w, h))
  {
    SizeAcceptsEveryInt(w, h);
  }

  // ---------------------------------------------------------------------
  // Extension and format

  /** The foreground segment without its extension (path.Ext semantics),
      which is how the output format can ride on the colour. */
  function StripForegroundExt(fg: string): (r: string)
    ensures r + Ext(fg) == fg
  {
    var ext := Ext(fg);
    if ext != [] then TrimSuffix(fg, ext) else fg
  }

  /** The output format: the path's extension without its dot, in the
      case it was written, or "png" when that leaves nothing. */
  function FormatFromPath(urlPath: string): (f: string)
    ensures f != []
    ensures |Ext(urlPath)| > 1 ==> "." + f == Ext(urlPath)
    ensures |Ext(urlPath)| <= 1 ==> f == "png"
  {
    var f := TrimPrefix(Ext(urlPath), ".");
    if f == [] then "png" else f
  }

  /** The request path of the route /:size/:bg/:fg. */
  function RoutePath(size: string, bg: string, fg: string): string
  {
    "/" + size + "/" + bg + "/" + fg
  }

  /** On the route /:size/:bg/:fg the extension that sets the format is
      exactly the one removed from the foreground colour. */
  lemma ForegroundExtensionIsFormat(size: string, bg: string, fg: string)
    ensures StripForegroundExt(fg) + Ext(RoutePath(size, bg, fg)) == fg
    ensures FormatFromPath(RoutePath(size, bg, fg)) == if |Ext(fg)| > 1 then Ext(fg)[1..] else "png"
  {
    var dir := "/" + size + "/" + bg;
    assert "/" + size + "/" + bg + "/" + fg == dir + ['/'] + fg;
    ExtOfLastSegment(dir, fg);
  }

  // ---------------------------------------------------------------------
  // The whole request

  /** The parameters handed to the image service. The text is passed on
      as given; the service supplies the default. */
  datatype Request = Request(width: int, height: int, bg: RGBA, fg: RGBA, text: string, format: string)

  /** The handler's parsing, in its order: size, then background (taken
      as it is), then foreground (with its extension removed, which is
      also what the error message shows); format and text cannot fail. */
  function ParseRequest(size: string, bgHex: string, fgParam: string, urlPath: string, text: string): (r: Result<Request, HandlerError>)
    ensures r.Success? <==>
      ParseSize(size).Success? && ParseHexColor(bgHex).Success? && ParseHexColor(StripForegroundExt(fgParam)).Success?
    ensures ParseSize(size).Failure? ==> r == Failure(ParseSize(size).error)
    ensures ParseSize(size).Success? && ParseHexColor(bgHex).Failure? ==> r == Failure(InvalidBackground(bgHex))
    ensures ParseSize(size).Success? && ParseHexColor(bgHex).Success? && ParseHexColor(StripForegroundExt(fgParam)).Failure?
      ==> r == Failure(InvalidForeground(StripForegroundExt(fgParam)))
    ensures r.Success? ==>
      && (r.value.width, r.value.height) == ParseSize(size).value
      && r.value.bg == ParseHexColor(bgHex).value
      && r.value.fg == ParseHexColor(StripForegroundExt(fgParam)).value
      && r.value.text == text
      && r.value.format == FormatFromPath(urlPath)
  {
    match ParseSize(size)
    case Failure(e) => Failure(e)
    case Success((width, height)) =>
      var fgHex := StripForegroundExt(fgParam);
      match ParseHexColor(bgHex)
      case Failure(_) => Failure(InvalidBackground(bgHex))
      case Success(bg) =>
        match ParseHexColor(fgHex)
        case Failure(_) => Failure(InvalidForeground(fgHex))
        case Success(fg) => Success(Request(width, height, bg, fg, text, FormatFromPath(urlPath)))
  }

  /** The background segment is never stripped: a request succeeds only
      when its background holds no '.', while the foreground may carry an
      extension. */
  lemma BackgroundNeverStripped(size: string, bgHex: string, fgParam: string, urlPath: string, text: string)
    requires ParseRequest(size, bgHex, fgParam, urlPath, text).Success?
    ensures '.' !in bgHex
  {
    ParseHexColorCharacters(bgHex);
    assert DigitValue('.') == 36;
  }

  /** A foreground segment "name.suffix" is read as the colour "name"
      and, on the route, asks for the format "suffix". */
  lemma DottedForeground(size: string, bg: string, name: string, suffix: string)
    requires suffix != [] && '.' !in suffix && '/' !in suffix
    ensures StripForegroundExt(name + "." + suffix) == name
    ensures FormatFromPath(RoutePath(size, bg, name + "." + suffix)) == suffix
  {
    var fg := name + "." + suffix;
    assert Ext(fg) == "." + suffix by {
      assert fg == name + ['.'] + suffix;
      ExtOfDottedName(name, suffix);
    }
    var stripped := StripForegroundExt(fg);
    assert stripped + Ext(fg) == name + Ext(fg);
    AppendCancel(stripped, name, Ext(fg));
    ForegroundExtensionIsFormat(size, bg, fg);
    assert Ext(fg)[1..] == suffix;
  }

  /** A common suffix can be cancelled. */
  lemma AppendCancel(a: string, b: string, c: string)
    requires a + c == b + c
    ensures a == b
  {
    assert a == (a + c)[..|a|];
    assert b == (b + c)[..|b|];
  }

  /** Once size and background are accepted, the foreground colour
      alone decides the request, and its format is the path's. */
  lemma ForegroundDecides(size: string, bg: string, fg: string, urlPath: string, text: string)
    requires ParseSize(size).Success? && ParseHexColor(bg).Success?
    ensures var r := ParseRequest(size, bg, fg, urlPath, text);
      && (r.Success? <==> ParseHexColor(StripForegroundExt(fg)).Success?)
      && (r.Success? ==> r.value.fg == ParseHexColor(StripForegroundExt(fg)).value
                         && r.value.format == FormatFromPath(urlPath))
      && (r.Failure? ==> r.error == InvalidForeground(StripForegroundExt(fg)))
  {}

  /** A foreground "name.suffix" is refused, when it is, as the colour
      "name", which is also the text the refusal shows; accepted, it gives
      the colour "name" in the format "suffix". */
  lemma ForegroundSuffixSetsFormat(size: string, bg: string, name: string, suffix: string, text: string)
    requires suffix != [] && '.' !in suffix && '/' !in suffix
    requires ParseSize(size).Success? && ParseHexColor(bg).Success?
    ensures var fg := name + "." + suffix;
      var r := ParseRequest(size, bg, fg, RoutePath(size, bg, fg), text);
      && (r.Success? <==> ParseHexColor(name).Success?)
      && (r.Success? ==> r.value.fg == ParseHexColor(name).value && r.value.format == suffix)
      && (r.Failure? ==> r.error == InvalidForeground(name))
  {
    var fg := name + "." + suffix;
    DottedForeground(size, bg, name, suffix);
    ForegroundDecides(size, bg, fg, RoutePath(size, bg, fg), text);
  }

  /** The colours behind "zzz.gif" and "000.gif": "zzz" is refused and
      "000" is opaque black. */
  lemma ForegroundGifExamples()
    ensures ParseHexColor("zzz").Failure?
    ensures ParseHexColor("000") == Success(RGBA(0, 0, 0, 255))
  {
    ForegroundNotHex();
    ForegroundBlack();
  }

  lemma ForegroundNotHex()
    ensures ParseHexColor("zzz").Failure?
  {
    assert "zzz"[..1] == "z";
    assert NormalizeHex("zzz")[0] == 'z';
    assert DigitValue('z') == 35;
  }

  lemma ForegroundBlack()
    ensures ParseHexColor("000") == Success(RGBA(0, 0, 0, 255))
  {
    assert "000"[..1] == "0";
    var h := NormalizeHex("000");
    assert h == "000000";
    SixHexDigits(h);
    assert DigitsValue(h, 16) == 0;
  }

  /** GenerateImage in the handler: a parse error is answered as is, and a
      rendering error becomes the one server error. */
  function Handle(size: string, bgHex: string, fgParam: string, urlPath: string, text: string,
                  drawString: string -> DrawOutcome): (r: Result<(Request, Rendering), HandlerError>)
    ensures ParseRequest(size, bgHex, fgParam, urlPath, text).Failure? ==>
      r == Failure(ParseRequest(size, bgHex, fgParam, urlPath, text).error)
    ensures r.Success? <==>
      ParseRequest(size, bgHex, fgParam, urlPath, text).Success?
      && GenerateImage(ParseRequest(size, bgHex, fgParam, urlPath, text).value.width,
                       ParseRequest(size, bgHex, fgParam, urlPath, text).value.height,
                       text, FormatFromPath(urlPath), drawString).Success?
    ensures r == Failure(GenerateFailed) <==>
      ParseRequest(size, bgHex, fgParam, urlPath, text).Success?
      && GenerateImage(ParseRequest(size, bgHex, fgParam, urlPath, text).value.width,
                       ParseRequest(size, bgHex, fgParam, urlPath, text).value.height,
                       text, FormatFromPath(urlPath), drawString).Failure?
    ensures r.Success? ==>
      && r.value.0 == ParseRequest(size, bgHex, fgParam, urlPath, text).value
      && r.value.1.text == DisplayText(text, r.value.0.width, r.value.0.height)
      && r.value.1.encoder == SelectEncoder(FormatFromPath(urlPath))
  {
    match ParseRequest(size, bgHex, fgParam, urlPath, text)
    case Failure(e) => Failure(e)
    case Success(req) =>
      match GenerateImage(req.width, req.height, req.text, req.format, drawString)
      case Failure(_) => Failure(GenerateFailed)
      case Success(rendering) => Success((req, rendering))
  }

  /** With no text, the image shows its own size, and that text is a
      size segment for the same image. */
  lemma DefaultTextShowsSize(size: string, bgHex: string, fgParam: string, urlPath: string,
                             drawString: string -> DrawOutcome)
    requires Handle(size, bgHex, fgParam, urlPath, "", drawString).Success?
    ensures var (req, rendering) := Handle(size, bgHex, fgParam, urlPath, "", drawString).value;
      ParseSize(rendering.text) == Success((req.width, req.height))
  {
    var (req, rendering) := Handle(size, bgHex, fgParam, urlPath, "", drawString).value;
    DefaultTextIsSize(req.width, req.height);
  }

}
