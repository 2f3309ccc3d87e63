/** The two decisions of the image service's GenerateImage that are not
    pixel work: which text is drawn, and which encoder the finished image
    is handed to. Filling, font sizing, glyph drawing and the encoders
    themselves are outside this model; drawing enters only as the outcome
    of a call. */
module Service {
  import opened Results
  import opened GoStrings
  import opened GoStrconv

  /** The text drawn on the image: the caller's text, or "{width}x{height}"
      in decimal when the caller gave none. */
  function DisplayText(text: string, width: int, height: int): (r: string)
    ensures r != []
    ensures text != [] ==> r == text
  {
    if text == [] then Itoa(width) + "x" + Itoa(height) else text
  }

  /** The text length used for font sizing: Go's `len`, a count of UTF-8
      bytes, where an empty text would count as 1. */
  function TextLength(text: string): (n: nat)
    ensures n >= 1
    ensures text != [] ==> n == Utf8Len(text)
    ensures text != [] ==> |text| <= n <= 4 * |text|
  {
    if Utf8Len(text) == 0 then 1 else Utf8Len(text)
  }

  /** The length counts bytes, not characters: two CJK characters of
      three bytes each count as 6, and a plain ASCII text as its length. */
  lemma TextLengthCountsBytes()
    ensures TextLength("\U{4F60}\U{597D}") == 6
    ensures TextLength("100x50") == 6
  {
    assert "\U{4F60}\U{597D}"[1..] == "\U{597D}";
    assert "\U{597D}"[1..] == "";
  }

  /** After the default is applied the text is never empty, so the
      "empty text counts as 1" guard never changes the length. */
  lemma TextLengthGuardNeverFires(text: string, width: int, height: int)
    ensures TextLength(DisplayText(text, width, height)) == Utf8Len(DisplayText(text, width, height))
  {}

  /** The three encoders, with the one setting each is given. */
  datatype Encoder = Png | Jpeg(quality: int) | Gif(numColors: int)

  /** The encoder for a format name, compared in lower case: JPEG at
      quality 90 for "jpg" and "jpeg", GIF with 256 colours for "gif",
      and PNG for anything else. */
  function SelectEncoder(format: string): (e: Encoder)
    ensures e.Jpeg? ==> e.quality == 90
    ensures e.Gif? ==> e.numColors == 256
    ensures e.Jpeg? <==> EqualIgnoringCase(format, "jpg") || EqualIgnoringCase(format, "jpeg")
    ensures e.Gif? <==> EqualIgnoringCase(format, "gif")
  {
    ToLowerIsWord(format, "jpg");
    ToLowerIsWord(format, "jpeg");
    ToLowerIsWord(format, "gif");
    match ToLower(format)
    case "jpg" => Jpeg(90)
    case "jpeg" => Jpeg(90)
    case "gif" => Gif(256)
    case _ => Png
  }

  /** PNG is the fallback: the empty format and "png" in either case
      select it. */
  lemma SelectEncoderFallback()
    ensures SelectEncoder("") == Png
    ensures SelectEncoder("png") == Png && SelectEncoder("PNG") == Png
  {
    assert !SameLetterIgnoringCase('p', 'j') && !SameLetterIgnoringCase('p', 'g');
    assert !SameLetterIgnoringCase('P', 'j') && !SameLetterIgnoringCase('P', 'g');
  }

  /** Names that are not exactly a recognised one select PNG too. */
  lemma SelectEncoderUnknown()
    ensures SelectEncoder("bmp") == Png && SelectEncoder("gifs") == Png
  {
    assert !SameLetterIgnoringCase('b', 'j') && !SameLetterIgnoringCase('b', 'g');
    assert !SameLetterIgnoringCase('g', 'j');
  }

  /** The recognised names in mixed case, including the capital dotted I
      that Go lowers to 'i'. */
  lemma SelectEncoderAnyCase()
    ensures SelectEncoder("JPG") == Jpeg(90) && SelectEncoder("JpEg") == Jpeg(90)
    ensures SelectEncoder("GIF") == Gif(256) && SelectEncoder("G\U{0130}F") == Gif(256)
  {
    assert EqualIgnoringCase("JPG", "jpg");
    assert EqualIgnoringCase("JpEg", "jpeg");
    assert EqualIgnoringCase("GIF", "gif");
    assert EqualIgnoringCase("G\U{0130}F", "gif");
  }

  /** What drawing the text with the shared font came to. */
  datatype DrawOutcome = Drawn | DrawFailed(err: string)

  /** A finished rendering: the text that was drawn and the encoder that
      will write the image out. */
  datatype Rendering = Rendering(text: string, encoder: Encoder)

  /** GenerateImage, as far as it decides anything: the text is
      defaulted, drawn through `drawString` (the font rasteriser, outside
      the model), and on success the format picks the encoder. A drawing
      error is returned as is, before any encoder is chosen. */
  function GenerateImage(width: int, height: int, text: string, format: string,
                         drawString: string -> DrawOutcome): (r: Result<Rendering, string>)
    ensures r.Failure? <==> drawString(DisplayText(text, width, height)).DrawFailed?
    ensures r.Failure? ==> r.error == drawString(DisplayText(text, width, height)).err
    ensures r.Success? ==>
      && r.value.text == DisplayText(text, width, height)
      && r.value.text != []
      && r.value.encoder == SelectEncoder(format)
  {
    var shown := DisplayText(text, width, height);
    match drawString(shown)
    case DrawFailed(err) => Failure(err)
    case Drawn => Success(Rendering(shown, SelectEncoder(format)))
  }

}
