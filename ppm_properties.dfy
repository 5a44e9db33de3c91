/** What the P3 codec of the image editor guarantees: how the decoder
    reads the token stream and when it rejects it, that the layout of the
    whitespace does not matter, and that decoding what the encoder wrote
    gives the image back. */
module PpmProperties {
  import opened JsText
  import opened JsNumber
  import opened ImageEditor

  /** The groups one after the other. */
  function Concat<T>(groups: seq<seq<T>>): seq<T> {
    if groups == [] then [] else groups[0] + Concat(groups[1..])
  }

  /** The channel texts of every pixel, in order: the tokens the encoder
      writes after the header. */
  function ChannelTokens(pixels: seq<seq<Num>>): seq<string> {
    if pixels == [] then [] else Channels(pixels[0]) + ChannelTokens(pixels[1..])
  }

  // ---------------------------------------------------------------------
  // Decoding

  /** The decoder fails with the "P3 files only" error exactly when the
      first token is not "P3"; empty or blank input has no first token. */
  lemma DecodeRejectsWrongMagic(data: string)
    ensures Decode(data) == Err(NotP3) <==> Tokenize(data) == [] || Tokenize(data)[0] != "P3"
  {
  }

  /** Text whose first token is "P3" is accepted exactly when width and
      height parse as integers and the number of complete triples after the
      four header tokens is their product. */
  lemma DecodeAcceptsExactly(data: string)
    requires Tokenize(data) != [] && Tokenize(data)[0] == "P3"
    ensures Decode(data).Ok? <==>
      var lines := Tokenize(data);
      var width, height := ParsedAt(lines, 1), ParsedAt(lines, 2);
      width.Int? && height.Int?
      && (if |lines| > 4 then (|lines| - 4) / 3 else 0) == width.value * height.value
  {
  }

  /** A missing or non-numeric width or height always ends in the
      pixel-count error: the product NaN equals no pixel count. */
  lemma MissingDimensionRejected(data: string)
    requires Tokenize(data) != [] && Tokenize(data)[0] == "P3"
    requires var lines := Tokenize(data);
      |lines| < 3 || ParseInt(lines[1]).NaN? || ParseInt(lines[2]).NaN?
    ensures Decode(data) == Err(PixelCountMismatch)
  {
  }

  /** The decoded image is the token stream read in order: width, height
      and maxColor from tokens 1 to 3, and channel c of pixel k from token
      4 + 3k + c. */
  lemma DecodeReadsTokensInOrder(data: string, k: nat, c: nat)
    requires Decode(data).Ok?
    requires k < |Decode(data).value.pixels| && c < 3
    ensures var lines, image := Tokenize(data), Decode(data).value;
      4 + 3 * k + c < |lines|
      && image.width == ParseInt(lines[1]) && image.height == ParseInt(lines[2])
      && image.maxColor == ParseInt(lines[3])
      && image.pixels[k][c] == ParseInt(lines[4 + 3 * k + c])
  {
  }

  /** Grouping ignores a tail of fewer than three values after a whole
      number of triples. */
  lemma {:induction false} TriplesIgnoreTail<T>(xs: seq<T>, tail: seq<T>)
    requires |xs| % 3 == 0 && |tail| < 3
    ensures Triples(xs + tail) == Triples(xs)
  {
    if xs == [] {
      assert xs + tail == tail;
    } else {
      assert (xs + tail)[3..] == xs[3..] + tail;
      assert (xs + tail)[..3] == xs[..3];
      TriplesIgnoreTail(xs[3..], tail);
    }
  }

  lemma ParsedAppend(a: seq<string>, b: seq<string>)
    ensures Parsed(a + b) == Parsed(a) + Parsed(b)
  {
  }

  /** Text followed by a space and tokens joined by spaces: the tokens of
      the text, then those tokens. */
  lemma {:induction false} TokenizeAppendTokens(data: string, tail: seq<string>)
    requires forall t :: t in tail ==> IsToken(t)
    ensures Tokenize(data + " " + Join(tail, " ")) == Tokenize(data) + tail
  {
    var joined := Join(tail, " ");
    assert data + " " + joined == data + ([' '] + joined);
    TokenizeConcat(data, [' '] + joined);
    TokenizeLeadingSeparator(' ', joined);
    TokenizeJoin(tail, ' ');
    TokenizeAllTokens(tail);
  }

  /** One or two tokens after the last complete triple are dropped without
      a trace: they neither fail the pixel count nor change the image. */
  lemma {:induction false} TrailingTokensIgnored(data: string, tail: seq<string>)
    requires |Tokenize(data)| >= 4 && (|Tokenize(data)| - 4) % 3 == 0
    requires 0 < |tail| < 3 && forall t :: t in tail ==> IsToken(t)
    ensures Decode(data + " " + Join(tail, " ")) == Decode(data)
  {
    TokenizeAppendTokens(data, tail);
    DecodeTokensIgnoreTail(Tokenize(data), tail);
  }

  /** The token-level fact behind TrailingTokensIgnored. */
  lemma DecodeTokensIgnoreTail(lines: seq<string>, tail: seq<string>)
    requires |lines| >= 4 && (|lines| - 4) % 3 == 0 && |tail| < 3
    ensures DecodeTokens(lines + tail) == DecodeTokens(lines)
  {
    var longer := lines + tail;
    assert AfterShifts(longer, 4) == AfterShifts(lines, 4) + tail;
    ParsedAppend(AfterShifts(lines, 4), tail);
    TriplesIgnoreTail(Parsed(AfterShifts(lines, 4)), Parsed(tail));
    assert longer[..4] == lines[..4];
  }

  /** The maxColor token is never checked: putting any other token in its
      place changes the decoded maxColor and nothing else, acceptance
      included. */
  lemma MaxColorNeverChecked(data: string, token: string)
    requires |Tokenize(data)| >= 4 && IsToken(token)
    ensures var replaced := Tokenize(data)[3 := token];
      Decode(Join(replaced, " ")) ==
        match Decode(data)
        case Err(e) => Err(e)
        case Ok(image) => Ok(image.(maxColor := ParseInt(token)))
  {
    var lines := Tokenize(data);
    var replaced := lines[3 := token];
    assert Tokenize(Join(replaced, " ")) == replaced by {
      TokenizeJoin(replaced, ' ');
      TokenizeAllTokens(replaced);
    }
    DecodeTokensReplaceMaxColor(lines, token);
  }

  /** The token-level fact behind MaxColorNeverChecked. */
  lemma DecodeTokensReplaceMaxColor(lines: seq<string>, token: string)
    requires |lines| >= 4
    ensures DecodeTokens(lines[3 := token]) ==
      match DecodeTokens(lines)
      case Err(e) => Err(e)
      case Ok(image) => Ok(image.(maxColor := ParseInt(token)))
  {
    assert AfterShifts(lines[3 := token], 4) == AfterShifts(lines, 4);
  }

  /** Without a maxColor token an image with no pixels is still accepted,
      with maxColor NaN. */
  lemma MissingMaxColorAccepted(data: string)
    requires |Tokenize(data)| == 3 && Tokenize(data)[0] == "P3"
    requires var lines := Tokenize(data);
      ParseInt(lines[1]).Int? && ParseInt(lines[2]).Int?
      && ParseInt(lines[1]).value * ParseInt(lines[2]).value == 0
    ensures var lines := Tokenize(data);
      Decode(data) == Ok(PPM(ParseInt(lines[1]), ParseInt(lines[2]), NaN, []))
  {
  }

  /** How the whitespace is laid out does not matter: any run of
      whitespace is one separator, and whitespace before the first token or
      after the last one is ignored. */
  lemma RespacingPreservesDecode(data: string, seps: seq<string>)
    requires Separators(Tokenize(data), seps)
    ensures Decode(Layout(Tokenize(data), seps)) == Decode(data)
  {
    TokenizeLayout(Tokenize(data), seps);
  }

  // ---------------------------------------------------------------------
  // Encoding

  /** The pixel lines, joined by newlines, hold the channel texts in order. */
  lemma {:induction false} TokenizePixelLines(pixels: seq<seq<Num>>)
    ensures TokenizeAll(PixelLines(pixels)) == ChannelTokens(pixels)
  {
    if pixels != [] {
      assert PixelLines(pixels)[1..] == PixelLines(pixels[1..]);
      TokenizePixelLines(pixels[1..]);
    }
  }

  /** The text writeToFile writes holds, as tokens, "P3", the width, the
      height, maxColor and then every channel of every pixel in order. */
  lemma {:induction false} EncodeTokens(image: PPM)
    ensures Tokenize(image.FileContent()) ==
      ["P3", ToString(image.width), ToString(image.height), ToString(image.maxColor)]
      + ChannelTokens(image.pixels)
  {
    var w, h, m := ToString(image.width), ToString(image.height), ToString(image.maxColor);
    var header := "P3\n" + w + " " + h + "\n" + m + "\n";
    var d := Join(PixelLines(image.pixels), "\n");
    assert image.FileContent() == header + d + "\n";
    HeaderTokens(w, h, m);
    assert Tokenize(d) == ChannelTokens(image.pixels) by {
      TokenizeJoin(PixelLines(image.pixels), '\n');
      TokenizePixelLines(image.pixels);
    }
    TokenizeConcat(header, d);
    TokenizeThenSeparator(header + d, '\n');
  }

  /** The header writeToFile writes holds four tokens: "P3", the width, the
      height and maxColor. */
  lemma {:induction false} HeaderTokens(w: string, h: string, m: string)
    requires IsToken(w) && IsToken(h) && IsToken(m)
    ensures var header := "P3\n" + w + " " + h + "\n" + m + "\n";
      header[|header| - 1] == '\n' && Tokenize(header) == ["P3", w, h, m]
  {
    SizeLineTokens(w, h);
    TokenizeField("P3\n" + w + " " + h + "\n", m, '\n');
  }

  /** The header up to the end of the line with width and height. */
  lemma {:induction false} SizeLineTokens(w: string, h: string)
    requires IsToken(w) && IsToken(h)
    ensures var text := "P3\n" + w + " " + h + "\n";
      IsWhitespace(text[|text| - 1]) && Tokenize(text) == ["P3", w, h]
  {
    WidthTokens(w);
    TokenizeField("P3\n" + w + " ", h, '\n');
  }

  /** The header up to the space after the width. */
  lemma {:induction false} WidthTokens(w: string)
    requires IsToken(w)
    ensures var text := "P3\n" + w + " ";
      IsWhitespace(text[|text| - 1]) && Tokenize(text) == ["P3", w]
  {
    var magic := "P3\n";
    assert Tokenize(magic) == ["P3"] by {
      assert magic == "P3" + ['\n'];
      TokenizeThenSeparator("P3", '\n');
      TokenizeToken("P3");
    }
    TokenizeField(magic, w, ' ');
  }

  /** A text that ends in whitespace, a token and a whitespace character:
      one more token, and the text still ends in whitespace. */
  lemma {:induction false} TokenizeField(a: string, t: string, c: char)
    requires a == [] || IsWhitespace(a[|a| - 1])
    requires IsToken(t) && IsWhitespace(c)
    ensures var b := a + t + [c];
      IsWhitespace(b[|b| - 1]) && Tokenize(b) == Tokenize(a) + [t]
  {
    TokenizeThenSeparator(a + t, c);
    TokenizeThenToken(a, t);
  }

  // ---------------------------------------------------------------------
  // Round trip

  /** Grouping the concatenation of triples gives the triples back. */
  lemma {:induction false} TriplesOfConcat<T>(groups: seq<seq<T>>)
    requires forall k :: 0 <= k < |groups| ==> |groups[k]| == 3
    ensures Triples(Concat(groups)) == groups
  {
    if groups != [] {
      var rest := Concat(groups[1..]);
      assert (groups[0] + rest)[..3] == groups[0];
      assert (groups[0] + rest)[3..] == rest;
      TriplesOfConcat(groups[1..]);
    }
  }

  /** Parsing the channel texts gives the channels back. */
  lemma {:induction false} ParsedChannelTokens(pixels: seq<seq<Num>>)
    ensures Parsed(ChannelTokens(pixels)) == Concat(pixels)
  {
    if pixels != [] {
      ParsedAppend(Channels(pixels[0]), ChannelTokens(pixels[1..]));
      ParsedChannelTokens(pixels[1..]);
    }
  }

  /** Decoding what writeToFile wrote gives the image back, for every image
      the decoder can produce: integer width and height, width * height
      pixels of three channels each (channels and maxColor may be NaN). */
  lemma RoundTrip(image: PPM)
    requires WellFormed(image)
    ensures Decode(image.FileContent()) == Ok(image)
  {
    EncodeTokens(image);
    DecodeWrittenTokens(image);
  }

  /** The tokens writeToFile writes decode to the image. */
  lemma DecodeWrittenTokens(image: PPM)
    requires WellFormed(image)
    ensures DecodeTokens(["P3", ToString(image.width), ToString(image.height), ToString(image.maxColor)]
      + ChannelTokens(image.pixels)) == Ok(image)
  {
    var lines := ["P3", ToString(image.width), ToString(image.height), ToString(image.maxColor)]
      + ChannelTokens(image.pixels);
    assert AfterShifts(lines, 4) == ChannelTokens(image.pixels);
    assert Triples(Parsed(ChannelTokens(image.pixels))) == image.pixels by {
      ParsedChannelTokens(image.pixels);
      TriplesOfConcat(image.pixels);
    }
    ParseIntToString(image.width);
    ParseIntToString(image.height);
    ParseIntToString(image.maxColor);
  }

  /** The program parses its input and writes the image straight back out:
      whenever the input is accepted, the output decodes to the same image. */
  lemma RewriteDecodesToSameImage(data: string)
    requires Decode(data).Ok?
    ensures Decode(Decode(data).value.FileContent()) == Decode(data)
  {
    RoundTrip(Decode(data).value);
  }

  /** The images the decoder can return are exactly the well-formed ones:
      every accepted input gives one, and every one is the decoding of
      some text (the text writeToFile writes for it). */
  lemma WellFormedExactlyDecodable(image: PPM)
    ensures WellFormed(image) <==> exists data :: Decode(data) == Ok(image)
  {
    if WellFormed(image) {
      RoundTrip(image);
    }
  }
}
