/** The P3 (plain-text) PPM codec of the image editor: the PPM record, the
    text its writeToFile method produces, and parsePPM, which reads that
    text back. The file system is left out: the decoder takes the text that
    would have been read and the encoder gives the text that would have
    been written. */
module ImageEditor {
  import opened JsText
  import opened JsNumber

  /** The two errors parsePPM throws. */
  datatype PpmError =
    | NotP3               // "Invalid PPM file format. Please use P3 files only."
    | PixelCountMismatch  // "Pixel data does not match the specified width and height."

  datatype Result<T> = Ok(value: T) | Err(error: PpmError)

  /** The PPM record: its fields are set by the constructor and never
      changed afterwards. Every field is a JavaScript number, so each may be
      NaN; each pixel is an array of numbers, [R, G, B] when it comes from
      the decoder. */
  datatype PPM = PPM(width: Num, height: Num, maxColor: Num, pixels: seq<seq<Num>>)
  {
    /** The text writeToFile writes: the header "P3", the width and height
        on one line and maxColor on the next, then one line per pixel with
        its channels separated by single spaces, then a final newline. */
    function FileContent(): (content: string)
      ensures |content| >= 4 && content[..3] == "P3\n" && content[|content| - 1] == '\n'
    {
      var header := "P3\n" + ToString(width) + " " + ToString(height) + "\n" + ToString(maxColor) + "\n";
      var pixelData := Join(PixelLines(pixels), "\n");
      header + pixelData + "\n"
    }
  }

  /** `pixel.join(' ')`: read back as tokens, the line holds the texts of
      the pixel's channels and nothing else. */
  function PixelLine(pixel: seq<Num>): (line: string)
    ensures Tokenize(line) == Channels(pixel)
  {
    TokenizeJoin(Channels(pixel), ' ');
    TokenizeAllTokens(Channels(pixel));
    Join(Channels(pixel), " ")
  }

  /** The text of each channel of a pixel: parsing the texts gives the
      pixel back. */
  function Channels(pixel: seq<Num>): (texts: seq<string>)
    ensures |texts| == |pixel|
    ensures forall c :: 0 <= c < |pixel| ==> texts[c] == ToString(pixel[c])
    ensures Parsed(texts) == pixel
  {
    ParseIntToStringEach(pixel);
    seq(|pixel|, c requires 0 <= c < |pixel| => ToString(pixel[c]))
  }

  /** `pixels.map(pixel => pixel.join(' '))`. */
  function PixelLines(pixels: seq<seq<Num>>): (lines: seq<string>)
    ensures |lines| == |pixels|
    ensures forall k :: 0 <= k < |pixels| ==> lines[k] == PixelLine(pixels[k])
  {
    seq(|pixels|, k requires 0 <= k < |pixels| => PixelLine(pixels[k]))
  }

  /** An image as the decoder delivers it: integer width and height,
      exactly width * height pixels, each with three channels. */
  predicate WellFormed(image: PPM) {
    image.width.Int? && image.height.Int?
    && |image.pixels| == image.width.value * image.height.value
    && forall k :: 0 <= k < |image.pixels| ==> |image.pixels[k]| == 3
  }

  /** The array `a.shift()` leaves behind: without its first element, and
      unchanged when empty. */
  function Shift(a: seq<string>): seq<string> {
    if a == [] then [] else a[1..]
  }

  /** What is left of the array after i shifts: from index i on, or
      nothing once every element is gone. */
  function AfterShifts(lines: seq<string>, i: nat): (rest: seq<string>)
    ensures |rest| == if i < |lines| then |lines| - i else 0
    ensures forall j :: 0 <= j < |rest| ==> rest[j] == lines[i + j]
  {
    if i == 0 then lines
    else
      var before := AfterShifts(lines, i - 1);
      assert before != [] ==> Shift(before) == before[1..];
      Shift(before)
  }

  /** `parseInt(lines.shift()!)` after i earlier shifts: the element shift
      yields, parsed; once the array is exhausted shift yields undefined,
      which parseInt reads as the text "undefined". So the token at index
      i is parsed, and NaN comes past the end. */
  function ParsedAt(lines: seq<string>, i: nat): (x: Num)
    ensures i < |lines| ==> x == ParseInt(lines[i])
    ensures i >= |lines| ==> x == NaN
  {
    var rest := AfterShifts(lines, i);
    if rest != [] then ParseInt(rest[0])
    else ParseIntUndefined(); ParseInt("undefined")
  }

  /** Parsing what is left after i shifts parses the tokens from index i
      on. */
  lemma ParsedAfterShifts(lines: seq<string>, i: nat)
    ensures Parsed(AfterShifts(lines, i)) == Parsed(lines)[if i < |lines| then i else |lines|..]
  {
  }

  /** Each token parsed with parseInt. */
  function Parsed(ts: seq<string>): (nums: seq<Num>)
    ensures |nums| == |ts|
    ensures forall i :: 0 <= i < |ts| ==> nums[i] == ParseInt(ts[i])
  {
    seq(|ts|, i requires 0 <= i < |ts| => ParseInt(ts[i]))
  }

  /** The pixel loop: consecutive values, three at a time, as R, G and B,
      until fewer than three are left. */
  function Triples<T>(xs: seq<T>): (groups: seq<seq<T>>)
    ensures |groups| == |xs| / 3
    ensures forall k :: 0 <= k < |groups| ==> groups[k] == xs[3 * k..3 * k + 3]
  {
    if |xs| < 3 then []
    else
      var rest := Triples(xs[3..]);
      TriplesShift(xs, rest);
      [xs[..3]] + rest
  }

  /** The groups of xs[3..] are those of xs from the second one on. */
  lemma TriplesShift<T>(xs: seq<T>, rest: seq<seq<T>>)
    requires |xs| >= 3
    requires |rest| == |xs[3..]| / 3
    requires forall k :: 0 <= k < |rest| ==> rest[k] == xs[3..][3 * k..3 * k + 3]
    ensures forall k :: 0 <= k < |rest| + 1 ==> ([xs[..3]] + rest)[k] == xs[3 * k..3 * k + 3]
  {
  }

  /** Groups from index i on: the group at i, then the groups after it. */
  lemma TriplesCons<T>(xs: seq<T>, i: nat)
    requires i + 3 <= |xs|
    ensures Triples(xs[i..]) == [[xs[i], xs[i + 1], xs[i + 2]]] + Triples(xs[i + 3..])
  {
    assert xs[i..][..3] == [xs[i], xs[i + 1], xs[i + 2]];
    assert xs[i..][3..] == xs[i + 3..];
  }

  /** parsePPM on the text of a file: the specification the method
      ParsePPM is proved against. */
  function Decode(data: string): (r: Result<PPM>)
    ensures r.Ok? ==> WellFormed(r.value)
  {
    DecodeTokens(Tokenize(data))
  }

  /** parsePPM once the text is split into tokens. */
  function DecodeTokens(lines: seq<string>): (r: Result<PPM>)
    ensures r.Ok? ==> WellFormed(r.value)
  {
    if lines == [] || lines[0] != "P3" then Err(NotP3)
    else
      var width, height, maxColor := ParsedAt(lines, 1), ParsedAt(lines, 2), ParsedAt(lines, 3);
      var pixels := Triples(Parsed(AfterShifts(lines, 4)));
      // In JavaScript, NaN * h and w * NaN are NaN, and n != NaN always holds.
      if width.NaN? || height.NaN? || |pixels| != width.value * height.value then Err(PixelCountMismatch)
      else Ok(PPM(width, height, maxColor, pixels))
  }

  /** parsePPM: tokenize, check the magic token, shift width, height and
      maxColor off the token array, then read the pixels and check the
      pixel count. */
  method ParsePPM(data: string) returns (r: Result<PPM>)
    ensures r == Decode(data)
  {
    var lines := Tokenize(data);
    var i := 0;  // the number of tokens shifted off so far
    if i == |lines| || lines[i] != "P3" {
      return Err(NotP3);
    }
    i := i + 1;
    var width := ParsedAt(lines, i);
    i := if i < |lines| then i + 1 else i;
    var height := ParsedAt(lines, i);
    i := if i < |lines| then i + 1 else i;
    var maxColor := ParsedAt(lines, i);
    i := if i < |lines| then i + 1 else i;
    assert AfterShifts(lines, i) == AfterShifts(lines, 4);

    var pixels := ReadPixels(lines, i);
    if width.NaN? || height.NaN? || |pixels| != width.value * height.value {
      return Err(PixelCountMismatch);
    }
    return Ok(PPM(width, height, maxColor, pixels));
  }

  /** The pixel loop of parsePPM: while at least three tokens are left,
      shift three of them, parse each and push them as one pixel. The
      cursor i counts the tokens shifted off so far. */
  method ReadPixels(lines: seq<string>, start: nat) returns (pixels: seq<seq<Num>>)
    requires start <= |lines|
    ensures pixels == Triples(Parsed(AfterShifts(lines, start)))
  {
    ghost var nums := Parsed(lines);
    ParsedAfterShifts(lines, start);
    var i := start;
    pixels := [];
    while |lines| - i >= 3
      invariant start <= i <= |lines|
      invariant pixels + Triples(nums[i..]) == Triples(nums[start..])
      decreases |lines| - i
    {
      var red := ParseInt(lines[i]);
      var green := ParseInt(lines[i + 1]);
      var blue := ParseInt(lines[i + 2]);
      TriplesCons(nums, i);
      AppendAssociative(pixels, [[red, green, blue]], Triples(nums[i + 3..]));
      pixels := pixels + [[red, green, blue]];
      i := i + 3;
    }
    assert Triples(nums[i..]) == [];
  }
}
