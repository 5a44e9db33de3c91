# P3 image codec and chess square distance, in Dafny

This project models two small pieces of the CS340 repository.

- **The image editor's P3 codec** (`image-editor/ImageEditor.ts`). It covers:
  - the `PPM` record;
  - the text its `writeToFile` method produces;
  - `parsePPM`, which reads that text back.

  `parsePPM` splits the text on runs of whitespace and drops the empty pieces. It checks that the first token is `P3`. It shifts width, height and maxColor off the token array with `parseInt`, then turns the remaining tokens into `[R, G, B]` pixels three at a time, until fewer than three are left. Finally it requires the number of pixels to equal `width * height`.
- **`Position.distanceFrom`** from the chess sketch (`test/src/index.ts`). It gives the absolute rank difference and the absolute difference of the file letters' character codes.

The files:

- `js_text.dfy` (module `JsText`) models the parts of the JavaScript runtime the codec depends on:
  - the `\s` class;
  - `split(/\s+/)` followed by the empty-string filter;
  - `Array.prototype.join`.

  It proves how tokenization behaves with concatenation, joins and arbitrary whitespace layouts.
- `js_number.dfy` (module `JsNumber`) models JavaScript numbers as they occur here: an integer or `NaN`. It also models:
  - `parseInt` without a radix, as section 19.2.5 of ECMA-262 defines it;
  - the conversion of numbers to text that template literals and `join` perform.

  It proves that `parseInt` reads back what that conversion writes.
- `image_editor.dfy` (module `ImageEditor`) holds:
  - the `PPM` record and the text `writeToFile` writes (`PPM.FileContent`);
  - the decoder as a specification function `Decode`;
  - `parsePPM` itself as the method `ParsePPM`, with its pixel loop in the method `ReadPixels`. A token cursor stands for the shifts. Both methods are proved equal to what `Decode` specifies.

  Both errors `parsePPM` throws are values of `PpmError`.
- `ppm_properties.dfy` (module `PpmProperties`) proves how the decoder reads and rejects input. It also proves the round trip from `writeToFile` back to `parsePPM`.
- `chess.dfy` (module `Chess`) models board squares and `distanceFrom`.

The program does less than its usage message (`ImageEditor.ts:6`) and its filter check (`ImageEditor.ts:14-16`) announce, and checks less of its input than the P3 format asks:

- The code applies no filter. It checks the filter name (`ImageEditor.ts:14`), then parses the input and writes it back out (`ImageEditor.ts:72-74`).
- The code never checks maxColor. A missing or unparseable maxColor gives `NaN` and is accepted (`MaxColorNeverChecked`, `MissingMaxColorAccepted`).

## Model

| member | source | states |
|---|---|---|
| JsText.IsWhitespace | image-editor/ImageEditor.ts:47 | `\s`: the WhiteSpace and LineTerminator characters of ECMA-262 |
| JsText.Split | image-editor/ImageEditor.ts:47 | `split(/\s+/)`: at least one piece, and no piece contains whitespace |
| JsText.LeadingBlank | image-editor/ImageEditor.ts:47 | the leading whitespace run of a text: all whitespace, and the text is that run followed by the rest |
| JsText.SplitGaps | image-editor/ImageEditor.ts:47 | the separators `split(/\s+/)` cuts at: one fewer than the pieces, each a non-empty run of whitespace |
| JsText.SplitStep | image-editor/ImageEditor.ts:47 | one step of split: the first word, then the split of what follows the whitespace run after it |
| JsText.SplitInterleaves | image-editor/ImageEditor.ts:47 | the text is exactly its pieces with the separators between them. The first piece is non-empty when the text starts with a non-whitespace character, and every interior piece is non-empty. With `Split` and `SplitGaps`, this makes the pieces the maximal whitespace-free runs, unlike the empty interior pieces of `split(/\s/)` |
| JsText.NonEmpty | image-editor/ImageEditor.ts:47 | the empty-string filter: only non-empty pieces of the input are kept |
| JsText.NonEmptyAppend | image-editor/ImageEditor.ts:47 | the filter of a concatenation is the concatenation of the filters |
| JsText.NonEmptySingle | image-editor/ImageEditor.ts:47 | a single piece is kept exactly when it is non-empty; with `NonEmptyAppend` this is the filter, in order, in both directions |
| JsText.Tokenize | image-editor/ImageEditor.ts:47 | every token is a non-empty run of non-whitespace characters |
| JsText.TokenizeEmpty | image-editor/ImageEditor.ts:47 | the empty text has no tokens |
| JsText.TokenizeSkip | image-editor/ImageEditor.ts:47 | leading whitespace does not change the tokens |
| JsText.DropWhitespaceIsSuffix | image-editor/ImageEditor.ts:47 | skipping leading whitespace leaves a suffix of the text |
| JsText.TokenizeWord | image-editor/ImageEditor.ts:47 | text that starts with a non-whitespace character: the first token is its first word, then the tokens of the rest |
| JsText.TokenizeConcat | image-editor/ImageEditor.ts:47 | at a whitespace boundary, the tokens of a concatenation are the tokens of the parts, in order |
| JsText.TokenizeToken | image-editor/ImageEditor.ts:47 | a token tokenizes to itself alone |
| JsText.TokenizeBlank | image-editor/ImageEditor.ts:47 | text made only of whitespace has no tokens |
| JsText.TokenizeLeadingSeparator | image-editor/ImageEditor.ts:47 | a whitespace character in front of a text adds no token |
| JsText.TokenizeThenSeparator | image-editor/ImageEditor.ts:47 | a whitespace character after a text adds no token |
| JsText.TokenizeThenToken | image-editor/ImageEditor.ts:47 | a token after text ending in whitespace is exactly one more token |
| JsText.Join | image-editor/ImageEditor.ts:38 | `join`: no parts give the empty string, otherwise the result starts with the first part |
| JsText.TokenizeJoin | image-editor/ImageEditor.ts:38 | joining parts with one whitespace character and tokenizing gives the tokens of each part, in order |
| JsText.TokenizeAllTokens | image-editor/ImageEditor.ts:38 | tokens tokenize back to themselves |
| JsText.TokenizeLayout | image-editor/ImageEditor.ts:47 | any whitespace layout of a token sequence tokenizes back to that sequence: leading and trailing whitespace count for nothing, and any non-empty run is one separator |
| JsNumber.DigitValue | image-editor/ImageEditor.ts:53-55 | digit values are at most 36, and below 10 exactly for '0'..'9' |
| JsNumber.NatToString | image-editor/ImageEditor.ts:37-38 | the decimal numeral is non-empty, all digits, and has no leading zero unless the number is 0 |
| JsNumber.ToString | image-editor/ImageEditor.ts:37-38 | the text of any number, `NaN` included, is a single token |
| JsNumber.DigitRunOfDigits | image-editor/ImageEditor.ts:53-55 | parseInt reads a run of decimal digits to its end |
| JsNumber.DigitsValueOfNatToString | image-editor/ImageEditor.ts:37-38 | reading the decimal numeral of m gives m |
| JsNumber.ParseInt | image-editor/ImageEditor.ts:53-61 | `parseInt` without a radix: one sign, a 0x/0X prefix for radix 16, then the longest digit run, or NaN when there is none; its properties are the `ParseInt…` lemmas below |
| JsNumber.ParseIntOfDigitStart | image-editor/ImageEditor.ts:53-61 | the empty text is NaN, and text starting with a digit 1-9 is a non-negative integer whatever follows |
| JsNumber.ParseIntOfDigits | image-editor/ImageEditor.ts:53-55 | parseInt reads any non-empty run of decimal digits, leading zeros included, as its radix-10 value |
| JsNumber.ParseIntUndefined | image-editor/ImageEditor.ts:53-55 | parseInt(undefined) reads the text "undefined" and gives NaN |
| JsNumber.ParseIntToStringEach | image-editor/ImageEditor.ts:59-61 | parseInt of the text of every number in a sequence gives that number back |
| JsNumber.ParseIntLeadingZeros | image-editor/ImageEditor.ts:53-55 | a leading zero is no octal prefix: "007" is 7 and "010" is 10 |
| JsNumber.ParseIntToString | image-editor/ImageEditor.ts:53-61 | parseInt of the text of any number, negative numbers and NaN included, gives that number back |
| JsNumber.ParseIntNaN | image-editor/ImageEditor.ts:53-61 | parseInt of the text "NaN" is NaN |
| JsNumber.ParseIntInteger | image-editor/ImageEditor.ts:53-61 | parseInt of the text of an integer, with its sign, is that integer |
| JsNumber.ParseSignedNumeral | image-editor/ImageEditor.ts:53-61 | a '-' before a numeral negates the number read |
| ImageEditor.PPM.FileContent | image-editor/ImageEditor.ts:36-40 | the written text starts with "P3" and a newline, and ends with a newline |
| ImageEditor.PixelLine | image-editor/ImageEditor.ts:38 | `pixel.join(' ')`: the tokens of the line are the texts of the pixel's channels, in order |
| ImageEditor.Channels | image-editor/ImageEditor.ts:38 | one text per channel, in order, and parsing the texts with parseInt gives the pixel back |
| ImageEditor.PixelLines | image-editor/ImageEditor.ts:38 | `pixels.map(pixel => pixel.join(' '))`: one line per pixel, in pixel order. `PpmProperties.TokenizePixelLines` proves the lines hold every channel text in order |
| ImageEditor.Shift | image-editor/ImageEditor.ts:49 | `shift` on the array: the first element is removed, and an empty array stays empty |
| ImageEditor.AfterShifts | image-editor/ImageEditor.ts:49-55 | i repeated shifts leave the tokens from index i on, or nothing once the array is exhausted |
| ImageEditor.ParsedAt | image-editor/ImageEditor.ts:53-55 | `parseInt(lines.shift()!)` after i shifts is the token at index i parsed. Past the end, shift yields undefined, parseInt reads the text "undefined", and the value is NaN |
| ImageEditor.ParsedAfterShifts | image-editor/ImageEditor.ts:53-61 | parsing what is left after i shifts parses the tokens from index i on |
| ImageEditor.Parsed | image-editor/ImageEditor.ts:59-61 | each token parsed with parseInt, in order. `PpmProperties.ParsedAppend` shows it works part by part, and `Channels` and `PpmProperties.ParsedChannelTokens` show it inverts the writer |
| ImageEditor.Triples | image-editor/ImageEditor.ts:57-63 | the pixel loop yields len/3 groups, and group k holds values 3k, 3k+1 and 3k+2 |
| ImageEditor.WellFormed | image-editor/ImageEditor.ts:53-67 | what an accepted image satisfies: integer width and height, and width*height pixels of three channels each |
| ImageEditor.Decode | image-editor/ImageEditor.ts:45-70 | an accepted image has integer width and height and exactly width*height pixels of three channels each |
| ImageEditor.DecodeTokens | image-editor/ImageEditor.ts:49-69 | the decoding of the token array: an accepted image is well formed |
| ImageEditor.TriplesCons | image-editor/ImageEditor.ts:58-62 | one loop turn: the pixel at the cursor, then the pixels after it |
| ImageEditor.ParsePPM | image-editor/ImageEditor.ts:45-70 | the shifting, cursor-driven decoder returns exactly what `Decode` specifies, errors included |
| ImageEditor.ReadPixels | image-editor/ImageEditor.ts:57-63 | the pixel loop pushes exactly the complete triples of the parsed remaining tokens, in order |
| PpmProperties.DecodeRejectsWrongMagic | image-editor/ImageEditor.ts:47-52 | the "P3 files only" error occurs exactly when there is no first token or it is not "P3" |
| PpmProperties.DecodeAcceptsExactly | image-editor/ImageEditor.ts:53-67 | once the magic token is "P3", the input is accepted exactly when width and height are integers and the number of complete triples is their product |
| PpmProperties.MissingDimensionRejected | image-editor/ImageEditor.ts:53-67 | a missing or non-numeric width or height always gives the pixel-count error |
| PpmProperties.DecodeReadsTokensInOrder | image-editor/ImageEditor.ts:53-62 | width, height and maxColor come from tokens 1-3, and channel c of pixel k from token 4+3k+c |
| PpmProperties.TriplesIgnoreTail | image-editor/ImageEditor.ts:58 | fewer than three values after whole triples form no pixel |
| PpmProperties.ParsedAppend | image-editor/ImageEditor.ts:59-61 | parsing a concatenation parses each part |
| PpmProperties.TokenizeAppendTokens | image-editor/ImageEditor.ts:47 | appending a space and space-joined tokens appends exactly those tokens |
| PpmProperties.TrailingTokensIgnored | image-editor/ImageEditor.ts:58-67 | one or two tokens after the last complete triple change neither acceptance nor the image |
| PpmProperties.DecodeTokensIgnoreTail | image-editor/ImageEditor.ts:58-67 | on the token array: one or two tokens after whole triples change nothing |
| PpmProperties.MaxColorNeverChecked | image-editor/ImageEditor.ts:55-69 | replacing the maxColor token changes only the decoded maxColor; it never decides acceptance |
| PpmProperties.MissingMaxColorAccepted | image-editor/ImageEditor.ts:55-69 | with no maxColor token an image of zero pixels is accepted with maxColor NaN |
| PpmProperties.DecodeTokensReplaceMaxColor | image-editor/ImageEditor.ts:55-69 | on the token array: replacing token 3 changes only the decoded maxColor |
| PpmProperties.RespacingPreservesDecode | image-editor/ImageEditor.ts:47 | re-laying out the whitespace of any input does not change what it decodes to |
| PpmProperties.TokenizePixelLines | image-editor/ImageEditor.ts:38 | the pixel lines hold the channel texts of all pixels, in order |
| PpmProperties.EncodeTokens | image-editor/ImageEditor.ts:36-40 | the written text's tokens are "P3", width, height, maxColor, then every channel of every pixel in order |
| PpmProperties.HeaderTokens | image-editor/ImageEditor.ts:37 | the header ends in a newline and its tokens are "P3", width, height and maxColor |
| PpmProperties.SizeLineTokens | image-editor/ImageEditor.ts:37 | the header up to the size line's newline holds "P3", width and height |
| PpmProperties.WidthTokens | image-editor/ImageEditor.ts:37 | the header up to the space after the width holds "P3" and width |
| PpmProperties.TokenizeField | image-editor/ImageEditor.ts:37 | a token between whitespace adds exactly that token |
| PpmProperties.TriplesOfConcat | image-editor/ImageEditor.ts:57-63 | grouping the concatenation of three-channel pixels gives those pixels back |
| PpmProperties.ParsedChannelTokens | image-editor/ImageEditor.ts:59-61 | parsing the written channel texts gives the channels back |
| PpmProperties.DecodeWrittenTokens | image-editor/ImageEditor.ts:37-69 | the tokens writeToFile writes decode to the image they came from |
| PpmProperties.RoundTrip | image-editor/ImageEditor.ts:36-70 | for every image the decoder can produce, decoding what writeToFile writes gives that image back |
| PpmProperties.RewriteDecodesToSameImage | image-editor/ImageEditor.ts:72-74 | when the input is accepted, the file the program writes decodes to the same image |
| PpmProperties.WellFormedExactlyDecodable | image-editor/ImageEditor.ts:45-70 | the images `parsePPM` can return are exactly the well-formed ones (integer width and height, width*height pixels of three channels) |
| Chess.Position.DistanceFrom | test/src/index.ts:9-11 | both components lie in 0..7, the rank component is the absolute rank difference, and each component is 0 exactly when the squares share that coordinate |
| Chess.Abs | test/src/index.ts:10 | `Math.abs`: the result is x or -x, and never negative |
| Chess.IndexOf | test/src/index.ts:2 | the first position of a character in a text, or its length |
| Chess.ColumnIsLetterOffset | test/src/index.ts:2 | the files A..H have consecutive character codes: a file's board column is its code minus that of 'A' |
| Chess.DistanceSymmetric | test/src/index.ts:10 | the distance from a to b equals the distance from b to a |
| Chess.ZeroDistanceIsSameSquare | test/src/index.ts:10 | the distance is {rank: 0, file: 0} exactly when the two squares are the same |
| Chess.FileDistanceIsColumnDifference | test/src/index.ts:2-10 | the file component is the absolute difference of the board columns |

## Left out

- File and process I/O is not modelled: `fs.readFileSync`, `fs.writeFileSync`, `process.argv`, `process.exit` and the console output (`ImageEditor.ts:1-17, 41, 46, 72-78`). The decoder takes the text that would have been read. The encoder yields the text that would have been written.
- The filter-name check at `ImageEditor.ts:14` is CLI glue and is left out. No filter is ever applied, so there is no filter to model.
- `displayInfo` only prints to the console.
- `image-editor/dist/ImageEditor.js` is not part of this model. It is the compiled form of the same TypeScript.
- `PPM` is modelled as an immutable value. Its fields are assigned only in its constructor.
- `Position` is modelled the same way, since its fields are private and never reassigned.
- JavaScript numbers are modelled only as integers or NaN. On text, parseInt yields integers, -0, Infinity or NaN, and printing adds exponent forms. Left out:
  - double-precision rounding of very long numerals;
  - negative zero (`parseInt("-0")` is -0 and prints as "0");
  - exponent notation when printing numbers of 10^21 and more;
  - Infinity.

  `parseInt` produces each of these from some numeral: `parseInt("-0")` is -0, a numeral whose value is at least 10^21 gives a number that prints in exponent form such as `1e+21`, a numeral of several hundred digits is Infinity (and Infinity times 0 is NaN), and some numerals above 2^53 are rounded. Negative zero is harmless here: it prints as "0" and compares equal to 0. The others make the program differ from the model.
- PpmProperties.DecodeAcceptsExactly: holds for the program only when the width and height numerals have magnitude at most 2^53. The model reads every numeral exactly, with unbounded integers.
- PpmProperties.RoundTrip: holds for the program only when width, height, maxColor and every channel have magnitude at most 2^53. Larger values are rounded, or printed with an exponent that parseInt reads back as a different number.
- PpmProperties.RewriteDecodesToSameImage: holds for the program only when every numeral in the input has magnitude at most 2^53, for the same reason as `RoundTrip`.
- JsText.Split: its own contract states only the shape of the pieces. `SplitInterleaves` states the rest: the text is exactly its pieces with non-empty whitespace runs between them, and no interior piece is empty. Every tokenization would carry those facts if `Split` stated them, so they are kept in that lemma.
- JsText.NonEmpty: its own contract states one direction of the filter. The filter itself is stated by `NonEmptyAppend` and `NonEmptySingle`.
- JsNumber.ParseInt: does not skip leading whitespace as ECMA-262 prescribes, because the codec only passes it whitespace-free tokens.
- ImageEditor.PPM.FileContent: its own contract states only the frame of the text. The full token content is stated by `EncodeTokens` and the round trip by `RoundTrip`.
- Text is modelled as a sequence of Unicode characters, whereas JavaScript strings are UTF-16 code units. The difference cannot change the tokens, because no surrogate is whitespace. Decoding and encoding UTF-8 at the file boundary is left out.
