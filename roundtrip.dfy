/** The two halves of the program against each other: decoding what `png_to_rust_riff`
    writes for an image gives back its dimensions and every pixel in its own cell. */
module RoundTrip {
  import opened Common
  import opened Seqs
  import opened Hex
  import opened Encoder
  import opened Decoder
  import opened FileWrite

  /** The surface an image should come back as: the cell in column `x` of row `y` painted
      with the pixel in column `x` of row `y`. */
  function Painting(img: Image): (g: seq<seq<Cell>>)
    requires img.Valid()
    ensures |g| == img.height
    ensures forall y :: 0 <= y < img.height ==> |g[y]| == img.width
    ensures forall y, x :: 0 <= y < img.height && 0 <= x < img.width ==> g[y][x] == Painted(img.rows[y][x])
  {
    seq(img.height, y requires 0 <= y < img.height =>
      seq(img.width, x requires 0 <= x < img.width => Painted(img.rows[y][x])))
  }

  /** Every encoded token parses, and back to the colour it was made from. */
  lemma TokensParse(ps: seq<Rgb>)
    ensures ParseTokens(Encoder.Tokens(ps)) == Some(ps)
  {
    var ts := Encoder.Tokens(ps);
    assert forall i :: 0 <= i < |ts| ==> ParseCssHex("#" + ts[i]) == Some(ps[i]);
    var r := ParseTokens(ts);
    assert r.value == ps;
  }

  /** The decoder's tokens, read from the encoder's file, are the pixels' tokens. */
  lemma EncodedTokens(img: Image)
    requires img.Valid()
    ensures |Container(img)| >= 8 && IsAsciiBytes(Container(img)[8..])
    ensures PayloadTokens(Container(img)) == Encoder.Tokens(Pixels(img))
  {
    PayloadStripped(img);
    var ts := Encoder.Tokens(Pixels(img));
    assert TokenText(Pixels(img)) == Flatten(ts);
    ChunksOfFlatten(ts, TokenLength);
  }

  /** Painting the pixels in order on a `w` by `h` surface puts each pixel in its own cell. */
  lemma RasterOfPixels(img: Image)
    requires img.Valid()
    ensures Raster(Pixels(img), img.width, img.height) == Painting(img)
  {
    var g := Raster(Pixels(img), img.width, img.height);
    forall y | 0 <= y < img.height ensures g[y] == Painting(img)[y] {
      forall x | 0 <= x < img.width ensures g[y][x] == Painting(img)[y][x] {
        PixelAt(img, x, y);
      }
    }
  }

  /** The round trip: every image whose sides are positive and fit the surface decodes from
      its file to its own dimensions and pixels. */
  lemma DecodeEncode(img: Image)
    requires img.Valid() && 0 < img.width < MaxSide && 0 < img.height < MaxSide
    ensures Decodable(Container(img))
    ensures Decode(Container(img)) == Ok(Decoded(img.width, img.height, Painting(img)))
  {
    EncodedTokens(img);
    TokensParse(Pixels(img));
    RasterOfPixels(img);
  }

  /** The text of a one-column, three-row image: three tokens with a newline between each. */
  lemma TallText(a: Rgb, b: Rgb, c: Rgb)
    ensures Image(1, 3, [[a], [b], [c]]).Valid()
    ensures Payload(Image(1, 3, [[a], [b], [c]])) == Token(a) + "\n" + Token(b) + "\n" + Token(c)
  {
    var tall := Image(1, 3, [[a], [b], [c]]);
    PayloadLines(tall);
    TokenTextSingle(a);
    TokenTextSingle(b);
    TokenTextSingle(c);
    var ls := RowTexts(tall.rows);
    assert ls[0] == TokenText([a]);
    assert ls[1] == TokenText([b]);
    assert ls[2] == TokenText([c]);
    JoinLinesThree(ls);
  }

  /** What is left of a three-row text of 6-character rows after its first 12 characters. */
  lemma TailOfThree(x: string, y: string, z: string)
    requires |x| == 6 && |y| == 6 && |z| == 6
    ensures (x + "\n" + y + "\n" + z)[12..] == [y[5]] + "\n" + z
  {
  }

  /** Twelve digits, then one more digit, a newline and six digits: 19 characters without the
      newline. */
  lemma StaleCount(p: string, y: string, z: string)
    requires |p| == 12 && |y| == 6 && |z| == 6
    requires IsHexText(p) && IsHexText(y) && IsHexText(z)
    ensures |RemoveAll(p + ([y[5]] + "\n" + z), '\n')| == 19
  {
    HexTextNoNewline(p);
    HexTextNoNewline(z);
    CountAbsent(p, '\n');
    CountAbsent(z, '\n');
    var tail := [y[5]] + "\n" + z;
    CountAppend(p, tail, '\n');
    CountAppend([y[5]] + "\n", z, '\n');
    CountAppend([y[5]], "\n", '\n');
    assert Count(p + tail, '\n') == 1;
  }

  /** Nineteen characters cut every six: four pieces, the last a single character. */
  lemma NineteenChunks(s: string)
    requires |s| == 19
    ensures |Chunks(s, TokenLength)| == 4 && |Chunks(s, TokenLength)[3]| == 1
  {
    ChunksCount(s, TokenLength);
  }

  /** As written (no truncation): writing a 2x1 image's file over the file of a 1x3 image at
      the same path leaves 8 bytes of the old text behind the new one. The stale `b\ncccccc`
      tail turns the 12 new hex digits into 19, the last token is a single digit, and decoding
      the file fails, whatever the colours, although the 2x1 file alone decodes. */
  lemma StaleTailBreaksDecode(a: Rgb, b: Rgb, c: Rgb, d: Rgb, e: Rgb)
    ensures Image(2, 1, [[d, e]]).Valid() && Image(1, 3, [[a], [b], [c]]).Valid()
    ensures Decode(Container(Image(2, 1, [[d, e]]))).Ok?
    ensures var f := OverwriteFromStart(Container(Image(1, 3, [[a], [b], [c]])), Container(Image(2, 1, [[d, e]])));
      Decodable(f) && Decode(f).Err?
  {
    var tall, wide := Image(1, 3, [[a], [b], [c]]), Image(2, 1, [[d, e]]);
    TallText(a, b, c);
    assert wide.Valid();
    DecodeEncode(wide);
    var previous, bytes := Container(tall), Container(wide);
    var p3, p2 := Payload(tall), Payload(wide);
    assert p2 == TokenText([d, e]);
    TailOfThree(Token(a), Token(b), Token(c));
    var tail := p3[12..];
    assert |bytes| == 20 && |previous| == 28;

    OverwriteText(previous, bytes);
    var f := OverwriteFromStart(previous, bytes);
    var text := AsciiText(f[8..]);
    assert text == p2 + tail;
    assert Decodable(f);

    StaleCount(p2, Token(b), Token(c));
    NineteenChunks(RemoveAll(text, '\n'));
    var ts := PayloadTokens(f);
    assert |ts| == 4 && |ts[3]| == 1;
    assert ParseCssHex("#" + ts[3]).None?;
  }

  /** As intended (`truncate(true)`): whatever the file held before, it decodes to the image
      just encoded. */
  lemma DecodeAfterTruncatingWrite(previous: seq<byte>, img: Image)
    requires img.Valid() && 0 < img.width < MaxSide && 0 < img.height < MaxSide
    ensures Decodable(TruncateAndWrite(previous, Container(img)))
    ensures Decode(TruncateAndWrite(previous, Container(img))) == Ok(Decoded(img.width, img.height, Painting(img)))
  {
    assert TruncateAndWrite(previous, Container(img)) == Container(img);
    DecodeEncode(img);
  }
}
