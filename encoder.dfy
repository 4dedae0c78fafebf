/** `png_to_rust_riff`: walks an image's pixels in row-major order, spells each pixel as six
    hex digits, separates rows with a newline, and emits the header followed by that text.
    Opening the PNG and writing the file are I/O: the pixel grid is the input and the file's
    bytes are the output. */
module Encoder {
  import opened Common
  import opened Seqs
  import opened Hex
  import opened Header
  import opened RowMajor

  /** A decoded image: `rows[y][x]` is the pixel at column `x` of row `y`. */
  datatype Image = Image(width: u32, height: u32, rows: seq<seq<Rgb>>)
  {
    /** The grid is `height` rows of `width` pixels each. */
    predicate Valid()
    {
      |rows| == height && forall y :: 0 <= y < |rows| ==> |rows[y]| == width
    }
  }

  /** The pixels in the order `img.pixels()` yields them: row 0 left to right, then row 1, ...;
      `w * h` of them. */
  function Pixels(img: Image): (ps: seq<Rgb>)
    requires img.Valid()
    ensures |ps| == img.width * img.height
  {
    FlattenLength(img.rows, img.width);
    Flatten(img.rows)
  }

  /** One pixel's text: its CSS hex string with the `#` removed. It is six lower-case hex
      digits that parse back to the pixel. */
  function Token(c: Rgb): (t: string)
    ensures |t| == 6
    ensures forall i :: 0 <= i < 6 ==> IsLowerHexDigit(t[i])
    ensures ParseCssHex("#" + t) == Some(c)
  {
    TokenOk(c);
    RemoveAll(ToCssHexString(c), '#')
  }

  lemma TokenOk(c: Rgb)
    ensures var t := RemoveAll(ToCssHexString(c), '#');
      |t| == 6 && (forall i :: 0 <= i < 6 ==> IsLowerHexDigit(t[i])) && ParseCssHex("#" + t) == Some(c)
  {
    var css := ToCssHexString(c);
    assert css == "#" + css[1..];
    RemoveAllAppend("#", css[1..], '#');
    assert RemoveAll("#", '#') == [];
    ParseOfCssHexString(c);
  }

  /** The token of each pixel of `ps`, in order. */
  function Tokens(ps: seq<Rgb>): (ts: seq<string>)
    ensures |ts| == |ps|
  {
    seq(|ps|, k requires 0 <= k < |ps| => Token(ps[k]))
  }

  /** Only lower-case hex digits. */
  predicate IsHexText(s: string)
  {
    forall i :: 0 <= i < |s| ==> IsLowerHexDigit(s[i])
  }

  /** The tokens of `ps` concatenated in order: six hex digits per pixel. */
  function TokenText(ps: seq<Rgb>): (t: string)
    ensures |t| == 6 * |ps|
    ensures IsHexText(t)
  {
    var ts := Tokens(ps);
    FlattenLength(ts, 6);
    FlattenAll(ts, IsLowerHexDigit);
    Flatten(ts)
  }

  lemma TokenTextAppend(a: seq<Rgb>, b: seq<Rgb>)
    ensures TokenText(a + b) == TokenText(a) + TokenText(b)
  {
    assert Tokens(a + b) == Tokens(a) + Tokens(b);
    FlattenAppend(Tokens(a), Tokens(b));
  }

  /** A single pixel's text is its token. */
  lemma TokenTextSingle(c: Rgb)
    ensures TokenText([c]) == Token(c)
  {
    FlattenSlice(Tokens([c]), 6, 0);
  }

  /** The `k`-th six-character slice of the text is the token of pixel `k`. */
  lemma TokenTextSlice(ps: seq<Rgb>, k: nat)
    requires k < |ps|
    ensures TokenText(ps)[6 * k .. 6 * k + 6] == Token(ps[k])
  {
    FlattenSlice(Tokens(ps), 6, k);
  }

  /** The text of each row. */
  function RowTexts(rows: seq<seq<Rgb>>): (ls: seq<string>)
    ensures |ls| == |rows|
  {
    seq(|rows|, y requires 0 <= y < |rows| => TokenText(rows[y]))
  }

  /** The rows' texts, joined with `\n` between consecutive rows and none after the last. */
  function JoinLines(ls: seq<string>): string
  {
    if |ls| == 0 then ""
    else if |ls| == 1 then ls[0]
    else JoinLines(ls[..|ls| - 1]) + "\n" + ls[|ls| - 1]
  }

  lemma JoinLinesSnoc(ls: seq<string>, l: string)
    requires |ls| > 0
    ensures JoinLines(ls + [l]) == JoinLines(ls) + "\n" + l
  {
    assert (ls + [l])[..|ls|] == ls;
  }

  lemma JoinLinesExtendLast(ls: seq<string>, t: string, u: string)
    ensures JoinLines(ls + [t + u]) == JoinLines(ls + [t]) + u
  {
    if |ls| > 0 {
      JoinLinesSnoc(ls, t + u);
      JoinLinesSnoc(ls, t);
    }
  }

  /** Only hex digits and newlines. */
  predicate IsPayloadText(s: string)
  {
    forall i :: 0 <= i < |s| ==> s[i] == '\n' || IsLowerHexDigit(s[i])
  }

  lemma {:induction false} JoinLinesAlphabet(ls: seq<string>)
    requires forall k :: 0 <= k < |ls| ==> IsPayloadText(ls[k])
    ensures IsPayloadText(JoinLines(ls))
  {
    if |ls| > 1 {
      JoinLinesAlphabet(ls[..|ls| - 1]);
    }
  }

  /** The text the encoder builds: nothing when rows are empty (`pixels()` yields nothing, so
      not even the separators of a zero-width image appear), otherwise the rows' texts joined
      by newlines. */
  function Payload(img: Image): (p: string)
    requires img.Valid()
    ensures IsPayloadText(p) && IsAscii(p)
  {
    if img.width == 0 then ""
    else
      JoinLinesAlphabet(RowTexts(img.rows));
      JoinLines(RowTexts(img.rows))
  }

  /** The bytes the encoder writes: the width's four bytes, the height's four bytes, then the
      UTF-8 bytes of the text. The header reads back as `(width, height)` and the text starts
      at offset 8. */
  function Container(img: Image): (c: seq<byte>)
    requires img.Valid()
    ensures |c| == 8 + |Payload(img)|
    ensures BytesToU32(c[0..4]) == img.width
    ensures BytesToU32(c[4..8]) == img.height
    ensures IsAsciiBytes(c[8..]) && AsciiText(c[8..]) == Payload(img)
  {
    var hdr := EncodeHeader(img.width, img.height);
    var c := hdr + AsciiBytes(Payload(img));
    assert c[0..4] == hdr[0..4];
    assert c[4..8] == hdr[4..8];
    assert c[8..] == AsciiBytes(Payload(img));
    AsciiRoundTrip(Payload(img));
    c
  }

  /** `path_str.replace(".png", ".rust-riff")`; a path without `.png` is kept as it is. */
  function RustRiffPath(path: string): (p: string)
    ensures !Occurs(path, ".png") ==> p == path
  {
    ReplaceAll(path, ".png", ".rust-riff")
  }

  /** Hex text has no newline in it. */
  lemma HexTextNoNewline(t: string)
    requires IsHexText(t)
    ensures '\n' !in t
  {
  }

  lemma RowTextsNoNewline(rows: seq<seq<Rgb>>)
    ensures forall k :: 0 <= k < |rows| ==> '\n' !in RowTexts(rows)[k]
  {
    forall k | 0 <= k < |rows| ensures '\n' !in RowTexts(rows)[k] {
      HexTextNoNewline(TokenText(rows[k]));
    }
  }

  /** Joining `m >= 1` newline-free lines adds exactly `m - 1` newlines. */
  lemma {:induction false} JoinLinesCount(ls: seq<string>)
    requires |ls| > 0
    requires forall k :: 0 <= k < |ls| ==> '\n' !in ls[k]
    ensures Count(JoinLines(ls), '\n') == |ls| - 1
  {
    var last := ls[|ls| - 1];
    CountAbsent(last, '\n');
    if |ls| > 1 {
      var init := ls[..|ls| - 1];
      JoinLinesCount(init);
      CountAppend(JoinLines(init) + "\n", last, '\n');
      CountAppend(JoinLines(init), "\n", '\n');
    }
  }

  /** Removing the newlines of joined newline-free lines gives their plain concatenation. */
  lemma {:induction false} JoinLinesStrip(ls: seq<string>)
    requires forall k :: 0 <= k < |ls| ==> '\n' !in ls[k]
    ensures RemoveAll(JoinLines(ls), '\n') == Flatten(ls)
  {
    if |ls| == 1 {
      assert Flatten(ls) == Flatten(ls[..0]) + ls[0];
    } else if |ls| > 1 {
      var init, last := ls[..|ls| - 1], ls[|ls| - 1];
      JoinLinesStrip(init);
      RemoveAllAppend(JoinLines(init) + "\n", last, '\n');
      RemoveAllAppend(JoinLines(init), "\n", '\n');
      assert RemoveAll("\n", '\n') == [];
      assert RemoveAll(JoinLines(init) + "\n", '\n') == Flatten(init);
    }
  }

  /** The rows' texts, concatenated, are the text of all pixels in row-major order. */
  lemma {:induction false} RowTextsFlatten(rows: seq<seq<Rgb>>)
    ensures Flatten(RowTexts(rows)) == TokenText(Flatten(rows))
  {
    if |rows| > 0 {
      var init := rows[..|rows| - 1];
      assert RowTexts(rows)[..|rows| - 1] == RowTexts(init);
      RowTextsFlatten(init);
      TokenTextAppend(Flatten(init), rows[|rows| - 1]);
    }
  }

  /** Joining splits at any line boundary. */
  lemma {:induction false} JoinLinesSplit(ls: seq<string>, y: nat)
    requires 0 < y < |ls|
    ensures JoinLines(ls) == JoinLines(ls[..y]) + "\n" + JoinLines(ls[y..])
  {
    var m := |ls|;
    var init, last := ls[..m - 1], ls[m - 1];
    if y == m - 1 {
      assert ls[y..] == [last];
      assert init == ls[..y];
    } else {
      JoinLinesSplit(init, y);
      assert init[..y] == ls[..y];
      assert ls[y..][..|ls[y..]| - 1] == init[y..];
      assert JoinLines(ls[y..]) == JoinLines(init[y..]) + "\n" + last;
      var a, b := JoinLines(ls[..y]), JoinLines(init[y..]);
      calc {
        JoinLines(ls);
        ((a + "\n") + b) + "\n" + last;
        { AppendAssoc(a + "\n", b, "\n"); }
        ((a + "\n") + (b + "\n")) + last;
        { AppendAssoc(a + "\n", b + "\n", last); }
        (a + "\n") + ((b + "\n") + last);
      }
    }
  }

  /** The first line is a prefix of the joined text. */
  lemma JoinLinesHead(ls: seq<string>)
    requires |ls| > 0
    ensures |ls[0]| <= |JoinLines(ls)| && JoinLines(ls)[..|ls[0]|] == ls[0]
  {
    if |ls| > 1 {
      JoinLinesSplit(ls, 1);
      assert ls[..1] == [ls[0]];
    }
  }

  lemma {:induction false} JoinLinesLength(ls: seq<string>, n: nat, stride: nat)
    requires |ls| > 0 && stride == n + 1
    requires forall k :: 0 <= k < |ls| ==> |ls[k]| == n
    ensures |JoinLines(ls)| == |ls| * stride - 1
  {
    if |ls| > 1 {
      JoinLinesLength(ls[..|ls| - 1], n, stride);
    }
  }

  /** `m` lines of `n` characters, each line but the last followed by a newline, so that
      line `y` starts at offset `y * stride` with `stride == n + 1`, right after a newline when
      `y > 0`, and the text ends right after the last line. */
  lemma JoinLinesLayout(ls: seq<string>, m: nat, n: nat, stride: nat, y: nat)
    requires |ls| == m && forall k :: 0 <= k < m ==> |ls[k]| == n
    requires stride == n + 1 && y < m
    ensures |JoinLines(ls)| == m * stride - 1
    ensures y * stride + n <= |JoinLines(ls)|
    ensures y > 0 ==> stride <= y * stride
    ensures JoinLines(ls)[y * stride .. y * stride + n] == ls[y]
    ensures y > 0 ==> JoinLines(ls)[y * stride - 1] == '\n'
  {
    JoinLinesLength(ls, n, stride);
    if y > 0 {
      MulLe(1, y, stride);
    }
    var whole := JoinLines(ls);
    if y == 0 {
      JoinLinesHead(ls);
      assert whole[0 .. n] == whole[..n];
    } else {
      JoinLinesSplit(ls, y);
      var a, b := JoinLines(ls[..y]), JoinLines(ls[y..]);
      JoinLinesLength(ls[..y], n, stride);
      JoinLinesHead(ls[y..]);
      assert |a| + 1 == y * stride;
      assert whole == (a + "\n") + b;
      assert whole[|a|] == '\n';
      assert whole[|a| + 1 .. |a| + 1 + n] == b[..n];
    }
  }

  /** Three lines joined: the first, a newline, the second, a newline, the third. */
  lemma JoinLinesThree(ls: seq<string>)
    requires |ls| == 3
    ensures JoinLines(ls) == ls[0] + "\n" + ls[1] + "\n" + ls[2]
  {
    var two := ls[..2];
    assert |two| == 2 && two[0] == ls[0] && two[1] == ls[1];
    assert two[..1] == [ls[0]];
    assert JoinLines(two) == ls[0] + "\n" + ls[1];
  }

  /** The joined text ends with the last line. */
  lemma JoinLinesLast(ls: seq<string>)
    requires |ls| > 0 && |ls[|ls| - 1]| > 0
    ensures |JoinLines(ls)| > 0
    ensures JoinLines(ls)[|JoinLines(ls)| - 1] == ls[|ls| - 1][|ls[|ls| - 1]| - 1]
  {
  }

  /** Newlines only separate rows: a `w` by `h` image with `w, h >= 1` has exactly `h - 1` of
      them and the text does not end with one; an image without pixels has no text at all. */
  lemma PayloadNewlines(img: Image)
    requires img.Valid()
    ensures Count(Payload(img), '\n') == if img.width == 0 || img.height == 0 then 0 else img.height - 1
    ensures |Payload(img)| > 0 <==> img.width > 0 && img.height > 0
    ensures |Payload(img)| > 0 ==> Payload(img)[|Payload(img)| - 1] != '\n'
  {
    if img.width > 0 && img.height > 0 {
      var ls := RowTexts(img.rows);
      assert Payload(img) == JoinLines(ls);
      RowTextsNoNewline(img.rows);
      JoinLinesCount(ls);
      JoinLinesLast(ls);
      HexTextNoNewline(ls[|ls| - 1]);
    }
  }

  /** Without an empty width the text is the rows' texts joined, `h` of them, `6 * w` each. */
  lemma PayloadLines(img: Image)
    requires img.Valid() && img.width > 0
    ensures Payload(img) == JoinLines(RowTexts(img.rows))
    ensures |RowTexts(img.rows)| == img.height
    ensures forall k :: 0 <= k < img.height ==> |RowTexts(img.rows)[k]| == 6 * img.width
  {
  }

  /** Each row takes `stride == 6w + 1` characters, its tokens and a newline, except the last
      row, which has no newline: row `y`'s pixels occupy characters `y * stride` to
      `y * stride + 6w`, preceded by a newline for every row but the first. */
  lemma PayloadRow(img: Image, y: nat, stride: nat)
    requires img.Valid() && img.width > 0 && y < img.height
    requires stride == 6 * img.width + 1
    ensures |Payload(img)| == img.height * stride - 1
    ensures y * stride + 6 * img.width <= |Payload(img)|
    ensures y > 0 ==> stride <= y * stride
    ensures Payload(img)[y * stride .. y * stride + 6 * img.width] == TokenText(img.rows[y])
    ensures y > 0 ==> Payload(img)[y * stride - 1] == '\n'
  {
    PayloadLines(img);
    JoinLinesLayout(RowTexts(img.rows), img.height, 6 * img.width, stride, y);
  }

  /** With its newlines removed the text is the pixels' tokens back to back: `6 * w * h`
      characters whose `k`-th six-character slice is the token of pixel `k`, the pixel in
      column `k % w` of row `k / w`. */
  lemma PayloadStripped(img: Image)
    requires img.Valid()
    ensures RemoveAll(Payload(img), '\n') == TokenText(Pixels(img))
    ensures |Pixels(img)| == img.width * img.height
    ensures |RemoveAll(Payload(img), '\n')| == 6 * (img.width * img.height)
  {
    FlattenLength(img.rows, img.width);
    if img.width > 0 {
      var ls := RowTexts(img.rows);
      assert Payload(img) == JoinLines(ls);
      RowTextsNoNewline(img.rows);
      JoinLinesStrip(ls);
      RowTextsFlatten(img.rows);
    } else {
      assert |Pixels(img)| == 0;
      assert TokenText(Pixels(img)) == "";
    }
  }

  /** The `k`-th six-character slice of the text stripped of newlines is the token of the
      `k`-th pixel in row-major order. */
  lemma PixelToken(img: Image, k: nat)
    requires img.Valid() && k < |Pixels(img)|
    ensures 6 * k + 6 <= |RemoveAll(Payload(img), '\n')|
    ensures RemoveAll(Payload(img), '\n')[6 * k .. 6 * k + 6] == Token(Pixels(img)[k])
  {
    PayloadStripped(img);
    TokenTextSlice(Pixels(img), k);
  }

  /** Row-major order: the pixel in column `x` of row `y` is pixel number `y * w + x`. */
  lemma PixelAt(img: Image, x: nat, y: nat)
    requires img.Valid() && x < img.width && y < img.height
    ensures |Pixels(img)| == img.width * img.height
    ensures y * img.width + x < |Pixels(img)| && Pixels(img)[y * img.width + x] == img.rows[y][x]
  {
    FlattenLength(img.rows, img.width);
    FlattenIndex(img.rows, img.width, y, x);
  }

  /** For a path `stem + ".png"` whose stem holds no other `.png`, the output path is
      `stem + ".rust-riff"`: the stem's characters are kept unchanged. */
  lemma {:induction false} RustRiffPathOfPng(stem: string)
    requires !Occurs(stem, ".png")
    ensures RustRiffPath(stem + ".png") == stem + ".rust-riff"
  {
    var s := stem + ".png";
    if stem == [] {
      assert s == ".png";
      assert s[4..] == [];
    } else {
      // No ".png" starts inside the stem: at offset 0 it would lie in the stem when the stem
      // has four characters or more, and otherwise it would need a '.' where ".png" has
      // 'p', 'n' or 'g'.
      assert s[..4] != ".png" by {
        if |stem| >= 4 {
          assert s[..4] == stem[..4];
          assert !OccursAt(stem, ".png", 0);
        } else {
          assert s[|stem|] == '.';
        }
      }
      assert s[1..] == stem[1..] + ".png";
      assert !Occurs(stem[1..], ".png") by {
        forall i: nat | OccursAt(stem[1..], ".png", i) ensures OccursAt(stem, ".png", i + 1) {
          assert stem[1..][i .. i + 4] == stem[i + 1 .. i + 5];
        }
      }
      RustRiffPathOfPng(stem[1..]);
      assert stem == [stem[0]] + stem[1..];
    }
  }

  /** The text after the encoder has visited the first `x` pixels of row `y`. */
  ghost function TextSoFar(img: Image, y: nat, x: nat): string
    requires img.Valid() && y <= img.height && x <= img.width
    requires y == img.height ==> x == 0
  {
    if x == 0 then (if img.width == 0 then "" else JoinLines(RowTexts(img.rows)[..y]))
    else JoinLines(RowTexts(img.rows)[..y] + [TokenText(img.rows[y][..x])])
  }

  /** Visiting pixel `(x, y)` appends a newline when it starts a row other than row 0, then the
      pixel's token. */
  lemma TextSoFarStep(img: Image, y: nat, x: nat)
    requires img.Valid() && y < img.height && x < img.width
    ensures x == 0 && y > 0 ==> TextSoFar(img, y, x + 1) == TextSoFar(img, y, x) + "\n" + Token(img.rows[y][x])
    ensures x > 0 || y == 0 ==> TextSoFar(img, y, x + 1) == TextSoFar(img, y, x) + Token(img.rows[y][x])
  {
    var row := img.rows[y];
    var before := RowTexts(img.rows)[..y];
    assert row[..x + 1] == row[..x] + [row[x]];
    TokenTextAppend(row[..x], [row[x]]);
    TokenTextSingle(row[x]);
    if x == 0 {
      assert row[..x] == [];
      if y > 0 {
        JoinLinesSnoc(before, Token(row[x]));
      }
    } else {
      JoinLinesExtendLast(before, TokenText(row[..x]), Token(row[x]));
    }
  }

  /** Finishing row `y` is the same as being at the start of row `y + 1`. */
  lemma TextSoFarRowEnd(img: Image, y: nat)
    requires img.Valid() && y < img.height && img.width > 0
    ensures TextSoFar(img, y, img.width) == TextSoFar(img, y + 1, 0)
  {
    assert img.rows[y][..img.width] == img.rows[y];
    assert RowTexts(img.rows)[..y + 1] == RowTexts(img.rows)[..y] + [TokenText(img.rows[y])];
  }

  /** The encoder loop (`for pixel in img.pixels()` with the `last_line` cursor), followed by
      the header and the text, as written to the file at the derived path. */
  method PngToRustRiff(path: string, img: Image) returns (outPath: string, file: seq<byte>)
    requires img.Valid()
    ensures outPath == RustRiffPath(path)
    ensures file == Container(img)
  {
    var str := "";
    var lastLine := 0;
    for y := 0 to img.height
      invariant str == TextSoFar(img, y, 0)
      invariant lastLine == if y == 0 || img.width == 0 then 0 else y - 1
    {
      for x := 0 to img.width
        invariant str == TextSoFar(img, y, x)
        invariant lastLine == if x > 0 then y else if y == 0 || img.width == 0 then 0 else y - 1
      {
        var pixel := img.rows[y][x];
        var hexColor := ToCssHexString(pixel);
        TextSoFarStep(img, y, x);
        if lastLine != y {
          str := str + "\n";
          lastLine := y;
        }
        str := str + RemoveAll(hexColor, '#');
      }
      if img.width > 0 {
        TextSoFarRowEnd(img, y);
      }
    }
    assert RowTexts(img.rows)[..img.height] == RowTexts(img.rows);
    assert str == Payload(img);
    var heightBytes := U32ToBytes(img.height);
    var widthBytes := U32ToBytes(img.width);
    outPath := RustRiffPath(path);
    var stringBytes := AsciiBytes(str);
    file := widthBytes + heightBytes + stringBytes;
  }
}
