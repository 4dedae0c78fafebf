/** `rust_riff_to_png`: splits off the 8-byte header, strips the newlines from the text,
    cuts it into 6-character tokens, parses each as `#RRGGBB`, and paints token `i` as a 1x1
    rectangle at column `i % width`, row `i / width` of a `width` by `height` raster surface.
    Reading the file, the floating-point `Color4f` paint and encoding the surface as PNG are
    not modelled: the result is the header's dimensions and a snapshot of the surface. */
module Decoder {
  import opened Common
  import opened Seqs
  import opened Hex
  import opened Header
  import opened RowMajor

  /** A cell of the raster surface: untouched since the surface was created, or painted by one
      `draw_rect` with a colour. */
  datatype Cell = Unpainted | Painted(color: Rgb)

  /** The `expect` on the CSS parse fails: the decoder aborts and produces no image. */
  datatype DecodeError = ColorParseError

  /** The decoder's outcome: the header's dimensions and the surface, `raster[y][x]` being the
      cell in column `x` of row `y`. */
  datatype Decoded = Decoded(width: u32, height: u32, raster: seq<seq<Cell>>)

  /** Characters per colour token (`chunks(6)`). */
  const TokenLength: nat := 6

  /** Skia rejects a surface whose `width as i32` or `height as i32` is not positive, and the
      `unwrap` on `Surface::new_raster` then panics. */
  const MaxSide: nat := 0x8000_0000

  /** `as_bytes().chunks(n)` on ASCII text: consecutive pieces of `n` characters, the last one
      possibly shorter, which put back together give the text. */
  function Chunks(s: string, n: nat): (r: seq<string>)
    requires n > 0
    ensures Flatten(r) == s
    ensures forall i :: 0 <= i < |r| ==> 0 < |r[i]| <= n
    ensures forall i :: 0 <= i < |r| - 1 ==> |r[i]| == n
    decreases |s|
  {
    if |s| == 0 then []
    else if |s| <= n then
      assert Flatten([s]) == Flatten([s][..0]) + s;
      [s]
    else
      var rest := Chunks(s[n..], n);
      FlattenAppend([s[..n]], rest);
      assert Flatten([s[..n]]) == Flatten([s[..n]][..0]) + s[..n];
      [s[..n]] + rest
  }

  /** A non-empty text is `n` characters for each piece but the last, plus the last piece:
      there are `ceil(|s| / n)` pieces. */
  lemma {:induction false} ChunksCount(s: string, n: nat)
    requires n > 0 && |s| > 0
    ensures |Chunks(s, n)| > 0
    ensures |s| == n * (|Chunks(s, n)| - 1) + |Chunks(s, n)[|Chunks(s, n)| - 1]|
  {
    if |s| > n {
      var rest := Chunks(s[n..], n);
      ChunksCount(s[n..], n);
      assert Chunks(s, n) == [s[..n]] + rest;
      assert n * |rest| == n * (|rest| - 1) + n;
    }
  }

  /** Chunking pieces of exactly `n` characters put back to back gives back the pieces. */
  lemma {:induction false} ChunksOfFlatten(ts: seq<string>, n: nat)
    requires n > 0
    requires forall i :: 0 <= i < |ts| ==> |ts[i]| == n
    ensures Chunks(Flatten(ts), n) == ts
  {
    if |ts| > 0 {
      var s := Flatten(ts);
      assert ts == [ts[0]] + ts[1..];
      FlattenAppend([ts[0]], ts[1..]);
      assert Flatten([ts[0]]) == Flatten([ts[0]][..0]) + ts[0];
      assert s == ts[0] + Flatten(ts[1..]);
      FlattenLength(ts[1..], n);
      if |ts| == 1 {
        assert s == ts[0];
      } else {
        assert s[..n] == ts[0];
        assert s[n..] == Flatten(ts[1..]);
        ChunksOfFlatten(ts[1..], n);
      }
    }
  }

  /** Each token with `#` put in front, parsed as a CSS colour: all the colours, or `None` as
      soon as one token does not parse. */
  function ParseTokens(ts: seq<string>): (r: Option<seq<Rgb>>)
    ensures r.Some? <==> forall i :: 0 <= i < |ts| ==> ParseCssHex("#" + ts[i]).Some?
    ensures r.Some? ==> |r.value| == |ts|
    ensures r.Some? ==> forall i :: 0 <= i < |ts| ==> ParseCssHex("#" + ts[i]) == Some(r.value[i])
  {
    if |ts| == 0 then Some([])
    else
      match ParseCssHex("#" + ts[0])
      case None => None
      case Some(c) =>
        match ParseTokens(ts[1..])
        case None => None
        case Some(cs) => Some([c] + cs)
  }

  /** The cell in column `x` of row `y` once every colour `i` has been painted at
      `(i % w, i / w)`: colour `y * w + x` if there is one, untouched otherwise. */
  function CellAt(colors: seq<Rgb>, w: nat, x: nat, y: nat): Cell
  {
    if y * w + x < |colors| then Painted(colors[y * w + x]) else Unpainted
  }

  /** Painting one more colour changes exactly the cell at `(i % w, i / w)`, `i` being the
      number of colours painted before it. */
  lemma CellAtStep(colors: seq<Rgb>, c: Rgb, w: nat, x: nat, y: nat)
    requires 0 < w && x < w
    ensures CellAt(colors + [c], w, x, y) ==
      if x == |colors| % w && y == |colors| / w then Painted(c) else CellAt(colors, w, x, y)
  {
    IndexOfCell(x, y, w);
    CellOfIndex(|colors|, w, 0);
  }

  /** The surface once every colour has been painted, as rows of cells. Colours past `w * h`
      land outside the surface and are clipped. */
  function Raster(colors: seq<Rgb>, w: nat, h: nat): (g: seq<seq<Cell>>)
    ensures |g| == h && forall y :: 0 <= y < h ==> |g[y]| == w
  {
    seq(h, y requires 0 <= y < h => seq(w, x requires 0 <= x < w => CellAt(colors, w, x, y)))
  }

  /** Colour `i`, when it falls inside the surface, is the one in column `i % w` of row
      `i / w`; a cell no colour reaches stays untouched. */
  lemma RasterPlacement(colors: seq<Rgb>, w: nat, h: nat, i: nat)
    requires w > 0 && i < |colors| && i < w * h
    ensures i % w < w && i / w < h
    ensures Raster(colors, w, h)[i / w][i % w] == Painted(colors[i])
  {
    CellOfIndex(i, w, h);
  }

  lemma RasterUnpainted(colors: seq<Rgb>, w: nat, h: nat, x: nat, y: nat)
    requires x < w && y < h && |colors| <= y * w + x
    ensures Raster(colors, w, h)[y][x] == Unpainted
  {
  }

  /** The file is long enough for `drain(0..8)`, both dimensions are positive and stay
      positive through `as i32` (otherwise Skia creates no surface and the `unwrap` panics),
      and the text is ASCII. */
  predicate Decodable(contents: seq<byte>)
  {
    && |contents| >= 8
    && 0 < BytesToU32(contents[0..4]) < MaxSide
    && 0 < BytesToU32(contents[4..8]) < MaxSide
    && IsAsciiBytes(contents[8..])
  }

  /** The tokens of the text after the header: newlines removed, then cut every six
      characters. Put back together they are the text without its newlines; none holds a
      newline, and all but the last have exactly six characters. */
  function PayloadTokens(contents: seq<byte>): (ts: seq<string>)
    requires |contents| >= 8 && IsAsciiBytes(contents[8..])
    ensures Flatten(ts) == RemoveAll(AsciiText(contents[8..]), '\n')
    ensures forall i :: 0 <= i < |ts| ==> 0 < |ts[i]| <= TokenLength && '\n' !in ts[i]
    ensures forall i :: 0 <= i < |ts| - 1 ==> |ts[i]| == TokenLength
  {
    var ts := Chunks(RemoveAll(AsciiText(contents[8..]), '\n'), TokenLength);
    FlattenExcludes(ts, '\n');
    ts
  }

  /** What decoding a file produces. It fails exactly when some token is not a `#RRGGBB`
      colour; otherwise it yields the header's dimensions and a `height` by `width` raster. */
  function Decode(contents: seq<byte>): (r: Result<Decoded, DecodeError>)
    requires Decodable(contents)
    ensures r.Err? <==>
      exists i :: 0 <= i < |PayloadTokens(contents)| && ParseCssHex("#" + PayloadTokens(contents)[i]).None?
    ensures r.Ok? ==>
      && r.value.width == BytesToU32(contents[0..4])
      && r.value.height == BytesToU32(contents[4..8])
      && |r.value.raster| == r.value.height
      && forall y :: 0 <= y < r.value.height ==> |r.value.raster[y]| == r.value.width
  {
    var w := BytesToU32(contents[0..4]);
    var h := BytesToU32(contents[4..8]);
    match ParseTokens(PayloadTokens(contents))
    case None => Err(ColorParseError)
    case Some(colors) => Ok(Decoded(w, h, Raster(colors, w, h)))
  }

  /** The paint loop: a fresh `width` by `height` surface on which token `i`, parsed after a
      `#`, is drawn as a 1x1 rectangle at column `i % width`, row `i / width` (clipped when
      that row is past the surface). `None` when a token does not parse (the `expect` aborts);
      otherwise the snapshot of the surface. */
  method PaintTokens(tokens: seq<string>, width: u32, height: u32) returns (raster: Option<seq<seq<Cell>>>)
    requires 0 < width
    ensures raster.None? <==> ParseTokens(tokens).None?
    ensures raster.Some? ==> raster.value == Raster(ParseTokens(tokens).value, width, height)
  {
    var surface := new Cell[width, height]((x, y) => Unpainted);
    ghost var painted: seq<Rgb> := [];
    for i := 0 to |tokens|
      invariant |painted| == i
      invariant forall j :: 0 <= j < i ==> ParseCssHex("#" + tokens[j]) == Some(painted[j])
      invariant forall x, y :: 0 <= x < width && 0 <= y < height ==> surface[x, y] == CellAt(painted, width, x, y)
    {
      var hex := "#" + tokens[i];
      var parsed := ParseCssHex(hex);
      if parsed.None? {
        assert ParseTokens(tokens).None?;
        return None;
      }
      var x := i % width;
      var y := i / width;
      CellOfIndex(i, width, 0);
      if y < height {
        surface[x, y] := Painted(parsed.value);
      }
      forall x', y' | 0 <= x' < width && 0 <= y' < height
        ensures CellAt(painted + [parsed.value], width, x', y') ==
          if x' == x && y' == y then Painted(parsed.value) else CellAt(painted, width, x', y')
      {
        CellAtStep(painted, parsed.value, width, x', y');
      }
      painted := painted + [parsed.value];
    }

    var colors := ParseTokens(tokens).value;
    assert colors == painted;
    var snapshot := seq(height, y requires 0 <= y < height reads surface =>
      seq(width, x requires 0 <= x < width reads surface => surface[x, y]));
    forall y | 0 <= y < height ensures snapshot[y] == Raster(colors, width, height)[y] {
    }
    raster := Some(snapshot);
  }

  /** The decoder: `drain(0..8)` and the two header reads, the newline strip and 6-chunking,
      then the paint loop. A token that does not parse aborts the decoder. */
  method RustRiffToPng(file: seq<byte>) returns (res: Result<Decoded, DecodeError>)
    requires Decodable(file)
    ensures res == Decode(file)
  {
    var contents := file;
    var binding := contents[..8];
    contents := contents[8..];
    var width := VecToU32(binding[0..4]);
    var height := VecToU32(binding[4..8]);
    assert binding[0..4] == file[0..4] && binding[4..8] == file[4..8];
    var sanitized := RemoveAll(AsciiText(contents), '\n');
    var result := Chunks(sanitized, TokenLength);
    assert result == PayloadTokens(file);
    var raster := PaintTokens(result, width, height);
    if raster.None? {
      res := Err(ColorParseError);
    } else {
      res := Ok(Decoded(width, height, raster.value));
    }
  }
}
