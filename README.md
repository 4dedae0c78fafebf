# rust-riff pixel-dump codec in Dafny

rust-riff converts a PNG into a "Rust RIFF" file and back. The file is an 8-byte header followed
by text:

- The header holds the width and then the height, each a `u32` in native byte order.
- The text spells every pixel, in row-major order, as six hex digits `rrggbb`, with a newline
  between rows.
- Decoding reads the header, removes the newlines and cuts the text into 6-character tokens.
  It then parses each token as the CSS colour `#rrggbb` and paints token `i` as a 1x1 rectangle
  at column `i % width`, row `i / width` of a `width` by `height` surface.

This project models that codec:

- `Common`: bytes, `u32`, `Option`/`Result`, and the ASCII text ↔ byte conversions.
- `Seqs`: concatenation of pieces, `str::replace` with an empty replacement, `str::replace`
  in general, and occurrence counting.
- `Header`: `to_ne_bytes`/`from_ne_bytes` and `vec_to_u32_ne`.
- `Hex`: the colour ↔ `#rrggbb` spelling.
- `RowMajor`: the index ↔ (column, row) arithmetic.
- `Encoder`: `png_to_rust_riff`, with the pixel loop as a method proved against the text
  specification `Payload`, and the path rename.
- `Decoder`: `rust_riff_to_png`, with the paint loop over an `array2` surface proved against the
  cell-by-cell specification `Raster`.
- `FileWrite`: what the output file holds after the encoder's writes, for the file opened as
  written (no truncation) and for a truncating open.
- `RoundTrip`: decoding what the encoder writes gives back the image. A longer file left at
  the output path breaks this (see Findings).

The pixel grid is the encoder's input and the file's bytes are its output. The decoder takes
the file's bytes and returns the header's dimensions and a snapshot of the surface's cells.

## Model

| member | source | states |
|---|---|---|
| Common.AsciiBytes | src/main.rs:65 | `str.as_bytes()` on ASCII text: one byte per character, carrying the character's code |
| Common.AsciiText | src/main.rs:85 | reading ASCII bytes as text: one character per byte with the byte's code, all ASCII |
| Common.AsciiRoundTrip | src/main.rs:85 | the text the encoder writes as bytes is read back by the decoder as the same text |
| Common.AsciiTextAppend | src/main.rs:85 | reading two ASCII byte runs in sequence gives the first text then the second |
| Common.AsciiTextSlice | src/main.rs:85 | a slice of ASCII bytes reads as the same slice of the text |
| Seqs.RemoveAll | src/main.rs:85 | `replace("\n", "")` leaves no newline, shortens the text by exactly the number of newlines, and changes nothing when there is none |
| Seqs.RemoveAllAppend | src/main.rs:49 | removing a character distributes over concatenation |
| Seqs.ReplaceAll | src/main.rs:58 | `str::replace` returns its input unchanged when the pattern does not occur |
| Seqs.ReplaceIsRemove | src/main.rs:85 | `replace("\n", "")` as general replacement is the same as removing every newline |
| Seqs.FlattenExcludes | src/main.rs:87-89 | an element absent from the joined pieces is absent from every piece |
| Header.U32ToBytes | src/main.rs:56-57 | `to_ne_bytes` gives 4 bytes that `from_ne_bytes` reads back as the same value |
| Header.BytesToU32 | src/main.rs:29 | `from_ne_bytes` reads byte `k` as the `k`-th base-256 digit of the value, least significant first |
| Header.BytesToU32Inverse | src/main.rs:26-30 | any 4 bytes read as a `u32` and written back are the same 4 bytes (the codec is a bijection) |
| Header.VecToU32 | src/main.rs:26-30 | the buffer copy then `from_ne_bytes` yields the value those bytes encode, which writes back to the same bytes |
| Header.EncodeHeader | src/main.rs:56-57 | the header written is 8 bytes; bytes 0..4 read back (lines 82-83) as the width and bytes 4..8 as the height, each independently |
| Hex.HexByte | src/main.rs:38-43 | a channel is two zero-padded lower-case hex digits denoting that channel |
| Hex.ToCssHexString | src/main.rs:38-43 | a colour's CSS hex string is `#` and six lower-case hex digits |
| Hex.ParseCssHex | src/main.rs:105-109 | `#` + token parses exactly when it is `#` followed by six hex digits of either case |
| Hex.ParseOfCssHexString | src/main.rs:105-109 | parsing a colour's CSS hex string gives the colour back |
| Hex.CssHexStringOfParse | src/main.rs:105-109 | every `#rrggbb` parses, and the parsed colour's CSS hex string is the input lower-cased; a lower-case input is given back exactly |
| Hex.ColorExample | src/main.rs:38-43 | (255, 0, 128) is spelled `#ff0080` and `#ff0080` parses back to it |
| Hex.MalformedExample | src/main.rs:107-109 | a token with non-hex characters is a parse error |
| RowMajor.CellOfIndex | src/main.rs:120-121 | index `i` is column `i % w` of row `i / w`, the column is below `w`, and `i < w * h` exactly when the row is below `h` |
| RowMajor.IndexOfCell | src/main.rs:120-121 | the cell at column `x < w` of row `y` is reached by index `y * w + x` |
| RowMajor.CellsDistinct | src/main.rs:120-121 | distinct indices land on distinct cells (the placement is injective) |
| Encoder.Pixels | src/main.rs:37 | `pixels()` visits `width * height` pixels |
| Encoder.Token | src/main.rs:49 | a pixel's token is six lower-case hex digits which, with `#` in front, parse back to the pixel |
| Encoder.TokenOk | src/main.rs:43-49 | dropping the `#` of a colour's CSS hex string leaves six hex digits that parse back to the colour |
| Encoder.TokenText | src/main.rs:37-49 | the tokens of `n` pixels put together are `6n` hex digits |
| Encoder.TokenTextAppend | src/main.rs:37-49 | the tokens of two pixel runs in sequence are the first run's then the second's |
| Encoder.TokenTextSingle | src/main.rs:49 | one pixel's text is its token |
| Encoder.TokenTextSlice | src/main.rs:37-49 | the `k`-th six-character slice is the token of pixel `k` |
| Encoder.JoinLinesSnoc | src/main.rs:45-48 | starting a new row appends a newline and then the row |
| Encoder.JoinLinesExtendLast | src/main.rs:49 | appending a token extends the current row |
| Encoder.Payload | src/main.rs:34-50 | the encoder's text holds only lower-case hex digits and newlines, so it is ASCII |
| Encoder.JoinLinesCount | src/main.rs:45-48 | joining `m >= 1` newline-free rows adds exactly `m - 1` newlines |
| Encoder.JoinLinesStrip | src/main.rs:85 | removing the newlines of the joined rows gives the rows back to back |
| Encoder.RowTextsFlatten | src/main.rs:37-49 | the rows' texts back to back are the tokens of all pixels in row-major order |
| Encoder.JoinLinesLayout | src/main.rs:45-48 | `m` rows of `n` characters take `m(n+1) - 1` characters; row `y` starts at `y(n+1)`, right after a newline when `y > 0` |
| Encoder.JoinLinesThree | src/main.rs:45-48 | three rows join as first row, newline, second row, newline, third row |
| Encoder.JoinLinesLast | src/main.rs:45-48 | the joined text ends with the last row's last character |
| Encoder.PayloadNewlines | src/main.rs:34-50 | a `w` by `h` image with `w, h >= 1` has exactly `h - 1` newlines and no trailing newline; an image without pixels has no text at all |
| Encoder.PayloadRow | src/main.rs:34-50 | row `y`'s tokens occupy characters `y(6w+1)` to `y(6w+1) + 6w`, after a newline for `y > 0`; the text is `h(6w+1) - 1` long |
| Encoder.PayloadStripped | src/main.rs:34-50 | without its newlines the text is the pixels' tokens back to back, `6wh` characters |
| Encoder.PixelToken | src/main.rs:37-49 | the `k`-th six-character slice of the stripped text is the token of pixel `k` |
| Encoder.PixelAt | src/main.rs:37 | `pixels()` yields row 0 left to right, then row 1, and so on: pixel `y * w + x` is the one at column `x`, row `y` |
| Encoder.Container | src/main.rs:65-69 | the bytes written are the 8-byte header (reading back as width and height) and then the text, read back from offset 8 as the same text |
| Encoder.RustRiffPath | src/main.rs:58 | a path without `.png` is kept unchanged |
| Encoder.RustRiffPathOfPng | src/main.rs:58 | `stem.png` becomes `stem.rust-riff` when the stem contains no `.png`; every other character is unchanged |
| Encoder.TextSoFarStep | src/main.rs:45-49 | visiting a pixel appends a newline exactly when it starts a row other than row 0, then the pixel's token |
| Encoder.TextSoFarRowEnd | src/main.rs:45-48 | finishing row `y` leaves the text at the start of row `y + 1` |
| Encoder.PngToRustRiff | src/main.rs:32-69 | the loop with the `last_line` cursor builds exactly `Payload`; the bytes written are width bytes, height bytes, then the text; the output path is the renamed input path |
| Decoder.Chunks | src/main.rs:87-89 | `chunks(6)`: non-empty pieces of at most 6 characters, all but the last exactly 6, which put back together give the text |
| Decoder.ChunksCount | src/main.rs:87-89 | a non-empty text has at least one chunk; all chunks but the last take 6 characters each, and the last takes the rest |
| Decoder.ChunksOfFlatten | src/main.rs:87-89 | chunking 6-character tokens put back to back gives back the tokens |
| Decoder.ParseTokens | src/main.rs:104-109 | all tokens parse exactly when every `#` + token is a colour, and then colour `i` is token `i`'s |
| Decoder.CellAtStep | src/main.rs:120-124 | painting the `i`-th colour changes exactly the cell at column `i % w`, row `i / w` |
| Decoder.Raster | src/main.rs:101 | the surface is `height` rows of `width` cells |
| Decoder.RasterPlacement | src/main.rs:120-124 | colour `i < w * h` is found at column `i % w`, row `i / w`, which lies on the surface |
| Decoder.RasterUnpainted | src/main.rs:101 | a cell no colour reaches stays as the fresh surface had it |
| Decoder.PayloadTokens | src/main.rs:85-92 | the tokens put back together are the text after the header without its newlines; no token holds a newline; all have 1 to 6 characters, and all but the last exactly 6 |
| Decoder.Decode | src/main.rs:104-109 | decoding fails exactly when some token is not a `#rrggbb` colour; otherwise it returns the header's dimensions and a `height` by `width` raster |
| Decoder.PaintTokens | src/main.rs:101-127 | the paint loop over the `array2` surface fails exactly when a token does not parse, and otherwise its snapshot is `Raster` of the parsed colours |
| Decoder.RustRiffToPng | src/main.rs:78-133 | drain, the header reads, the strip, the chunking and the paint loop produce exactly `Decode` of the file |
| RoundTrip.TokensParse | src/main.rs:105-109 | every token the encoder writes parses back to its pixel |
| RoundTrip.EncodedTokens | src/main.rs:85-92 | the decoder's tokens of an encoded file are the pixels' tokens, in order |
| RoundTrip.RasterOfPixels | src/main.rs:120-124 | painting the pixels in order puts each pixel in its own cell |
| RoundTrip.DecodeEncode | src/main.rs:32-133 | an image with positive sides below 2^31 is decodable from the bytes written for it and decodes to its own dimensions with every pixel painted at its column and row |
| FileWrite.OverwriteFromStart | src/main.rs:60-69 | writing from offset 0 without truncation: the file starts with the bytes written and keeps the old bytes past them, so it is as long as the longer of the two |
| FileWrite.TruncateAndWrite | src/main.rs:60-69 | with `truncate(true)` the file holds exactly the bytes written |
| FileWrite.OverwriteText | src/main.rs:60-69 | a shorter file written over a longer one keeps the new header, and its text is the new text followed by the old text's tail |
| RoundTrip.TallText | src/main.rs:37-49 | a one-column, three-row image's text is its three tokens separated by newlines |
| RoundTrip.TailOfThree | src/main.rs:45-49 | past its first 12 characters, a three-row text of 6-character rows is the second row's last digit, a newline and the third row |
| RoundTrip.StaleCount | src/main.rs:85 | 12 digits followed by one digit, a newline and six digits strip to 19 characters |
| RoundTrip.NineteenChunks | src/main.rs:87-89 | 19 characters give four chunks, the last a single character |
| RoundTrip.StaleTailBreaksDecode | src/main.rs:60-69 | a 2x1 image's file written without truncation over a 1x3 image's file passes the header checks but fails to decode, while the 2x1 file alone decodes |
| RoundTrip.DecodeAfterTruncatingWrite | src/main.rs:60-69 | with truncation, whatever the file held before, it decodes to the image just encoded |

## Left out

- Header.U32ToBytes: native byte order is fixed as little-endian. The encoder and decoder use the same order, so the round trips hold for either order, but the bytes of a big-endian host are not modelled.
- Header.BytesToU32: the same little-endian choice as `U32ToBytes`.
- Hex.ToCssHexString: the channels go through `f32` and `colors_transform` in the program; the model uses exact integer channels, which is all the encoder passes.
- Hex.ParseCssHex: only `#` followed by six hex digits is accepted. Other forms the CSS crate may accept (the 3-digit shorthand, names, surrounding spaces) are treated as parse errors, so a final chunk of 3 characters is an error here but may paint in the program.
- Decoder.RustRiffToPng: the panics are preconditions: a file shorter than 8 bytes (`drain`), and a width or height that is zero or not below 2^31, for which no surface is created and the `unwrap` fails.
- Decoder.RustRiffToPng: failure to allocate a large surface with valid dimensions is not modelled.
- Decoder.RustRiffToPng: the text after the header must be ASCII. Lossy UTF-8 replacement and the `from_utf8` failure on a chunk that splits a multi-byte character are not modelled.
- Decoder.RustRiffToPng: the paint is recorded as the parsed colour of each cell. The `Color4f` built from 0..255 channels with alpha 0.004, Skia's blending and anti-aliasing, the PNG encoding of the snapshot and the printing of the first paint are not modelled.
- Decoder.RustRiffToPng: token count. The program never checks that the text has `w * h` tokens. The model follows it: tokens past the last row are drawn off the surface and change nothing, and missing tokens leave cells `Unpainted`.
- Encoder.PngToRustRiff: `image::open` and `pixels()` are replaced by a grid of `Rgb` rows; the alpha channel is not read by the program either.
- Encoder.PngToRustRiff: a path that is not valid Unicode (`to_str` returning `None`, which panics) is out of reach, since paths are strings here.
- Encoder.PngToRustRiff: opening, writing and flushing the file are I/O; the method returns the path and the bytes it writes.
- Encoder.PngToRustRiff: the output file is opened with `write(true).create(true)` and no `truncate(true)` (src/main.rs:60-63), so a longer file already at that path keeps its tail. The method returns the bytes written, not the resulting file; `FileWrite.OverwriteFromStart` gives the resulting file (see Findings).
- Decoder.PaintTokens: the rect coordinates pass through `as f32` (src/main.rs:123), so the program places pixels exactly only for columns and rows up to 2^24; the model places them exactly.
- Reading the file in `rust_riff_to_png`, writing `temp.png`, `main`'s argument handling and the egui preview window are I/O and UI.

## Findings

| source | as written | input that shows it | evidently intended | confidence | as-written member | corrected member |
|---|---|---|---|---|---|---|
| src/main.rs:60-63 | the output file is opened with `write(true).create(true)` and no `truncate(true)`, so writing a shorter file over an existing longer one leaves the old tail in place | encode a 1x3 image to `x.rust-riff` (28 bytes), then a 2x1 image to the same path (20 bytes): the file keeps 8 stale bytes, its text strips to 19 digits, the last token is one digit, and decoding fails | open with `truncate(true)` (or write with `fs::write`), so the file holds exactly the bytes written (`FileWrite.TruncateAndWrite` instead of `FileWrite.OverwriteFromStart`) | not executed | RoundTrip.StaleTailBreaksDecode | RoundTrip.DecodeAfterTruncatingWrite |
