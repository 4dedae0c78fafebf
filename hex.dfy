/** Colours and their CSS hex spelling: the stand-in for `Rgb::to_css_hex_string` (encoder side)
    and for parsing `"#RRGGBB"` into a `css_color_parser::Color` (decoder side). Both are calls
    into other crates; only the exact integer, six-digit form is modelled. */
module Hex {
  import opened Common

  /** One pixel's red, green and blue channels. */
  datatype Rgb = Rgb(r: byte, g: byte, b: byte)

  predicate IsHexDigit(c: char)
  {
    '0' <= c <= '9' || 'a' <= c <= 'f' || 'A' <= c <= 'F'
  }

  predicate IsLowerHexDigit(c: char)
  {
    '0' <= c <= '9' || 'a' <= c <= 'f'
  }

  /** The value of one hex digit, either case. */
  function DigitValue(c: char): (v: nat)
    requires IsHexDigit(c)
    ensures v < 16
  {
    if c <= '9' then c as int - '0' as int
    else if c <= 'F' then c as int - 'A' as int + 10
    else c as int - 'a' as int + 10
  }

  /** The lower-case hex digit for `n`; its value is `n`. */
  function HexDigit(n: nat): (c: char)
    requires n < 16
    ensures IsLowerHexDigit(c) && DigitValue(c) == n
  {
    if n < 10 then ('0' as int + n) as char else ('a' as int + n - 10) as char
  }

  /** ASCII lower-casing of one character. */
  function LowerChar(c: char): char
  {
    if 'A' <= c <= 'Z' then (c as int + 32) as char else c
  }

  /** ASCII lower-casing of a string. */
  function Lower(s: string): (t: string)
    ensures |t| == |s|
  {
    seq(|s|, i requires 0 <= i < |s| => LowerChar(s[i]))
  }

  /** Every hex digit spells its own value, up to letter case. */
  lemma HexDigitOfValue(c: char)
    requires IsHexDigit(c)
    ensures HexDigit(DigitValue(c)) == LowerChar(c)
  {
  }

  /** The byte spelled by two hex digits, most significant first. */
  function PairValue(hi: char, lo: char): byte
    requires IsHexDigit(hi) && IsHexDigit(lo)
  {
    DigitValue(hi) * 16 + DigitValue(lo)
  }

  /** Two lower-case hex digits for one channel, zero-padded. */
  function HexByte(b: byte): (s: string)
    ensures |s| == 2 && IsLowerHexDigit(s[0]) && IsLowerHexDigit(s[1])
    ensures PairValue(s[0], s[1]) == b
  {
    [HexDigit(b / 16), HexDigit(b % 16)]
  }

  /** `Rgb::to_css_hex_string` for integer channels: `#` and six lower-case hex digits. */
  function ToCssHexString(c: Rgb): (s: string)
    ensures |s| == 7 && s[0] == '#'
    ensures forall i :: 1 <= i < 7 ==> IsLowerHexDigit(s[i])
  {
    "#" + HexByte(c.r) + HexByte(c.g) + HexByte(c.b)
  }

  /** The `#RRGGBB` form the CSS parser accepts: `#` and six hex digits of either case. */
  predicate IsCssHex6(s: string)
  {
    |s| == 7 && s[0] == '#' && forall i :: 1 <= i < 7 ==> IsHexDigit(s[i])
  }

  /** `str::parse::<css_color_parser::Color>` restricted to `#RRGGBB`: it succeeds exactly on
      `#` followed by six hex digits of either case; anything else is the parse error on which
      the decoder's `expect` aborts. */
  function ParseCssHex(s: string): (r: Option<Rgb>)
    ensures r.Some? <==> IsCssHex6(s)
  {
    if IsCssHex6(s) then Some(Rgb(PairValue(s[1], s[2]), PairValue(s[3], s[4]), PairValue(s[5], s[6])))
    else None
  }

  /** Parsing the CSS hex string of a colour gives the colour back. */
  lemma ParseOfCssHexString(c: Rgb)
    ensures ParseCssHex(ToCssHexString(c)) == Some(c)
  {
    var s := ToCssHexString(c);
    var hr, hg, hb := HexByte(c.r), HexByte(c.g), HexByte(c.b);
    assert s == ['#', hr[0], hr[1], hg[0], hg[1], hb[0], hb[1]];
    assert PairValue(s[1], s[2]) == c.r;
    assert PairValue(s[3], s[4]) == c.g;
    assert PairValue(s[5], s[6]) == c.b;
  }

  /** Conversely, the CSS hex string of a parsed colour is the input with its letters
      lower-cased; so a lower-case `#rrggbb` string is exactly the CSS hex string of what it
      parses to, and the two spellings are in one-to-one correspondence. */
  lemma CssHexStringOfParse(s: string)
    requires IsCssHex6(s)
    ensures ParseCssHex(s).Some? && ToCssHexString(ParseCssHex(s).value) == Lower(s)
    ensures (forall i :: 1 <= i < 7 ==> IsLowerHexDigit(s[i])) ==> ToCssHexString(ParseCssHex(s).value) == s
  {
    var c := ParseCssHex(s).value;
    HexBytePair(s[1], s[2]);
    HexBytePair(s[3], s[4]);
    HexBytePair(s[5], s[6]);
    assert ToCssHexString(c) == ['#', LowerChar(s[1]), LowerChar(s[2]), LowerChar(s[3]),
                                 LowerChar(s[4]), LowerChar(s[5]), LowerChar(s[6])];
    assert Lower(s) == [LowerChar(s[0]), LowerChar(s[1]), LowerChar(s[2]), LowerChar(s[3]),
                        LowerChar(s[4]), LowerChar(s[5]), LowerChar(s[6])];
    if forall i :: 1 <= i < 7 ==> IsLowerHexDigit(s[i]) {
      assert Lower(s) == s;
    }
  }

  /** Two hex digits, lower-cased, are the `HexByte` spelling of the byte they denote. */
  lemma HexBytePair(hi: char, lo: char)
    requires IsHexDigit(hi) && IsHexDigit(lo)
    ensures HexByte(PairValue(hi, lo)) == [LowerChar(hi), LowerChar(lo)]
  {
    var v := PairValue(hi, lo);
    assert v / 16 == DigitValue(hi) && v % 16 == DigitValue(lo);
    HexDigitOfValue(hi);
    HexDigitOfValue(lo);
  }

  /** The colour (255, 0, 128) is spelled `#ff0080`, and `#ff0080` parses back to it. */
  lemma ColorExample()
    ensures ToCssHexString(Rgb(255, 0, 128)) == "#ff0080"
    ensures ParseCssHex("#ff0080") == Some(Rgb(255, 0, 128))
  {
    assert HexByte(255) == "ff" && HexByte(0) == "00" && HexByte(128) == "80";
    assert PairValue('f', 'f') == 255 && PairValue('0', '0') == 0 && PairValue('8', '0') == 128;
  }

  /** A token with non-hex characters does not parse. */
  lemma MalformedExample()
    ensures ParseCssHex("#zz0080") == None
  {
    assert !IsHexDigit("#zz0080"[1]);
  }
}
