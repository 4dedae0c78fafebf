/** Basic types shared by the codec: machine integers, failure wrappers and ASCII text. */
module Common {

  /** An unsigned 8-bit integer (Rust `u8`). */
  type byte = x: int | 0 <= x < 0x100

  /** An unsigned 32-bit integer (Rust `u32`). */
  type u32 = x: int | 0 <= x < 0x1_0000_0000

  datatype Option<+T> = None | Some(value: T)

  datatype Result<+T, +E> = Ok(value: T) | Err(error: E)

  /** Every character of `s` is 7-bit ASCII, so its UTF-8 encoding is one byte per character. */
  predicate IsAscii(s: string)
  {
    forall i :: 0 <= i < |s| ==> s[i] < 128 as char
  }

  /** Every byte of `b` is 7-bit ASCII, so `b` is valid UTF-8 and decodes one character per byte. */
  predicate IsAsciiBytes(b: seq<byte>)
  {
    forall i :: 0 <= i < |b| ==> b[i] < 128
  }

  /** `String::as_bytes` on an ASCII string. */
  function AsciiBytes(s: string): (b: seq<byte>)
    requires IsAscii(s)
    ensures |b| == |s| && IsAsciiBytes(b)
    ensures forall i :: 0 <= i < |s| ==> b[i] == s[i] as int
  {
    seq(|s|, i requires 0 <= i < |s| => s[i] as int)
  }

  /** UTF-8 decoding of ASCII bytes (`String::from_utf8_lossy` never substitutes here). */
  function AsciiText(b: seq<byte>): (s: string)
    requires IsAsciiBytes(b)
    ensures |s| == |b| && IsAscii(s)
    ensures forall i :: 0 <= i < |b| ==> s[i] as int == b[i]
  {
    seq(|b|, i requires 0 <= i < |b| => b[i] as char)
  }

  /** Decoding the bytes of an ASCII string gives the string back. */
  lemma AsciiRoundTrip(s: string)
    requires IsAscii(s)
    ensures AsciiText(AsciiBytes(s)) == s
  {
    var t := AsciiText(AsciiBytes(s));
    assert |t| == |s|;
    forall i | 0 <= i < |s| ensures t[i] == s[i] {
      assert t[i] as int == s[i] as int;
    }
  }

  /** Decoding a concatenation of ASCII bytes decodes each part. */
  lemma AsciiTextAppend(x: seq<byte>, y: seq<byte>)
    requires IsAsciiBytes(x) && IsAsciiBytes(y)
    ensures IsAsciiBytes(x + y) && AsciiText(x + y) == AsciiText(x) + AsciiText(y)
  {
    forall i | 0 <= i < |x + y| ensures (x + y)[i] < 128 {
      if i >= |x| {
        assert (x + y)[i] == y[i - |x|];
      }
    }
    var t, u := AsciiText(x + y), AsciiText(x) + AsciiText(y);
    forall i | 0 <= i < |t| ensures t[i] == u[i] {
      if i < |x| {
        assert t[i] as int == u[i] as int;
      } else {
        assert u[i] == AsciiText(y)[i - |x|];
        assert t[i] as int == u[i] as int;
      }
    }
  }

  /** Decoding a slice of ASCII bytes is slicing the decoded text. */
  lemma AsciiTextSlice(b: seq<byte>, i: nat, j: nat)
    requires IsAsciiBytes(b) && i <= j <= |b|
    ensures IsAsciiBytes(b[i..j]) && AsciiText(b[i..j]) == AsciiText(b)[i..j]
  {
    assert forall k :: 0 <= k < j - i ==> b[i..j][k] == b[i + k];
    var t, u := AsciiText(b[i..j]), AsciiText(b)[i..j];
    forall k | 0 <= k < |t| ensures t[k] == u[k] {
      assert t[k] as int == u[k] as int;
    }
  }

  /** Multiplication by a natural number is monotone. */
  lemma MulLe(a: nat, b: nat, n: nat)
    requires a <= b
    ensures a * n <= b * n
  {
  }
}
