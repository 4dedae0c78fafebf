/** What the output file holds once the encoder has written its bytes. The encoder opens the
    file with `OpenOptions::new().write(true).create(true)` and no `truncate(true)`, so its
    writes start at offset 0 and overwrite the old contents without shortening the file. */
module FileWrite {
  import opened Common

  /** The file after `write_all` of `bytes` from offset 0 on a file that held `previous`:
      the new bytes, then whatever of the old contents lies past them. */
  function OverwriteFromStart(previous: seq<byte>, bytes: seq<byte>): (f: seq<byte>)
    ensures |f| == if |previous| > |bytes| then |previous| else |bytes|
    ensures f[..|bytes|] == bytes
    ensures |previous| > |bytes| ==> f[|bytes|..] == previous[|bytes|..]
  {
    if |previous| > |bytes| then bytes + previous[|bytes|..] else bytes
  }

  /** The file after the same writes on a file opened with `truncate(true)` (as `fs::write`
      does): exactly the new bytes, whatever the file held before. */
  function TruncateAndWrite(previous: seq<byte>, bytes: seq<byte>): (f: seq<byte>)
    ensures |f| == |bytes| && forall i :: 0 <= i < |bytes| ==> f[i] == bytes[i]
  {
    bytes
  }

  /** Overwriting a longer file whose text starts at offset 8 with a shorter one keeps the new
      header, and the text read after it is the new text followed by the old text's tail. */
  lemma OverwriteText(previous: seq<byte>, bytes: seq<byte>)
    requires 8 <= |bytes| < |previous|
    requires IsAsciiBytes(bytes[8..]) && IsAsciiBytes(previous[8..])
    ensures var f := OverwriteFromStart(previous, bytes);
      && |f| == |previous|
      && f[0..4] == bytes[0..4] && f[4..8] == bytes[4..8]
      && IsAsciiBytes(f[8..])
      && AsciiText(f[8..]) == AsciiText(bytes[8..]) + AsciiText(previous[8..])[|bytes| - 8..]
  {
    var f := OverwriteFromStart(previous, bytes);
    var n := |bytes|;
    assert f[8..] == bytes[8..] + previous[n..];
    assert previous[n..] == previous[8..][n - 8..|previous| - 8];
    AsciiTextSlice(previous[8..], n - 8, |previous| - 8);
    AsciiTextAppend(bytes[8..], previous[n..]);
    assert AsciiText(previous[8..])[n - 8..|previous| - 8] == AsciiText(previous[8..])[n - 8..];
  }
}
