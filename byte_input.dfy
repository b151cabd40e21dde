/** Reading a whole file byte by byte, as the readers' `read` methods do with
    `FileInputStream.read()`. The file's content is a value: `None` stands for a
    file that `open` could not open. */
module ByteInput {
  import opened Wrappers

  /** A value `InputStream.read()` returns before the end of the stream. */
  newtype byte = x: int | 0 <= x < 256

  /** `(char) c` for a byte value: the character with the same code. */
  function ToChar(b: byte): (ch: char)
    ensures ch as int == b as int
  {
    (b as int) as char
  }

  /** The content the read loop builds: one character per byte, in file order. */
  function Decode(bytes: seq<byte>): (s: string)
    ensures |s| == |bytes|
    ensures forall i :: 0 <= i < |bytes| ==> s[i] as int == bytes[i] as int
  {
    if bytes == [] then [] else Decode(bytes[..|bytes| - 1]) + [ToChar(bytes[|bytes| - 1])]
  }

  /** Every character code fits in one byte (0..255). */
  predicate IsSingleByte(s: string)
  {
    forall i :: 0 <= i < |s| ==> s[i] as int < 256
  }

  /** The inverse of Decode on single-byte text. */
  function Encode(s: string): (bytes: seq<byte>)
    requires IsSingleByte(s)
    ensures |bytes| == |s|
  {
    if s == [] then [] else [s[0] as int as byte] + Encode(s[1..])
  }

  /** Decoded content is single-byte text, and encoding it gives the file's bytes back:
      no byte is lost, changed or reordered by the read loop. */
  lemma {:induction false} EncodeDecode(bytes: seq<byte>)
    ensures IsSingleByte(Decode(bytes))
    ensures Encode(Decode(bytes)) == bytes
  {
    if bytes != [] {
      var s := Decode(bytes);
      EncodeDecode(bytes[1..]);
      assert Decode(bytes[1..]) == s[1..];
      assert s[0] as int as byte == bytes[0];
      assert bytes == [bytes[0]] + bytes[1..];
    }
  }

  /** `InputStream.read()` at position `pos`: the next byte, or -1 at the end. */
  function NextByte(bytes: seq<byte>, pos: nat): (c: int)
    ensures c == -1 <==> pos >= |bytes|
    ensures c != -1 ==> c == bytes[pos] as int
  {
    if pos < |bytes| then bytes[pos] as int else -1
  }

  /** The open-and-read-to-end loop shared by both readers: `None` when the file
      cannot be opened, otherwise every byte widened to a character, in order. */
  method ReadAll(file: Option<seq<byte>>) returns (content: Option<string>)
    ensures file.None? ==> content.None?
    ensures file.Some? ==> content == Some(Decode(file.value))
  {
    if file.None? {
      return None;
    }
    var bytes := file.value;
    var sb := "";
    var pos := 0;
    var c := NextByte(bytes, pos);
    while c != -1
      invariant 0 <= pos <= |bytes|
      invariant c == NextByte(bytes, pos)
      invariant sb == Decode(bytes[..pos])
      decreases |bytes| - pos
    {
      assert bytes[..pos + 1][..pos] == bytes[..pos];
      sb := sb + [ToChar(c as byte)];
      pos := pos + 1;
      c := NextByte(bytes, pos);
    }
    assert bytes[..pos] == bytes;
    content := Some(sb);
  }
}
