/** The plain-text reader: `read` returns the raw content; the other operations
    apply the shared transformations to it. */
module FileReaderTxt {
  import opened Wrappers
  import opened ByteInput
  import Transforms

  /** `read`: `None` when the file cannot be opened, otherwise its bytes as
      characters 0..255, in file order. */
  method Read(file: Option<seq<byte>>) returns (content: Option<string>)
    ensures file.None? ==> content.None?
    ensures file.Some? ==> content == Some(Decode(file.value))
  {
    content := ReadAll(file);
  }

  /** `readReverseLine` on the raw content. */
  method ReadReverseLine(file: Option<seq<byte>>) returns (r: string)
    requires file.Some?
    ensures r == Transforms.ReverseLinesOf(Decode(file.value))
  {
    var content := Read(file);
    r := Transforms.ReverseLines(content.value);
  }

  /** `readPalindrome` on the raw content. */
  method ReadPalindrome(file: Option<seq<byte>>) returns (r: string)
    requires file.Some?
    ensures r == Transforms.PalindromeOf(Decode(file.value))
  {
    var content := Read(file);
    r := Transforms.Palindrome(content.value);
  }

  /** `compare`: this file's raw content against what the other reader's `read`
      returned. */
  method Compare(file: Option<seq<byte>>, other: Option<string>) returns (r: string)
    requires file.Some? && other.Some?
    ensures r == Transforms.Render(Transforms.Compare(Decode(file.value), other.value))
  {
    var content := Read(file);
    var content2 := other;
    r := Transforms.Render(Transforms.Compare(content.value, content2.value));
  }
}
