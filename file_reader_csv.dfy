/** The CSV reader: `read` detects the delimiter, deletes it from every line and
    ends each line with "\n"; the other operations apply the shared
    transformations to that normalised text, not to the raw bytes. */
module FileReaderCsv {
  import opened Wrappers
  import opened Sequences
  import opened JavaStrings
  import opened ByteInput
  import Transforms

  /** The candidate delimiters: comma first (the default), then semicolon. */
  const Delimiters: seq<char> := [',', ';']

  /** Semicolon when the raw content contains one anywhere, comma otherwise. */
  function Delimiter(raw: string): (d: char)
    ensures d == ';' <==> ';' in raw
    ensures d == ',' <==> ';' !in raw
  {
    if ';' in raw then Delimiters[1] else Delimiters[0]
  }

  /** One line's columns (`line.split(d)`) appended with nothing between them. */
  function StripLine(line: string, d: char): string
  {
    Concat(Split(line, d))
  }

  /** Every line stripped. */
  function StrippedLines(lines: seq<string>, d: char): (r: seq<string>)
    ensures |r| == |lines|
  {
    if lines == [] then [] else [StripLine(lines[0], d)] + StrippedLines(lines[1..], d)
  }

  lemma {:induction false} StrippedLineAt(lines: seq<string>, d: char, k: nat)
    requires k < |lines|
    ensures StrippedLines(lines, d)[k] == StripLine(lines[k], d)
  {
    if k > 0 {
      StrippedLineAt(lines[1..], d, k - 1);
    }
  }

  /** What `read` returns for raw content `raw`. */
  function Normalise(raw: string): string
  {
    Terminated(StrippedLines(Transforms.Lines(raw), Delimiter(raw)), "\n")
  }

  /** `read`: the byte loop, delimiter detection, then for every line its
      columns followed by "\n". */
  method Read(file: Option<seq<byte>>) returns (content: Option<string>)
    ensures file.None? ==> content.None?
    ensures file.Some? ==> content == Some(Normalise(Decode(file.value)))
  {
    var raw := ReadAll(file);
    if raw.None? {
      return None;
    }
    var fileContent := raw.value;
    var detected := Delimiters[0];
    if Delimiters[1] in fileContent {
      detected := Delimiters[1];
    }
    var lines := Split(fileContent, '\n');
    var result := "";
    for i := 0 to |lines|
      invariant result == Terminated(StrippedLines(lines, detected)[..i], "\n")
    {
      var columns := Split(lines[i], detected);
      result := AppendColumns(result, columns);
      result := result + "\n";
      StrippedPrefixStep(lines, detected, i);
    }
    assert StrippedLines(lines, detected)[..|lines|] == StrippedLines(lines, detected);
    content := Some(result);
  }

  /** One more line of the output: the next stripped line and its "\n". */
  lemma StrippedPrefixStep(lines: seq<string>, d: char, i: nat)
    requires i < |lines|
    ensures Terminated(StrippedLines(lines, d)[..i + 1], "\n") ==
            Terminated(StrippedLines(lines, d)[..i], "\n") + Concat(Split(lines[i], d)) + "\n"
  {
    var stripped := StrippedLines(lines, d);
    StrippedLineAt(lines, d, i);
    assert stripped[..i + 1] == stripped[..i] + [stripped[i]];
    TerminatedSnoc(stripped[..i], stripped[i], "\n");
  }

  /** The inner loop of `read`: append every column, with "" between them. */
  method AppendColumns(sb: string, columns: seq<string>) returns (r: string)
    ensures r == sb + Concat(columns)
  {
    r := sb;
    for j := 0 to |columns|
      invariant r == sb + Concat(columns[..j])
    {
      assert columns[..j + 1] == columns[..j] + [columns[j]];
      ConcatSnoc(columns[..j], columns[j]);
      r := r + columns[j] + "";
    }
    assert columns[..|columns|] == columns;
  }

  /** A line's columns, concatenated, are the line with every delimiter deleted;
      a line without the delimiter is unchanged. */
  lemma StripLineRemoves(line: string, d: char)
    ensures StripLine(line, d) == Remove(line, d)
    ensures d !in line ==> StripLine(line, d) == line
  {
    ConcatSplit(line, d);
    if d !in line {
      RemoveAbsent(line, d);
    }
  }

  /** Line k of the output (cutting at "\n") is raw line k with the delimiter
      deleted, there is one output line per raw line, and nothing follows the
      final "\n". */
  lemma NormaliseLines(raw: string)
    ensures var lines := Transforms.Lines(raw);
            var out := Pieces(Normalise(raw), '\n');
            |out| == |lines| + 1 && out[|lines|] == "" &&
            forall k :: 0 <= k < |lines| ==> out[k] == Remove(lines[k], Delimiter(raw))
    ensures Count(Normalise(raw), '\n') == |Transforms.Lines(raw)|
  {
    var lines := Transforms.Lines(raw);
    var d := Delimiter(raw);
    var stripped := StrippedLines(lines, d);
    forall k | 0 <= k < |lines| ensures stripped[k] == Remove(lines[k], d) && '\n' !in stripped[k] {
      StrippedLineAt(lines, d, k);
      StripLineRemoves(lines[k], d);
      RemovePreservesAbsent(lines[k], d, '\n');
    }
    PiecesTerminated(stripped, '\n');
    PiecesCount(Normalise(raw), '\n');
  }

  /** Deleting elements cannot introduce a value. */
  lemma {:induction false} RemovePreservesAbsent(s: string, d: char, x: char)
    requires x !in s
    ensures x !in Remove(s, d)
  {
    if s != [] {
      assert x !in s[1..] by {
        assert forall k :: 0 <= k < |s| - 1 ==> s[1..][k] == s[k + 1];
      }
      RemovePreservesAbsent(s[1..], d, x);
    }
  }

  /** Empty raw content is one empty line, so `read` gives "\n". */
  lemma NormaliseEmpty()
    ensures Normalise("") == "\n"
  {
    assert Transforms.Lines("") == [""];
    assert Split("", ',') == [""];
    assert StripLine("", ',') == "";
    assert StrippedLines([""], ',') == [""];
  }

  lemma {:induction false} RemoveTerminated(ls: seq<string>, x: char)
    requires forall i :: 0 <= i < |ls| ==> x !in ls[i]
    ensures Remove(Terminated(ls, [x]), x) == Concat(ls)
  {
    if ls != [] {
      var rest := Terminated(ls[1..], [x]);
      assert Terminated(ls, [x]) == ls[0] + [x] + rest;
      assert forall i :: 0 <= i < |ls| - 1 ==> ls[1..][i] == ls[i + 1];
      RemoveTerminated(ls[1..], x);
      RemoveStep(ls[0], x, rest);
    }
  }

  lemma {:induction false} ConcatStripped(lines: seq<string>, d: char)
    ensures Concat(StrippedLines(lines, d)) == Remove(Concat(lines), d)
  {
    if lines != [] {
      ConcatStripped(lines[1..], d);
      StripLineRemoves(lines[0], d);
      RemoveAppend(lines[0], Concat(lines[1..]), d);
      assert StrippedLines(lines, d)[1..] == StrippedLines(lines[1..], d);
    }
  }

  /** Apart from line ends, the output is the raw content with the delimiter
      deleted and nothing else changed; so with ';' detected every ',' is kept. */
  lemma NormaliseKeepsOthers(raw: string)
    ensures Remove(Normalise(raw), '\n') == Remove(Remove(raw, '\n'), Delimiter(raw))
    ensures Delimiter(raw) !in Normalise(raw)
    ensures Delimiter(raw) == ';' ==> Count(Normalise(raw), ',') == Count(raw, ',')
  {
    var lines := Transforms.Lines(raw);
    var d := Delimiter(raw);
    var stripped := StrippedLines(lines, d);
    var out := Normalise(raw);
    forall k | 0 <= k < |lines| ensures '\n' !in stripped[k] && d !in stripped[k] {
      StrippedLineAt(lines, d, k);
      StripLineRemoves(lines[k], d);
      RemovePreservesAbsent(lines[k], d, '\n');
    }
    RemoveTerminated(stripped, '\n');
    ConcatStripped(lines, d);
    ConcatSplit(raw, '\n');
    TerminatedAbsent(stripped, "\n", d);
    if d == ';' {
      RemoveKeepsCount(out, '\n', ',');
      RemoveKeepsCount(Remove(raw, '\n'), ';', ',');
      RemoveKeepsCount(raw, '\n', ',');
    }
  }

  /** A value absent from every piece and from the terminator is absent from the result. */
  lemma {:induction false} TerminatedAbsent(ls: seq<string>, t: string, x: char)
    requires forall i :: 0 <= i < |ls| ==> x !in ls[i]
    requires x !in t
    ensures x !in Terminated(ls, t)
  {
    if ls != [] {
      TerminatedAbsent(ls[1..], t, x);
    }
  }

  /** `readReverseLine` on the normalised content. */
  method ReadReverseLine(file: Option<seq<byte>>) returns (r: string)
    requires file.Some?
    ensures r == Transforms.ReverseLinesOf(Normalise(Decode(file.value)))
  {
    var content := Read(file);
    r := Transforms.ReverseLines(content.value);
  }

  /** `readPalindrome` on the normalised content. */
  method ReadPalindrome(file: Option<seq<byte>>) returns (r: string)
    requires file.Some?
    ensures r == Transforms.PalindromeOf(Normalise(Decode(file.value)))
  {
    var content := Read(file);
    r := Transforms.Palindrome(content.value);
  }

  /** `compare`: this file's normalised content against what the other reader's
      `read` returned. */
  method Compare(file: Option<seq<byte>>, other: Option<string>) returns (r: string)
    requires file.Some? && other.Some?
    ensures r == Transforms.Render(Transforms.Compare(Normalise(Decode(file.value)), other.value))
  {
    var content := Read(file);
    var content2 := other;
    r := Transforms.Render(Transforms.Compare(content.value, content2.value));
  }
}
