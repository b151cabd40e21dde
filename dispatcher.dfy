/** The entry class `FileReader`: which reader a path gets (by suffix), which
    files a command line configures (by argument count), and what `affiche`
    shows (one file, or a comparison of two). The file system is a value: a map
    from the paths that `open` succeeds on to their bytes. */
module Dispatcher {
  import opened Wrappers
  import opened JavaStrings
  import opened ByteInput
  import Transforms
  import FileReaderTxt
  import FileReaderCsv

  /** A `java.io.File`; only its path is used. */
  datatype File = File(path: string)

  /** The concrete reader classes. */
  datatype Kind = Txt | Csv

  /** A reader object: its class and the path it reads. */
  datatype Reader = Reader(kind: Kind, path: string)

  /** The sample file used when no argument is given. */
  const DefaultPath: string := "assets/test.txt"

  type FileSystem = map<string, seq<byte>>

  /** `open(path)`: the bytes, or `None` when the file cannot be opened. */
  function Open(fs: FileSystem, path: string): Option<seq<byte>>
  {
    if path in fs then Some(fs[path]) else None
  }

  /** No path ends in both ".txt" and ".csv". */
  lemma SuffixesExclusive(path: string)
    ensures !(EndsWith(path, ".txt") && EndsWith(path, ".csv"))
  {
  }

  /** `simplerReaderConstructor`: ".txt" gives a Txt reader, ".csv" a Csv reader,
      any other suffix no reader (the IllegalArgumentException is caught there and
      only reported). */
  function SimplerReaderConstructor(file: File): (r: Option<Reader>)
    ensures r == Some(Reader(Txt, file.path)) <==> EndsWith(file.path, ".txt")
    ensures r == Some(Reader(Csv, file.path)) <==> EndsWith(file.path, ".csv")
    ensures r.None? <==> !EndsWith(file.path, ".txt") && !EndsWith(file.path, ".csv")
  {
    SuffixesExclusive(file.path);
    if EndsWith(file.path, ".txt") then Some(Reader(Txt, file.path))
    else if EndsWith(file.path, ".csv") then Some(Reader(Csv, file.path))
    else None
  }

  /** What `reader.read()` returns on file system `fs`. */
  function ContentOf(reader: Reader, fs: FileSystem): Option<string>
  {
    match Open(fs, reader.path)
    case None => None
    case Some(bytes) =>
      Some(if reader.kind == Txt then Decode(bytes) else FileReaderCsv.Normalise(Decode(bytes)))
  }

  /** `reader.read()`, dispatched on the reader's class. */
  method Read(reader: Reader, fs: FileSystem) returns (content: Option<string>)
    ensures content == ContentOf(reader, fs)
  {
    var file := Open(fs, reader.path);
    if reader.kind == Txt {
      content := FileReaderTxt.Read(file);
    } else {
      content := FileReaderCsv.Read(file);
    }
  }

  /** `reader.readReverseLine()`: the line reversal of what `read` returns. */
  method ReadReverseLine(reader: Reader, fs: FileSystem) returns (r: string)
    requires ContentOf(reader, fs).Some?
    ensures r == Transforms.ReverseLinesOf(ContentOf(reader, fs).value)
  {
    var file := Open(fs, reader.path);
    if reader.kind == Txt {
      r := FileReaderTxt.ReadReverseLine(file);
    } else {
      r := FileReaderCsv.ReadReverseLine(file);
    }
  }

  /** `reader.readPalindrome()`: the word reversal of what `read` returns. */
  method ReadPalindrome(reader: Reader, fs: FileSystem) returns (r: string)
    requires ContentOf(reader, fs).Some?
    ensures r == Transforms.PalindromeOf(ContentOf(reader, fs).value)
  {
    var file := Open(fs, reader.path);
    if reader.kind == Txt {
      r := FileReaderTxt.ReadPalindrome(file);
    } else {
      r := FileReaderCsv.ReadPalindrome(file);
    }
  }

  /** `reader.compare(other)`: both readers' `read` results compared. */
  method Compare(reader: Reader, other: Reader, fs: FileSystem) returns (r: string)
    requires ContentOf(reader, fs).Some? && ContentOf(other, fs).Some?
    ensures r == Transforms.Render(Transforms.Compare(ContentOf(reader, fs).value, ContentOf(other, fs).value))
  {
    var file := Open(fs, reader.path);
    var content2 := Read(other, fs);
    if reader.kind == Txt {
      r := FileReaderTxt.Compare(file, content2);
    } else {
      r := FileReaderCsv.Compare(file, content2);
    }
  }

  /** Comparing a reader with itself always reports equal line counts and identical files. */
  lemma CompareSelf(reader: Reader, fs: FileSystem)
    requires ContentOf(reader, fs).Some?
    ensures var c := ContentOf(reader, fs).value;
            Transforms.Compare(c, c) == Transforms.Report(|Transforms.Lines(c)|, |Transforms.Lines(c)|, true)
    ensures var c := ContentOf(reader, fs).value;
            EndsWith(Transforms.Render(Transforms.Compare(c, c)), Transforms.IdenticalText)
  {
    var c := ContentOf(reader, fs).value;
    Transforms.RenderVerdict(Transforms.Compare(c, c));
  }

  /** What `affiche` prints, section by section. */
  datatype Display =
    | Single(content: string, reversed: string, palindrome: string)
    | Comparison(path1: string, path2: string, report: string)

  /** The configurations `affiche` handles without a NullPointerException: a first
      file with a supported suffix, and in single mode a readable first file, in
      comparison mode a second file with a supported suffix and both readable. */
  predicate Displayable(file: Option<File>, file2: Option<File>, fs: FileSystem)
  {
    file.Some? && SimplerReaderConstructor(file.value).Some? &&
    (file2.None? ==> ContentOf(SimplerReaderConstructor(file.value).value, fs).Some?) &&
    (file2.Some? ==>
       SimplerReaderConstructor(file2.value).Some? &&
       ContentOf(SimplerReaderConstructor(file.value).value, fs).Some? &&
       ContentOf(SimplerReaderConstructor(file2.value).value, fs).Some?)
  }

  /** The error `main` raises (IllegalArgumentException) for too many arguments. */
  datatype ArgumentError = TooManyFiles(count: nat)

  class FileReader {
    var file: Option<File>
    var file2: Option<File>
    var isSimpleResult: bool

    /** `FileReader()`: the default sample file, or no file when it does not exist. */
    constructor Default(defaultExists: bool)
      ensures file == (if defaultExists then Some(File(DefaultPath)) else None)
      ensures file2 == None && isSimpleResult
    {
      file := Some(File(DefaultPath));
      file2 := None;
      isSimpleResult := true;
      if !defaultExists {
        file := None;
      }
    }

    /** `FileReader(String file)`. */
    constructor One(path: string)
      ensures file == Some(File(path)) && file2 == None && isSimpleResult
    {
      file := Some(File(path));
      file2 := None;
      isSimpleResult := true;
    }

    /** `FileReader(String file, String file2)`. */
    constructor Two(path: string, path2: string)
      ensures file == Some(File(path)) && file2 == Some(File(path2)) && isSimpleResult
    {
      file := Some(File(path));
      file2 := Some(File(path2));
      isSimpleResult := true;
    }

    function GetFile(): (f: Option<File>)
      reads this
      ensures f == file
    {
      file
    }

    function GetFile2(): (f: Option<File>)
      reads this
      ensures f == file2
    {
      file2
    }

    function GetIsSimpleResult(): (b: bool)
      reads this
      ensures b == isSimpleResult
    {
      isSimpleResult
    }

    /** `setFile`: only the first file changes. */
    method SetFile(f: Option<File>)
      modifies this
      ensures file == f
      ensures file2 == old(file2) && isSimpleResult == old(isSimpleResult)
    {
      file := f;
    }

    /** `setFile2`: only the second file changes. */
    method SetFile2(f: Option<File>)
      modifies this
      ensures file2 == f
      ensures file == old(file) && isSimpleResult == old(isSimpleResult)
    {
      file2 := f;
    }

    /** `setIsSimpleResult`: only the flag changes. */
    method SetIsSimpleResult(simpleRes: bool)
      modifies this
      ensures isSimpleResult == simpleRes
      ensures file == old(file) && file2 == old(file2)
    {
      isSimpleResult := simpleRes;
    }

    /** `affiche`: single-file mode exactly when there is no second file, showing
        the content, its line reversal and its palindrome; otherwise both paths and
        the comparison report. */
    method Affiche(fs: FileSystem) returns (out: Display)
      requires Displayable(file, file2, fs)
      ensures out.Single? <==> file2.None?
      ensures out.Single? ==>
                var c := ContentOf(SimplerReaderConstructor(file.value).value, fs).value;
                out == Single(c, Transforms.ReverseLinesOf(c), Transforms.PalindromeOf(c))
      ensures out.Comparison? ==>
                var c := ContentOf(SimplerReaderConstructor(file.value).value, fs).value;
                var c2 := ContentOf(SimplerReaderConstructor(file2.value).value, fs).value;
                out == Comparison(file.value.path, file2.value.path,
                                  Transforms.Render(Transforms.Compare(c, c2)))
    {
      var fileReader := SimplerReaderConstructor(file.value).value;
      if file2.None? {
        var content := Read(fileReader, fs);
        var reversed := ReadReverseLine(fileReader, fs);
        var palindrome := ReadPalindrome(fileReader, fs);
        out := Single(content.value, reversed, palindrome);
      } else {
        var fileReader2 := SimplerReaderConstructor(file2.value).value;
        var report := Compare(fileReader, fileReader2, fs);
        out := Comparison(fileReader.path, fileReader2.path, report);
      }
    }
  }

  /** The argument-count branch of `main`: 0 arguments use the default file, 1 or
      2 name the files, more raise an error before any reader is built. */
  method Start(args: seq<string>, defaultExists: bool) returns (r: Result<FileReader, ArgumentError>)
    ensures r.Failure? <==> |args| > 2
    ensures r.Failure? ==> r.error == TooManyFiles(|args|)
    ensures r.Success? ==> fresh(r.value) && r.value.isSimpleResult
    ensures |args| == 0 ==>
              r.Success? && r.value.file2 == None &&
              r.value.file == (if defaultExists then Some(File(DefaultPath)) else None)
    ensures |args| == 1 ==> r.Success? && r.value.file == Some(File(args[0])) && r.value.file2 == None
    ensures |args| == 2 ==>
              r.Success? && r.value.file == Some(File(args[0])) &&
              r.value.file2 == Some(File(args[1]))
  {
    if |args| == 0 {
      var main := new FileReader.Default(defaultExists);
      r := Success(main);
    } else if |args| == 1 {
      var main := new FileReader.One(args[0]);
      r := Success(main);
    } else if |args| == 2 {
      var main := new FileReader.Two(args[0], args[1]);
      r := Success(main);
    } else {
      r := Failure(TooManyFiles(|args|));
    }
  }

  /** `main`: configure from the arguments, then `affiche`. */
  method Run(args: seq<string>, defaultExists: bool, fs: FileSystem) returns (r: Result<Display, ArgumentError>)
    requires |args| == 0 ==> Displayable(if defaultExists then Some(File(DefaultPath)) else None, None, fs)
    requires |args| == 1 ==> Displayable(Some(File(args[0])), None, fs)
    requires |args| == 2 ==> Displayable(Some(File(args[0])), Some(File(args[1])), fs)
    ensures r.Failure? <==> |args| > 2
    ensures r.Success? ==> (r.value.Single? <==> |args| < 2)
  {
    var main := Start(args, defaultExists);
    if main.Failure? {
      return Failure(main.error);
    }
    var out := main.value.Affiche(fs);
    r := Success(out);
  }
}
