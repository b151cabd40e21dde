# fileReader in Dafny

A model of the fileReader command-line tool. The tool takes zero, one or two file
paths and picks a reader by suffix: `FileReaderTxt` for `.txt`, `FileReaderCsv` for `.csv`.
With one file it prints:

- the file's content;
- the file with its lines in reverse order;
- the "palindrome": the whitespace-separated words in reverse order, each spelled backwards.

With two files it prints both line counts and whether the contents are identical.

The model has eight modules:

- `Wrappers` (`sequences.dfy`): `Option` stands for Java's `null`; `Result` stands for a thrown exception.
- `Sequences` (`sequences.dfy`): reversal, the "each piece followed by a terminator" string builder (`Terminated`), concatenation, counting and deletion.
- `JavaStrings` (`java_strings.dfy`): the three `String.split` forms the program uses:
  - on `"\n"`;
  - on a one-character delimiter;
  - on the regex `\s+`.

  Java semantics are kept exactly. A string without a match splits to itself, so `""` gives `[""]`. Trailing empty strings are dropped, so `"\n"` gives `[]`. A leading match keeps a leading `""`.
- `ByteInput` (`byte_input.dfy`): the byte-by-byte read loop, where each byte is widened to a character of the same code.
- `Transforms` (`transforms.dfy`): the bodies of `readReverseLine`, `readPalindrome` and `compare`. Both readers share them.
- `FileReaderTxt` (`file_reader_txt.dfy`): the text reader.
- `FileReaderCsv` (`file_reader_csv.dfy`): the CSV reader. Its `read` picks `;` as the delimiter if the content contains one, otherwise `,`. It deletes every occurrence of that delimiter and ends every line with `"\n"`.
- `Dispatcher` (`dispatcher.dfy`): the class `FileReader` with its three fields, constructors, getters and setters, plus `simplerReaderConstructor`, `affiche` and the argument-count branch of `main`.

How the environment is modelled:

- A file's content is a value `Option<seq<byte>>`, where `None` means `open` failed.
- The file system is a map from path to bytes.
- Whether `assets/test.txt` exists is a boolean input.

The loops of the source are methods with loop invariants:

- the `read` while-loop;
- the count-down loops of `readReverseLine` and `readPalindrome`;
- the nested column loop of the CSV `read`.

Each method is proved equal to a specification function (`Decode`, `ReverseLinesOf`, `PalindromeOf`, `Normalise`). The lemmas about those functions state what the program promises.

Some behaviours follow the code where a plain description would say otherwise:

- `readPalindrome` of empty content is `" "`, not `""`. Java splits `""` on `\s+` into `[""]`, so one empty word is written with its space (`Transforms.PalindromeOfEmptyOrBlank`). Content made only of whitespace gives `""`.
- Reversing lines twice restores the line sequence exactly when the content does not start with `"\n"` followed, somewhere, by another character (`Transforms.ReverseLinesTwiceExactly`). Empty content and content made only of newlines come back too. For `"\na"`, the lines are `["", "a"]`. One reversal gives `"a\n\n"` and a second gives `"a\n"`, whose only line is `"a"`: the leading empty line is gone (`Transforms.ReverseLinesTwiceLeadingEmptyLine`).
- Applying the palindrome twice restores the words exactly when the content does not start with whitespace followed, somewhere, by a non-whitespace character (`Transforms.PalindromeTwiceExactly`). Empty content and whitespace-only content come back too. Otherwise a leading `\s+` match produces a leading empty word, which ends up as a trailing blank and is dropped by the next split.

## Model

| member | source | states |
|---|---|---|
| ByteInput.ToChar | src/fileReader/concreteFileReader/FileReaderTxt.java:58 | `(char) c` keeps the byte's numeric code |
| ByteInput.Decode | src/fileReader/concreteFileReader/FileReaderTxt.java:56-59 | one character per byte, in file order, each with the byte's code (0..255) |
| ByteInput.EncodeDecode | src/fileReader/concreteFileReader/FileReaderTxt.java:56-66 | read content is single-byte text and re-encoding it gives back exactly the file's bytes |
| ByteInput.NextByte | src/fileReader/concreteFileReader/FileReaderTxt.java:57 | `InputStream.read()` yields -1 exactly at the end, otherwise the next byte |
| ByteInput.ReadAll | src/fileReader/concreteFileReader/FileReaderTxt.java:48-67 | failed open gives `None`; otherwise the while-loop's builder is every byte widened, in order |
| JavaStrings.IsWhitespace | src/fileReader/concreteFileReader/FileReaderTxt.java:99 | the characters of Java's `\s` class: space, tab, newline, vertical tab, form feed, carriage return |
| JavaStrings.EndsWith | src/fileReader/FileReader.java:115-118 | `String.endsWith`: the last characters of the string are the suffix |
| JavaStrings.IndexOf | src/fileReader/concreteFileReader/FileReaderTxt.java:78 | the position of the first separator (or the length): no separator before it, the separator at it |
| JavaStrings.Pieces | src/fileReader/concreteFileReader/FileReaderTxt.java:78 | the raw pieces between separators: at least one, none containing the separator |
| JavaStrings.JoinPieces | src/fileReader/concreteFileReader/FileReaderTxt.java:78 | joining the raw pieces with the separator gives the string back |
| JavaStrings.PiecesCount | src/fileReader/concreteFileReader/FileReaderTxt.java:78 | there is one more raw piece than separators |
| JavaStrings.DropTrailingEmpty | src/fileReader/concreteFileReader/FileReaderTxt.java:78 | split's limit-0 rule: a prefix ending in a nonempty piece, only empty pieces dropped |
| JavaStrings.Split | src/fileReader/concreteFileReader/FileReaderTxt.java:78 | no field contains the separator; no match gives `[s]`; otherwise a prefix of the raw pieces ending nonempty |
| JavaStrings.ConcatSplit | src/fileReader/concreteFileReader/FileReaderCsv.java:82-85 | the fields of a split, concatenated, are the string with every separator deleted |
| JavaStrings.SplitCount | src/fileReader/concreteFileReader/FileReaderTxt.java:122-123 | the field count is at most the separator count plus one, equal when the string is empty or does not end in the separator |
| JavaStrings.SplitFirst | src/fileReader/concreteFileReader/FileReaderTxt.java:78 | a string not starting with the separator has a nonempty first field |
| JavaStrings.SplitLeading | src/fileReader/concreteFileReader/FileReaderTxt.java:78 | a leading separator followed somewhere by another character gives an empty first field and at least one more |
| JavaStrings.SeparatorsOnly | src/fileReader/concreteFileReader/FileReaderTxt.java:78 | a nonempty string made only of separators splits into no fields |
| JavaStrings.SplitTerminated | src/fileReader/concreteFileReader/FileReaderTxt.java:78-85 | separator-free lines, the last nonempty, written each with a separator, split back into those lines |
| JavaStrings.WhitespaceRun | src/fileReader/concreteFileReader/FileReaderTxt.java:99 | `\s+` matches greedily: a run of whitespace ended by a non-whitespace character or the end |
| JavaStrings.WordPieces | src/fileReader/concreteFileReader/FileReaderTxt.java:99 | the substrings between maximal whitespace runs, the trailing one included: at least one |
| JavaStrings.WordPiecesJoin | src/fileReader/concreteFileReader/FileReaderTxt.java:99 | putting the matched whitespace runs back between the pieces gives the string; one nonempty run between each two neighbouring pieces, so the cut points are fixed |
| JavaStrings.WordPiecesShape | src/fileReader/concreteFileReader/FileReaderTxt.java:99 | pieces between whitespace runs contain no whitespace, only the first and last can be empty, and the first is nonempty when the content starts with a non-whitespace character |
| JavaStrings.SplitWhitespace | src/fileReader/concreteFileReader/FileReaderTxt.java:99 | words contain no whitespace, all but the first are nonempty, no match gives `[s]`; otherwise the words are the pieces between whitespace runs with only trailing empty ones dropped, and the last word is nonempty |
| JavaStrings.SplitWhitespaceFirst | src/fileReader/concreteFileReader/FileReaderTxt.java:99 | content starting with a non-whitespace character has a nonempty first word |
| JavaStrings.SplitWhitespaceSpaced | src/fileReader/concreteFileReader/FileReaderTxt.java:99-104 | nonempty words each followed by one space split back into exactly those words |
| Sequences.Reversed | src/fileReader/concreteFileReader/FileReaderTxt.java:82 | element k of the result is element n-1-k of the input |
| Sequences.ReversedTwice | src/fileReader/concreteFileReader/FileReaderTxt.java:82 | reversing twice is the identity |
| Sequences.TerminatedSnoc | src/fileReader/concreteFileReader/FileReaderTxt.java:83 | appending one more piece and terminator extends the builder's text |
| Sequences.TerminatedLength | src/fileReader/concreteFileReader/FileReaderTxt.java:102 | the builder's length is the pieces' total length plus one terminator per piece |
| Sequences.RemoveKeepsCount | src/fileReader/concreteFileReader/FileReaderCsv.java:82-85 | deleting one character leaves the count of every other character unchanged |
| Transforms.Lines | src/fileReader/concreteFileReader/FileReaderTxt.java:78 | `content.split("\n")`: no line contains a newline, and content without one is its only line |
| Transforms.Words | src/fileReader/concreteFileReader/FileReaderTxt.java:99 | `content.split("\\s+")`: no word contains whitespace, and content without any is its only word |
| Transforms.ReverseLinesOf | src/fileReader/concreteFileReader/FileReaderTxt.java:78-85 | the lines last to first, each followed by "\n"; its length is the lines' total length plus one per line |
| Transforms.ReverseLines | src/fileReader/concreteFileReader/FileReaderTxt.java:78-85 | the count-down loop builds the lines last to first, each followed by "\n" |
| Transforms.ReverseLinesPieces | src/fileReader/concreteFileReader/FileReaderTxt.java:78-85 | cutting the output at "\n" gives the input's lines reversed, then one empty piece |
| Transforms.ReverseLinesShape | src/fileReader/concreteFileReader/FileReaderTxt.java:78-84 | the output has exactly one "\n" per line, is empty only when there are no lines, and otherwise ends in "\n" |
| Transforms.ReverseLinesOfEmpty | src/fileReader/concreteFileReader/FileReaderTxt.java:78-85 | empty content gives "\n" |
| Transforms.ReverseLinesTwice | src/fileReader/concreteFileReader/FileReaderTxt.java:78-85 | when the first line is nonempty, re-splitting the output gives the lines reversed, reversing twice writes the lines in order, and their split is the original lines |
| Transforms.ReverseLinesTwiceExactly | src/fileReader/concreteFileReader/FileReaderTxt.java:78-85 | reversing twice gives back the lines if and only if the content does not start with "\n" followed by some other character |
| Transforms.NewlinesOnly | src/fileReader/concreteFileReader/FileReaderTxt.java:78-85 | content made only of newlines has no lines and reverses to "" |
| Transforms.LeadingEmptyLineLost | src/fileReader/concreteFileReader/FileReaderTxt.java:78-85 | with such a leading empty line, the lines after two reversals differ from the original lines |
| Transforms.ReverseLinesTwiceLeadingEmptyLine | src/fileReader/concreteFileReader/FileReaderTxt.java:78-85 | "\na" reversed twice is "a\n": a leading empty line is lost |
| Transforms.TwoLines | src/fileReader/concreteFileReader/FileReaderTxt.java:78-85 | two newline-free lines, the second nonempty, split into exactly those lines and come out second first, each followed by "\n" |
| Transforms.TrailingNewlines | src/fileReader/concreteFileReader/FileReaderTxt.java:78 | one or two trailing newlines after a nonempty line produce no extra line |
| Transforms.ReverseLinesOfHelloWorld | src/fileReader/concreteFileReader/FileReaderTxt.java:78-85 | "hello\nworld" gives "world\nhello\n" |
| Transforms.ReverseEach | src/fileReader/concreteFileReader/FileReaderTxt.java:101 | word k of the result is word k spelled backwards |
| Transforms.PalindromeOf | src/fileReader/concreteFileReader/FileReaderTxt.java:98-104 | the words last to first, each spelled backwards and followed by one space; its length and words are stated by the lemmas below |
| Transforms.Palindrome | src/fileReader/concreteFileReader/FileReaderTxt.java:98-104 | the count-down loop builds the words last to first, each reversed and followed by one space |
| Transforms.PalindromeLength | src/fileReader/concreteFileReader/FileReaderTxt.java:99-104 | output length is the words' total length plus the word count |
| Transforms.PalindromeOfEmptyOrBlank | src/fileReader/concreteFileReader/FileReaderTxt.java:99-104 | empty content gives " "; nonempty all-whitespace content gives "" |
| Transforms.ConcatWords | src/fileReader/concreteFileReader/FileReaderTxt.java:99 | the words, concatenated, are the content with all whitespace deleted: splitting loses only whitespace |
| Transforms.ReverseEachReversedTwice | src/fileReader/concreteFileReader/FileReaderTxt.java:100-101 | reversing word order and each word, twice, gives back the words |
| Transforms.PalindromeWords | src/fileReader/concreteFileReader/FileReaderTxt.java:99-104 | when the content starts with a word, the output's words are the input's words reversed in order and each spelled backwards |
| Transforms.PalindromeTwice | src/fileReader/concreteFileReader/FileReaderTxt.java:99-104 | under the same condition, applying the transform twice writes the original words in order with single spaces, and they split back into the original words |
| Transforms.PalindromeTwiceExactly | src/fileReader/concreteFileReader/FileReaderTxt.java:99-104 | applying the transform twice gives back the words if and only if the content does not start with whitespace followed by some non-whitespace character |
| Transforms.LeadingBlankLost | src/fileReader/concreteFileReader/FileReaderTxt.java:99-104 | with such a leading blank, the words after two applications differ from the original words |
| Transforms.WordsLeading | src/fileReader/concreteFileReader/FileReaderTxt.java:99 | such a leading blank gives an empty first word and at least one more |
| Transforms.WordsOfBlank | src/fileReader/concreteFileReader/FileReaderTxt.java:99 | nonempty content made only of whitespace has no words |
| Transforms.TwoWords | src/fileReader/concreteFileReader/FileReaderTxt.java:99-104 | two nonempty whitespace-free words joined by a space split into exactly those words, and come out second first, each spelled backwards and followed by a space |
| Transforms.PalindromeOfHelloWorld | src/fileReader/concreteFileReader/FileReaderTxt.java:99-104 | "hello world" gives "dlrow olleh " |
| Transforms.Compare | src/fileReader/concreteFileReader/FileReaderTxt.java:122-127 | the verdict is "identical" exactly when the contents are equal; equal contents give equal counts; each count is at most newlines plus one |
| Transforms.CompareLineCount | src/fileReader/concreteFileReader/FileReaderTxt.java:122-123 | content not ending in "\n" has one line more than newlines; empty content counts one line |
| Transforms.Decimal | src/fileReader/concreteFileReader/FileReaderTxt.java:125-126 | the count is rendered as one or more decimal digits, without leading zeros: the first digit is `0` only for the count 0, whose rendering is that single digit |
| Transforms.DecimalValue | src/fileReader/concreteFileReader/FileReaderTxt.java:125-126 | the rendered digits read back as the count |
| Transforms.Render | src/fileReader/concreteFileReader/FileReaderTxt.java:125-127 | the report text: both line counts in decimal, then the closing sentence chosen by the verdict (stated by `RenderVerdict`) |
| Transforms.RenderVerdict | src/fileReader/concreteFileReader/FileReaderTxt.java:125-127 | the report ends with the "identiques" sentence exactly when identical and with the "différents" sentence exactly when not |
| FileReaderTxt.Read | src/fileReader/concreteFileReader/FileReaderTxt.java:48-67 | failed open gives `None`; otherwise the decoded bytes |
| FileReaderTxt.ReadReverseLine | src/fileReader/concreteFileReader/FileReaderTxt.java:75-86 | the line reversal of the raw content |
| FileReaderTxt.ReadPalindrome | src/fileReader/concreteFileReader/FileReaderTxt.java:95-105 | the word reversal of the raw content |
| FileReaderTxt.Compare | src/fileReader/concreteFileReader/FileReaderTxt.java:117-128 | the report of this file's raw content against the other reader's `read` result |
| FileReaderCsv.Delimiter | src/fileReader/concreteFileReader/FileReaderCsv.java:73-76 | ';' exactly when the raw content contains ';', ',' exactly when it does not |
| FileReaderCsv.StripLine | src/fileReader/concreteFileReader/FileReaderCsv.java:82-85 | one line's columns appended with nothing between them (stated as delimiter deletion by `StripLineRemoves`) |
| FileReaderCsv.StrippedLines | src/fileReader/concreteFileReader/FileReaderCsv.java:81-87 | one stripped line per raw line |
| FileReaderCsv.StrippedLineAt | src/fileReader/concreteFileReader/FileReaderCsv.java:81-87 | stripped line k is raw line k's columns concatenated |
| FileReaderCsv.Normalise | src/fileReader/concreteFileReader/FileReaderCsv.java:73-89 | what `read` returns: every line stripped of the detected delimiter and followed by "\n" (stated by `NormaliseLines` and `NormaliseKeepsOthers`) |
| FileReaderCsv.Read | src/fileReader/concreteFileReader/FileReaderCsv.java:53-90 | failed open gives `None`; otherwise, after delimiter detection, each line's columns followed by "\n" |
| FileReaderCsv.AppendColumns | src/fileReader/concreteFileReader/FileReaderCsv.java:83-85 | the inner loop appends all columns, with nothing between them |
| FileReaderCsv.StripLineRemoves | src/fileReader/concreteFileReader/FileReaderCsv.java:82-86 | a stripped line is the line with every delimiter deleted; a line without the delimiter passes unchanged |
| FileReaderCsv.NormaliseLines | src/fileReader/concreteFileReader/FileReaderCsv.java:79-89 | output line k is raw line k with the delimiter deleted; one output line and one "\n" per raw line, nothing after the last "\n" |
| FileReaderCsv.NormaliseEmpty | src/fileReader/concreteFileReader/FileReaderCsv.java:79-89 | empty raw content gives "\n" |
| FileReaderCsv.NormaliseKeepsOthers | src/fileReader/concreteFileReader/FileReaderCsv.java:73-87 | apart from newlines the output is the raw content minus the delimiter; the delimiter never appears; with ';' detected the number of ',' is kept |
| FileReaderCsv.ReadReverseLine | src/fileReader/concreteFileReader/FileReaderCsv.java:98-109 | the line reversal of the stripped content, not of the raw bytes |
| FileReaderCsv.ReadPalindrome | src/fileReader/concreteFileReader/FileReaderCsv.java:118-128 | the word reversal of the stripped content |
| FileReaderCsv.Compare | src/fileReader/concreteFileReader/FileReaderCsv.java:140-151 | the report of the stripped content against the other reader's `read` result; identical exactly when they are equal |
| Dispatcher.Open | src/fileReader/AbstractFileReader.java:55-62 | `open`: the file's bytes, or `None` (null) when it cannot be opened |
| Dispatcher.SuffixesExclusive | src/fileReader/FileReader.java:115-118 | no path ends in both ".txt" and ".csv" |
| Dispatcher.SimplerReaderConstructor | src/fileReader/FileReader.java:113-127 | a Txt reader exactly for ".txt", a Csv reader exactly for ".csv", no reader exactly for any other suffix |
| Dispatcher.ContentOf | src/fileReader/FileReader.java:138 | what the reader class's `read` returns on the file at its path: raw text for Txt, normalised text for Csv, `None` when it does not open |
| Dispatcher.Read | src/fileReader/FileReader.java:138 | `read` of the reader's class on the file at its path |
| Dispatcher.ReadReverseLine | src/fileReader/FileReader.java:140 | `readReverseLine` of the reader's class: the line reversal of what its `read` returns |
| Dispatcher.ReadPalindrome | src/fileReader/FileReader.java:142 | `readPalindrome` of the reader's class: the word reversal of what its `read` returns |
| Dispatcher.Compare | src/fileReader/FileReader.java:149 | `compare` of the first reader's class on both readers' `read` results |
| Dispatcher.CompareSelf | src/fileReader/concreteFileReader/FileReaderTxt.java:122-127 | a file compared with itself has equal counts and is reported identical |
| Dispatcher.Displayable | src/fileReader/FileReader.java:134-151 | the configurations `affiche` runs through without a NullPointerException |
| Dispatcher.FileReader.Default | src/fileReader/FileReader.java:17-29 | the default path, or no file when it does not exist; no second file; `isSimpleResult` true |
| Dispatcher.FileReader.One | src/fileReader/FileReader.java:36-38 | the given file, no second file, `isSimpleResult` true |
| Dispatcher.FileReader.Two | src/fileReader/FileReader.java:46-49 | both given files, `isSimpleResult` true |
| Dispatcher.FileReader.GetFile | src/fileReader/FileReader.java:56-58 | the first file field |
| Dispatcher.FileReader.GetFile2 | src/fileReader/FileReader.java:65-67 | the second file field |
| Dispatcher.FileReader.GetIsSimpleResult | src/fileReader/FileReader.java:74-76 | the flag field |
| Dispatcher.FileReader.SetFile | src/fileReader/FileReader.java:83-85 | sets the first file and leaves the other fields unchanged |
| Dispatcher.FileReader.SetFile2 | src/fileReader/FileReader.java:92-94 | sets the second file and leaves the other fields unchanged |
| Dispatcher.FileReader.SetIsSimpleResult | src/fileReader/FileReader.java:101-103 | sets the flag and leaves the files unchanged |
| Dispatcher.FileReader.Affiche | src/fileReader/FileReader.java:134-151 | single-file mode exactly when there is no second file: content, reversed lines and palindrome; otherwise both paths and the comparison report |
| Dispatcher.Start | src/fileReader/FileReader.java:160-175 | 0 arguments give the default file, 1 a single file, 2 both files; more than 2 fail with the count before any reader exists |
| Dispatcher.Run | src/fileReader/FileReader.java:160-179 | `main` fails exactly for more than 2 arguments, and otherwise displays in single mode exactly for fewer than 2 |

## Left out

- Opening and closing streams (`AbstractFileReader.open`/`close`) are not modelled. A file is its byte sequence, or `None` when `open` fails.
- An `IOException` in the middle of the read loop is not modelled. The model reads every byte.
- Printing is not modelled: the section headers, the echo of each argument in `main`, and the diagnostics on standard error. `affiche` returns what it would print, as a `Display` value.
- `File.exists()` is a boolean input of the default constructor. `File.getPath()` normalisation of separators is not modelled: a path is the string given.
- `FileReaderInterface` holds only declarations. `AbstractFileReader.toString` and `getFilePath` are plain accessors. The readers' String-path constructors are never called by `FileReader`, which always passes a `File`. In the model a reader carries its path directly.
- Only the three splits the program uses are modelled, not a general regex engine: on `"\n"`, on `,`/`;`, and on `\s+`.
- FileReaderTxt.ReadReverseLine, FileReaderTxt.ReadPalindrome, FileReaderCsv.ReadReverseLine and FileReaderCsv.ReadPalindrome: require a file that opens. The source dereferences a null `read()` result there and throws NullPointerException.
- FileReaderTxt.Compare and FileReaderCsv.Compare: require both contents to be present, for the same reason.
- Dispatcher.ReadReverseLine, Dispatcher.ReadPalindrome and Dispatcher.Compare: require readable files, for the same reason.
- Dispatcher.FileReader.Affiche: requires `Displayable`. The source throws NullPointerException when the first file is missing, when a suffix yields no reader, or when a needed file does not open.
- Dispatcher.Run: requires the configured files to be `Displayable`, like `Affiche`. Its contract states only the error and the mode. The displayed values are stated by `Dispatcher.FileReader.Affiche` and `Dispatcher.Start`.
- Java `char` is 16 bits, while a Dafny `char` is a Unicode scalar value. Every character the readers build is a widened byte (0..255), and every literal used is below 256, so the two agree on everything the model computes.
