/** The transformations both readers apply to the text their `read` returns:
    line reversal (`readReverseLine`), word reversal (`readPalindrome`) and the
    two-file comparison report (`compare`). The Txt and Csv readers have textually
    identical bodies for these, so they are defined once here. */
module Transforms {
  import opened Sequences
  import opened JavaStrings

  /** `content.split("\n")`. */
  function Lines(content: string): (r: seq<string>)
    ensures forall i :: 0 <= i < |r| ==> '\n' !in r[i]
    ensures '\n' !in content ==> r == [content]
  {
    Split(content, '\n')
  }

  /** `content.split("\\s+")`. */
  function Words(content: string): (r: seq<string>)
    ensures forall i :: 0 <= i < |r| ==> NoWhitespace(r[i])
    ensures !HasWhitespace(content) ==> r == [content]
  {
    SplitWhitespace(content)
  }

  // ---------------------------------------------------------------------
  // readReverseLine
  // ---------------------------------------------------------------------

  /** The lines from the last to the first, each followed by "\n". */
  function ReverseLinesOf(content: string): (r: string)
    ensures |r| == SumLengths(Lines(content)) + |Lines(content)|
  {
    var rev := Reversed(Lines(content));
    TerminatedLength(rev, "\n");
    assert |rev| * |"\n"| == |Lines(content)|;
    SumLengthsReversed(Lines(content));
    Terminated(rev, "\n")
  }

  /** The count-down loop of `readReverseLine`, appending `lines[i]` and "\n". */
  method ReverseLines(content: string) returns (r: string)
    ensures r == ReverseLinesOf(content)
  {
    var lines := Split(content, '\n');
    var sb := "";
    var i := |lines| - 1;
    while i >= 0
      invariant -1 <= i < |lines|
      invariant sb == Terminated(Reversed(lines[i + 1..]), "\n")
    {
      assert lines[i..] == [lines[i]] + lines[i + 1..];
      ReversedCons(lines[i], lines[i + 1..]);
      TerminatedSnoc(Reversed(lines[i + 1..]), lines[i], "\n");
      sb := sb + lines[i] + "\n";
      i := i - 1;
    }
    assert lines[0..] == lines;
    r := sb;
  }

  /** Line k of the output (cutting at "\n") is line n-1-k of the input, and
      nothing follows the final "\n". */
  lemma ReverseLinesPieces(content: string)
    ensures Pieces(ReverseLinesOf(content), '\n') == Reversed(Lines(content)) + [""]
  {
    var rev := Reversed(Lines(content));
    assert forall i :: 0 <= i < |rev| ==> '\n' !in rev[i];
    PiecesTerminated(rev, '\n');
  }

  /** The output holds exactly one "\n" per input line; it is empty only when the
      content has no lines (it consists of newlines only), and otherwise ends in "\n". */
  lemma ReverseLinesShape(content: string)
    ensures Count(ReverseLinesOf(content), '\n') == |Lines(content)|
    ensures ReverseLinesOf(content) == [] <==> Lines(content) == []
    ensures ReverseLinesOf(content) != [] ==> ReverseLinesOf(content)[|ReverseLinesOf(content)| - 1] == '\n'
  {
    var rev := Reversed(Lines(content));
    ReverseLinesPieces(content);
    PiecesCount(ReverseLinesOf(content), '\n');
    TerminatedLast(rev, "\n");
  }

  /** Empty content is one empty line, reproduced with its newline. */
  lemma ReverseLinesOfEmpty()
    ensures ReverseLinesOf("") == "\n"
  {
    assert Lines("") == [""];
    assert Reversed([""]) == [""];
    assert Terminated([""], "\n") == "" + "\n" + Terminated([], "\n");
  }

  /** Reversing twice restores the line sequence, each line now ended by "\n",
      provided the first line is not empty. */
  lemma ReverseLinesTwice(content: string)
    requires Lines(content) != [] && Lines(content)[0] != ""
    ensures Lines(ReverseLinesOf(content)) == Reversed(Lines(content))
    ensures ReverseLinesOf(ReverseLinesOf(content)) == Terminated(Lines(content), "\n")
    ensures Lines(ReverseLinesOf(ReverseLinesOf(content))) == Lines(content)
  {
    var lines := Lines(content);
    var rev := Reversed(lines);
    assert forall i :: 0 <= i < |rev| ==> '\n' !in rev[i];
    SplitTerminated(rev, '\n');
    ReversedTwice(lines);
    SplitTerminated(lines, '\n');
  }

  /** The content starts with "\n" and holds some other character: its first
      line is empty and is not its only line. */
  predicate LeadingEmptyLine(content: string)
  {
    content != [] && content[0] == '\n' && exists i :: 0 <= i < |content| && content[i] != '\n'
  }

  /** Reversing the lines twice gives back the content's lines exactly when the
      content has no leading empty line: empty content, newlines only and content
      starting with another character all come back; otherwise the leading empty
      line is lost. */
  lemma ReverseLinesTwiceExactly(content: string)
    ensures Lines(ReverseLinesOf(ReverseLinesOf(content))) == Lines(content) <==>
            !LeadingEmptyLine(content)
  {
    if LeadingEmptyLine(content) {
      LeadingEmptyLineLost(content);
    } else if content == [] {
      ReverseLinesOfEmpty();
      NewlinesOnly("\n");
    } else if content[0] == '\n' {
      NewlinesOnly(content);
      ReverseLinesOfEmpty();
      NewlinesOnly("\n");
    } else {
      SplitFirst(content, '\n');
      ReverseLinesTwice(content);
    }
  }

  /** Content made only of newlines has no lines and reverses to "". */
  lemma NewlinesOnly(content: string)
    requires content != [] && forall i :: 0 <= i < |content| ==> content[i] == '\n'
    ensures Lines(content) == [] && ReverseLinesOf(content) == ""
  {
    SeparatorsOnly(content, '\n');
  }

  /** With a leading empty line the second reversal starts with a nonempty line,
      so the lines differ. */
  lemma LeadingEmptyLineLost(content: string)
    requires LeadingEmptyLine(content)
    ensures Lines(ReverseLinesOf(ReverseLinesOf(content))) != Lines(content)
  {
    var i :| 0 <= i < |content| && content[i] != '\n';
    SplitLeading(content, '\n', i);
    var once := ReverseLinesOf(content);
    var twice := ReverseLinesOf(once);
    var m := Lines(once);
    if m == [] {
      assert twice == [];
      assert Lines(twice) == [twice];
    } else {
      var rev := Reversed(Lines(content));
      assert once == rev[0] + "\n" + Terminated(rev[1..], "\n");
      assert once[|rev[0]|] == '\n';
      var last := m[|m| - 1];
      assert last != "" && '\n' !in last;
      var rm := Reversed(m);
      assert rm[0] == last;
      assert twice == rm[0] + "\n" + Terminated(rm[1..], "\n");
      assert twice[0] == last[0];
      SplitFirst(twice, '\n');
    }
  }

  /** Two lines, the second nonempty, are cut into those two lines, and the
      reversal writes the second line first. */
  lemma TwoLines(a: string, b: string)
    requires '\n' !in a && '\n' !in b && b != ""
    ensures Lines(a + "\n" + b) == [a, b]
    ensures ReverseLinesOf(a + "\n" + b) == b + "\n" + a + "\n"
  {
    var s := a + "\n" + b;
    assert s == a + ['\n'] + b;
    PiecesStep(a, '\n', b);
    NoSeparatorPieces(b, '\n');
    assert s[|a|] == '\n';
    assert [a] + [b] == [a, b];
    assert Reversed([a, b]) == [b, a];
    assert Terminated([b, a], "\n") == b + "\n" + Terminated([a], "\n");
  }

  /** A nonempty line followed by one or two newlines is that one line: trailing
      empty lines are not lines. */
  lemma TrailingNewlines(a: string)
    requires '\n' !in a && a != ""
    ensures Lines(a + "\n") == [a]
    ensures Lines(a + "\n\n") == [a]
  {
    assert a + "\n" == a + ['\n'] + "";
    PiecesStep(a, '\n', "");
    assert Pieces("", '\n') == [""];
    assert (a + "\n")[|a|] == '\n';
    assert [a] + [""] == [a, ""];
    DropTrailingEmptySnoc([a]);
    assert a + "\n\n" == a + ['\n'] + "\n";
    PiecesStep(a, '\n', "\n");
    assert "\n" == "" + ['\n'] + "";
    PiecesStep("", '\n', "");
    assert (a + "\n\n")[|a|] == '\n';
    assert [a] + ([""] + [""]) == [a, ""] + [""];
    DropTrailingEmptyAppendEmpty([a, ""]);
  }

  /** With a leading empty line, two reversals lose it: "\na" has lines ["", "a"],
      reversed "a\n\n" has lines ["a"], and reversing again gives "a\n". */
  lemma ReverseLinesTwiceLeadingEmptyLine()
    ensures Lines("\na") == ["", "a"]
    ensures ReverseLinesOf("\na") == "a\n\n"
    ensures ReverseLinesOf(ReverseLinesOf("\na")) == "a\n"
    ensures Lines(ReverseLinesOf(ReverseLinesOf("\na"))) == ["a"]
  {
    LeadingEmptyLineOnce();
    LeadingEmptyLineTwice();
  }

  lemma LeadingEmptyLineOnce()
    ensures Lines("\na") == ["", "a"]
    ensures ReverseLinesOf("\na") == "a\n\n"
  {
    assert "" + "\n" + "a" == "\na";
    assert "a" + "\n" + "" + "\n" == "a\n\n";
    TwoLines("", "a");
  }

  lemma LeadingEmptyLineTwice()
    ensures ReverseLinesOf("a\n\n") == "a\n"
    ensures Lines("a\n") == ["a"]
  {
    OneLineA();
    assert Reversed(["a"]) == ["a"];
    assert Terminated(["a"], "\n") == "a\n";
  }

  lemma OneLineA()
    ensures Lines("a\n") == ["a"]
    ensures Lines("a\n\n") == ["a"]
  {
    assert "a" + "\n" == "a\n";
    assert "a" + "\n\n" == "a\n\n";
    TrailingNewlines("a");
  }

  /** "hello\nworld" comes out as "world\nhello\n". */
  lemma ReverseLinesOfHelloWorld()
    ensures ReverseLinesOf("hello\nworld") == "world\nhello\n"
  {
    assert "hello" + "\n" + "world" == "hello\nworld";
    assert "world" + "\n" + "hello" + "\n" == "world\nhello\n";
    TwoLines("hello", "world");
  }

  // ---------------------------------------------------------------------
  // readPalindrome
  // ---------------------------------------------------------------------

  /** Each word's characters reversed (`new StringBuilder(w).reverse()`). */
  function ReverseEach(ws: seq<string>): (r: seq<string>)
    ensures |r| == |ws|
    ensures forall k :: 0 <= k < |ws| ==> r[k] == Reversed(ws[k])
  {
    if ws == [] then [] else [Reversed(ws[0])] + ReverseEach(ws[1..])
  }

  /** The words from the last to the first, each reversed and followed by one space. */
  function PalindromeOf(content: string): string
  {
    Terminated(ReverseEach(Reversed(Words(content))), " ")
  }

  /** The count-down loop of `readPalindrome`. */
  method Palindrome(content: string) returns (r: string)
    ensures r == PalindromeOf(content)
  {
    var words := SplitWhitespace(content);
    var sb := "";
    var i := |words| - 1;
    while i >= 0
      invariant -1 <= i < |words|
      invariant sb == Terminated(ReverseEach(Reversed(words[i + 1..])), " ")
    {
      var reversedWord := Reversed(words[i]);
      PalindromePrefixStep(words, i);
      sb := sb + reversedWord + " ";
      i := i - 1;
    }
    assert words[0..] == words;
    r := sb;
  }

  /** One more word for the count-down loop: word `i`, reversed, and a space. */
  lemma PalindromePrefixStep(words: seq<string>, i: nat)
    requires i < |words|
    ensures Terminated(ReverseEach(Reversed(words[i..])), " ") ==
            Terminated(ReverseEach(Reversed(words[i + 1..])), " ") + Reversed(words[i]) + " "
  {
    var tail := Reversed(words[i + 1..]);
    assert words[i..] == [words[i]] + words[i + 1..];
    ReversedCons(words[i], words[i + 1..]);
    ReverseEachSnoc(tail, words[i]);
    TerminatedSnoc(ReverseEach(tail), Reversed(words[i]), " ");
  }

  lemma ReverseEachSnoc(ws: seq<string>, w: string)
    ensures ReverseEach(ws + [w]) == ReverseEach(ws) + [Reversed(w)]
  {
    var l := ReverseEach(ws + [w]);
    var m := ReverseEach(ws) + [Reversed(w)];
    forall k | 0 <= k < |l| ensures l[k] == m[k] {
      if k < |ws| {
        assert (ws + [w])[k] == ws[k];
      }
    }
  }

  lemma {:induction false} SumLengthsReverseEach(ws: seq<string>)
    ensures SumLengths(ReverseEach(ws)) == SumLengths(ws)
  {
    if ws != [] {
      SumLengthsReverseEach(ws[1..]);
      assert ReverseEach(ws)[1..] == ReverseEach(ws[1..]);
    }
  }

  /** The output has every character of every word and one space per word. */
  lemma PalindromeLength(content: string)
    ensures |PalindromeOf(content)| == SumLengths(Words(content)) + |Words(content)|
  {
    var words := Words(content);
    var out := ReverseEach(Reversed(words));
    TerminatedLength(out, " ");
    assert |out| * |" "| == |words|;
    SumLengthsReverseEach(Reversed(words));
    SumLengthsReversed(words);
  }

  /** Java splits "" into [""], so the palindrome of empty content is one space;
      content made only of whitespace has no words and gives "". */
  lemma PalindromeOfEmptyOrBlank(content: string)
    ensures content == "" ==> PalindromeOf(content) == " "
    ensures content != "" && (forall i :: 0 <= i < |content| ==> IsWhitespace(content[i])) ==>
              PalindromeOf(content) == ""
  {
    if content == "" {
      assert Words(content) == [""];
      assert Reversed([""]) == [""];
      assert ReverseEach([""]) == [""];
      assert Terminated([""], " ") == "" + " " + Terminated([], " ");
    } else if forall i :: 0 <= i < |content| ==> IsWhitespace(content[i]) {
      WordsOfBlank(content);
    }
  }

  /** The content with its whitespace deleted. */
  function NonWhitespace(s: string): string
  {
    if s == [] then []
    else (if IsWhitespace(s[0]) then [] else [s[0]]) + NonWhitespace(s[1..])
  }

  lemma {:induction false} NonWhitespaceAppend(a: string, b: string)
    ensures NonWhitespace(a + b) == NonWhitespace(a) + NonWhitespace(b)
  {
    if a == [] {
      assert a + b == b;
    } else {
      assert (a + b)[1..] == a[1..] + b;
      NonWhitespaceAppend(a[1..], b);
    }
  }

  lemma {:induction false} NonWhitespaceOfWord(w: string)
    requires NoWhitespace(w)
    ensures NonWhitespace(w) == w
  {
    if w != [] {
      NonWhitespaceOfWord(w[1..]);
      assert [w[0]] + w[1..] == w;
    }
  }

  lemma {:induction false} NonWhitespaceOfRun(w: string)
    requires forall j :: 0 <= j < |w| ==> IsWhitespace(w[j])
    ensures NonWhitespace(w) == []
  {
    if w != [] {
      NonWhitespaceOfRun(w[1..]);
    }
  }

  /** A word, then whitespace, then more: filtering keeps the word and filters the rest. */
  lemma NonWhitespaceWordRun(w: string, run: string, u: string)
    requires NoWhitespace(w)
    requires forall j :: 0 <= j < |run| ==> IsWhitespace(run[j])
    ensures NonWhitespace(w + run + u) == w + NonWhitespace(u)
  {
    var front := w + run;
    NonWhitespaceAppend(front, u);
    assert NonWhitespace(front) == w by {
      NonWhitespaceAppend(w, run);
      NonWhitespaceOfWord(w);
      NonWhitespaceOfRun(run);
      assert w + [] == w;
    }
  }

  lemma {:induction false} ConcatWordPieces(s: string)
    ensures Concat(WordPieces(s)) == NonWhitespace(s)
    decreases |s|
  {
    var k := FirstWhitespace(s);
    if k == |s| {
      NonWhitespaceOfWord(s);
      assert [s][1..] == [];
    } else {
      var w, run, u := WordPiecesHead(s);
      ConcatWordPieces(u);
      NonWhitespaceWordRun(w, run, u);
      ConcatCons(w, WordPieces(u));
    }
  }

  /** The words, concatenated, are the content with its whitespace deleted:
      splitting on \s+ loses only whitespace. */
  lemma ConcatWords(content: string)
    ensures Concat(Words(content)) == NonWhitespace(content)
  {
    if !HasWhitespace(content) {
      NonWhitespaceOfWord(content);
      assert [content][1..] == [];
    } else {
      var ps := WordPieces(content);
      ConcatWordPieces(content);
      ConcatEmptyTail(ps, |DropTrailingEmpty(ps)|);
    }
  }

  /** The words of the output are the input's words, last to first, each reversed,
      provided the content does not start with whitespace (and is not empty). */
  lemma PalindromeWords(content: string)
    requires Words(content) != [] && Words(content)[0] != ""
    ensures Words(PalindromeOf(content)) == ReverseEach(Reversed(Words(content)))
  {
    var out := ReverseEach(Reversed(Words(content)));
    assert forall i :: 0 <= i < |out| ==> out[i] != "" && NoWhitespace(out[i]);
    SplitWhitespaceSpaced(out);
  }

  /** Reversing the order and each word, twice, is the identity. */
  lemma ReverseEachReversedTwice(ws: seq<string>)
    ensures ReverseEach(Reversed(ReverseEach(Reversed(ws)))) == ws
  {
    var once := ReverseEach(Reversed(ws));
    var twice := ReverseEach(Reversed(once));
    forall k | 0 <= k < |ws| ensures twice[k] == ws[k] {
      assert once[|ws| - 1 - k] == Reversed(ws[k]);
      ReversedTwice(ws[k]);
    }
  }

  /** Applying the palindrome transform twice gives back the words in their
      original order, each followed by one space (whitespace normalised). */
  lemma PalindromeTwice(content: string)
    requires Words(content) != [] && Words(content)[0] != ""
    ensures PalindromeOf(PalindromeOf(content)) == Terminated(Words(content), " ")
    ensures Words(PalindromeOf(PalindromeOf(content))) == Words(content)
  {
    var ws := Words(content);
    PalindromeWords(content);
    ReverseEachReversedTwice(ws);
    assert forall i :: 0 <= i < |ws| ==> ws[i] != "" && NoWhitespace(ws[i]);
    SplitWhitespaceSpaced(ws);
  }

  /** The content starts with whitespace and holds a non-whitespace character:
      its first word is "" and is not its only word. */
  predicate LeadingBlank(content: string)
  {
    content != [] && IsWhitespace(content[0]) &&
    exists i :: 0 <= i < |content| && !IsWhitespace(content[i])
  }

  /** Applying the palindrome twice gives back the content's words exactly when
      the content has no leading blank: empty content, whitespace only and content
      starting with a word all come back; otherwise the leading "" is lost. */
  lemma PalindromeTwiceExactly(content: string)
    ensures Words(PalindromeOf(PalindromeOf(content))) == Words(content) <==>
            !LeadingBlank(content)
  {
    if LeadingBlank(content) {
      LeadingBlankLost(content);
    } else if content == [] {
      PalindromeOfEmptyOrBlank("");
      PalindromeOfEmptyOrBlank(" ");
    } else if IsWhitespace(content[0]) {
      PalindromeOfEmptyOrBlank(content);
      PalindromeOfEmptyOrBlank("");
      WordsOfBlank(content);
      WordsOfBlank(" ");
    } else {
      SplitWhitespaceFirst(content);
      PalindromeTwice(content);
    }
  }

  /** With a leading blank the second palindrome starts with a word, so its
      first word is nonempty while the content's is "". */
  lemma LeadingBlankLost(content: string)
    requires LeadingBlank(content)
    ensures Words(PalindromeOf(PalindromeOf(content))) != Words(content)
  {
    WordsLeading(content);
    var once := PalindromeOf(content);
    var twice := PalindromeOf(once);
    var m := Words(once);
    if m == [] {
      assert twice == [];
      assert Words(twice) == [twice];
    } else {
      var out := ReverseEach(Reversed(Words(content)));
      assert once == out[0] + " " + Terminated(out[1..], " ");
      assert IsWhitespace(once[|out[0]|]);
      assert HasWhitespace(once);
      var last := m[|m| - 1];
      assert last != "" && NoWhitespace(last);
      var out2 := ReverseEach(Reversed(m));
      assert out2[0] == Reversed(last);
      assert twice == out2[0] + " " + Terminated(out2[1..], " ");
      assert twice[0] == last[|last| - 1];
      SplitWhitespaceFirst(twice);
    }
  }

  /** A leading blank gives an empty first word followed by at least one more. */
  lemma WordsLeading(content: string)
    requires LeadingBlank(content)
    ensures |Words(content)| >= 2 && Words(content)[0] == ""
  {
    var i :| 0 <= i < |content| && !IsWhitespace(content[i]);
    assert HasWhitespace(content) by {
      assert IsWhitespace(content[0]);
    }
    assert FirstWhitespace(content) == 0;
    WordPiecesUnfold(content);
    assert WordPieces(content)[0] == content[..0];
    var r := Words(content);
    ConcatWords(content);
    NonWhitespaceKeeps(content, i);
    assert r != [];
    assert r[0] == WordPieces(content)[0];
  }

  /** Nonempty content made only of whitespace has no words. */
  lemma WordsOfBlank(content: string)
    requires content != "" && forall i :: 0 <= i < |content| ==> IsWhitespace(content[i])
    ensures Words(content) == []
  {
    var r := Words(content);
    assert HasWhitespace(content) by {
      assert IsWhitespace(content[0]);
    }
    ConcatWords(content);
    NonWhitespaceOfRun(content);
    if r != [] {
      ConcatEmpty(r, |r| - 1);
    }
  }

  /** A non-whitespace character survives the filtering. */
  lemma {:induction false} NonWhitespaceKeeps(s: string, i: nat)
    requires i < |s| && !IsWhitespace(s[i])
    ensures NonWhitespace(s) != []
  {
    if i > 0 && IsWhitespace(s[0]) {
      assert s[1..][i - 1] == s[i];
      NonWhitespaceKeeps(s[1..], i - 1);
    }
  }

  /** Two nonempty words separated by one space are those two words, and the
      palindrome writes the second reversed, then the first reversed. */
  lemma TwoWords(a: string, b: string)
    requires a != "" && b != "" && NoWhitespace(a) && NoWhitespace(b)
    ensures Words(a + " " + b) == [a, b]
    ensures PalindromeOf(a + " " + b) == Reversed(b) + " " + Reversed(a) + " "
  {
    WordsOfTwo(a, b);
    PalindromeOfTwo(Words(a + " " + b), a, b);
  }

  lemma WordsOfTwo(a: string, b: string)
    requires a != "" && b != "" && NoWhitespace(a) && NoWhitespace(b)
    ensures Words(a + " " + b) == [a, b]
  {
    var s := a + " " + b;
    WordPiecesStep(a, b);
    WordPiecesOfWord(b);
    assert IsWhitespace(s[|a|]);
    assert [a] + [b] == [a, b];
    DropTrailingEmptyKeeps([a, b]);
  }

  lemma PalindromeOfTwo(ws: seq<string>, a: string, b: string)
    requires ws == [a, b]
    ensures Terminated(ReverseEach(Reversed(ws)), " ") == Reversed(b) + " " + Reversed(a) + " "
  {
    assert Reversed([a, b]) == [b, a];
    var r := ReverseEach([b, a]);
    assert r == [Reversed(b), Reversed(a)];
    var ra, rb := Reversed(a), Reversed(b);
    assert [ra][1..] == [];
    assert Terminated([ra], " ") == ra + " ";
    assert Terminated(r, " ") == rb + " " + (ra + " ");
  }

  /** "hello world" comes out as "dlrow olleh ". */
  lemma PalindromeOfHelloWorld()
    ensures PalindromeOf("hello world") == "dlrow olleh "
  {
    HelloWorldLetters();
    HelloWorldReversed();
    TwoWords("hello", "world");
  }

  lemma HelloWorldLetters()
    ensures "hello" + " " + "world" == "hello world"
    ensures NoWhitespace("hello") && NoWhitespace("world")
  {
  }

  lemma HelloWorldReversed()
    ensures Reversed("world") + " " + Reversed("hello") + " " == "dlrow olleh "
  {
    ReversedFive("world");
    ReversedFive("hello");
  }

  lemma ReversedFive(w: string)
    requires |w| == 5
    ensures Reversed(w) == [w[4], w[3], w[2], w[1], w[0]]
  {
    var r := Reversed(w);
    assert r[0] == w[4] && r[1] == w[3] && r[2] == w[2] && r[3] == w[1] && r[4] == w[0];
  }

  // ---------------------------------------------------------------------
  // compare
  // ---------------------------------------------------------------------

  /** The two line counts and the equality verdict of `compare`. */
  datatype Report = Report(lines1: nat, lines2: nat, identical: bool)

  /** `compare`: line counts are the lengths of the "\n" splits; the verdict is
      whole-content equality. */
  function Compare(content: string, content2: string): (r: Report)
    ensures r.identical <==> content == content2
    ensures content == content2 ==> r.lines1 == r.lines2
    ensures r.lines1 <= Count(content, '\n') + 1 && r.lines2 <= Count(content2, '\n') + 1
  {
    SplitCount(content, '\n');
    SplitCount(content2, '\n');
    Report(|Lines(content)|, |Lines(content2)|, content == content2)
  }

  /** A content that does not end in "\n" has one line more than it has newlines;
      in particular empty content counts as one line. */
  lemma CompareLineCount(content: string, content2: string)
    ensures content == [] || content[|content| - 1] != '\n' ==>
              Compare(content, content2).lines1 == Count(content, '\n') + 1
    ensures Compare("", content2).lines1 == 1
  {
    SplitCount(content, '\n');
    assert Lines("") == [""];
  }

  /** `Integer.toString` of a non-negative count. */
  function Decimal(n: nat): (s: string)
    ensures |s| >= 1
    ensures forall i :: 0 <= i < |s| ==> '0' <= s[i] <= '9'
    ensures s[0] == '0' <==> n == 0
    ensures |s| == 1 || s[0] != '0'
  {
    if n < 10 then [Digit(n)] else Decimal(n / 10) + [Digit(n % 10)]
  }

  function Digit(d: nat): (ch: char)
    requires d < 10
    ensures '0' <= ch <= '9'
    ensures ch == '0' <==> d == 0
  {
    ('0' as int + d) as char
  }

  /** The value of a string of decimal digits. */
  function DigitsValue(s: string): nat
    requires forall i :: 0 <= i < |s| ==> '0' <= s[i] <= '9'
  {
    if s == [] then 0
    else DigitsValue(s[..|s| - 1]) * 10 + (s[|s| - 1] as int - '0' as int)
  }

  /** The decimal rendering reads back as the number. */
  lemma {:induction false} DecimalValue(n: nat)
    ensures DigitsValue(Decimal(n)) == n
  {
    if n >= 10 {
      DecimalValue(n / 10);
      var s := Decimal(n);
      assert s[..|s| - 1] == Decimal(n / 10);
    }
  }

  const IdenticalText: string := "\n Les fichiers sont identiques."
  const DifferentText: string := "\nLes fichiers sont diff\U{00E9}rents."

  /** The text `compare` returns. */
  function Render(r: Report): string
  {
    "Fichier 1 : " + Decimal(r.lines1) + " lignes\n" +
    "Fichier 2 : " + Decimal(r.lines2) + " lignes. " +
    (if r.identical then IdenticalText else DifferentText)
  }

  /** The report ends with the "identiques" sentence exactly when the verdict is
      identical, and with the "différents" sentence otherwise. */
  lemma RenderVerdict(r: Report)
    ensures EndsWith(Render(r), IdenticalText) <==> r.identical
    ensures EndsWith(Render(r), DifferentText) <==> !r.identical
  {
    var head := "Fichier 1 : " + Decimal(r.lines1) + " lignes\n" +
                "Fichier 2 : " + Decimal(r.lines2) + " lignes. ";
    var s := Render(r);
    assert |head| >= 2 && head[|head| - 1] == ' ';
    assert |IdenticalText| == 31 && |DifferentText| == 30;
    if r.identical {
      assert s == head + IdenticalText;
      assert s[|s| - |IdenticalText|..] == IdenticalText;
      assert s[|s| - 1] == IdenticalText[|IdenticalText| - 1];
      assert s[|s| - 30] == IdenticalText[1] == ' ';
      assert DifferentText[0] == '\n';
      assert s[|s| - |DifferentText|..][0] == ' ';
    } else {
      assert s == head + DifferentText;
      assert s[|s| - |DifferentText|..] == DifferentText;
      assert s[|head| - 1] == ' ';
      assert s[|s| - |IdenticalText|..][0] == ' ';
    }
  }
}
