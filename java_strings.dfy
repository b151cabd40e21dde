/** The parts of java.lang.String that the readers rely on: `split` with a
    one-character literal separator, `split("\\s+")`, and `endsWith`. */
module JavaStrings {
  import opened Sequences

  /** Java's predefined regex class \s: [ \t\n\x0B\f\r]. */
  predicate IsWhitespace(ch: char)
  {
    ch == ' ' || ch == '\t' || ch == '\n' || ch == '\U{000B}' || ch == '\U{000C}' || ch == '\r'
  }

  predicate NoWhitespace(w: string)
  {
    forall j :: 0 <= j < |w| ==> !IsWhitespace(w[j])
  }

  predicate HasWhitespace(s: string)
  {
    exists j :: 0 <= j < |s| && IsWhitespace(s[j])
  }

  /** `s.endsWith(suffix)`. */
  predicate EndsWith(s: string, suffix: string)
  {
    |suffix| <= |s| && s[|s| - |suffix|..] == suffix
  }

  // ---------------------------------------------------------------------
  // Splitting on one literal character
  // ---------------------------------------------------------------------

  /** Position of the first `c` in `s`, or |s| when there is none. */
  function IndexOf(s: string, c: char): (k: nat)
    ensures k <= |s|
    ensures forall j :: 0 <= j < k ==> s[j] != c
    ensures k < |s| ==> s[k] == c
    ensures c !in s[..k]
  {
    if s == [] || s[0] == c then 0
    else
      var k' := IndexOf(s[1..], c);
      assert s[..k' + 1] == [s[0]] + s[1..][..k'];
      1 + k'
  }

  /** The first occurrence after a separator-free prefix is right after that prefix. */
  lemma IndexOfAfter(a: string, c: char, b: string)
    requires c !in a
    ensures IndexOf(a + [c] + b, c) == |a|
  {
    var s := a + [c] + b;
    assert s[|a|] == c;
    assert forall j :: 0 <= j < |a| ==> s[j] == a[j];
  }

  /** A string without the separator is one piece. */
  lemma NoSeparatorPieces(b: string, c: char)
    requires c !in b
    ensures Pieces(b, c) == [b]
  {
  }

  /** Cutting at the first separator. */
  lemma PiecesStep(a: string, c: char, b: string)
    requires c !in a
    ensures Pieces(a + [c] + b, c) == [a] + Pieces(b, c)
  {
    var s := a + [c] + b;
    IndexOfAfter(a, c, b);
    assert s[..|a|] == a;
    assert s[|a| + 1..] == b;
  }

  /** Every substring between consecutive occurrences of `c` (and before the first
      and after the last), trailing empty ones included: the raw material of
      Java's `split`. */
  function Pieces(s: string, c: char): (r: seq<string>)
    ensures |r| >= 1
    ensures forall i :: 0 <= i < |r| ==> c !in r[i]
    decreases |s|
  {
    var k := IndexOf(s, c);
    if k == |s| then [s] else [s[..k]] + Pieces(s[k + 1..], c)
  }

  /** The pieces with one `c` between neighbours. */
  function Join(ps: seq<string>, c: char): string
    requires |ps| >= 1
  {
    if |ps| == 1 then ps[0] else ps[0] + [c] + Join(ps[1..], c)
  }

  /** Joining the pieces with the separator gives back the string. */
  lemma {:induction false} JoinPieces(s: string, c: char)
    ensures Join(Pieces(s, c), c) == s
    decreases |s|
  {
    var k := IndexOf(s, c);
    if k < |s| {
      var a, b := s[..k], s[k + 1..];
      var ps := Pieces(b, c);
      assert Pieces(s, c) == [a] + ps;
      JoinPieces(b, c);
      JoinCons(a, ps, c);
      SplitAt(s, k);
    }
  }

  /** A string is its prefix, the element at `k` and its suffix. */
  lemma SplitAt<T>(s: seq<T>, k: nat)
    requires k < |s|
    ensures s == s[..k] + [s[k]] + s[k + 1..]
  {
  }

  lemma JoinCons(a: string, ps: seq<string>, c: char)
    requires |ps| >= 1
    ensures Join([a] + ps, c) == a + [c] + Join(ps, c)
  {
    assert ([a] + ps)[1..] == ps;
  }

  lemma ConcatCons<T>(a: seq<T>, ps: seq<seq<T>>)
    ensures Concat([a] + ps) == a + Concat(ps)
  {
    assert ([a] + ps)[1..] == ps;
  }

  /** There is one more piece than there are separators. */
  lemma {:induction false} PiecesCount(s: string, c: char)
    ensures |Pieces(s, c)| == Count(s, c) + 1
    decreases |s|
  {
    var k := IndexOf(s, c);
    if k == |s| {
      CountAbsent(s, c);
    } else {
      var a, b := s[..k], s[k + 1..];
      assert Pieces(s, c) == [a] + Pieces(b, c);
      SplitAt(s, k);
      PiecesCount(b, c);
      CountStep(a, c, b);
    }
  }

  /** A separator-free prefix, then one separator: one more than the rest's count. */
  lemma CountStep(a: string, c: char, b: string)
    requires c !in a
    ensures Count(a + [c] + b, c) == 1 + Count(b, c)
  {
    CountAppend(a + [c], b, c);
    CountAppend(a, [c], c);
    CountAbsent(a, c);
    assert Count([c], c) == 1 by {
      assert [c][1..] == [];
    }
  }

  /** Concatenating the pieces is deleting the separators. */
  lemma {:induction false} ConcatPieces(s: string, c: char)
    ensures Concat(Pieces(s, c)) == Remove(s, c)
    decreases |s|
  {
    var k := IndexOf(s, c);
    if k == |s| {
      assert s[..k] == s;
      RemoveAbsent(s, c);
      assert Pieces(s, c) == [s];
      ConcatCons(s, []);
    } else {
      var a, b := s[..k], s[k + 1..];
      var ps := Pieces(b, c);
      assert Pieces(s, c) == [a] + ps;
      SplitAt(s, k);
      ConcatPieces(b, c);
      ConcatCons(a, ps);
      RemoveStep(a, c, b);
    }
  }

  /** Deleting the separators from a separator-free prefix, one separator and the rest. */
  lemma RemoveStep(a: string, c: char, b: string)
    requires c !in a
    ensures Remove(a + [c] + b, c) == a + Remove(b, c)
  {
    var ac := a + [c];
    RemoveAppend(ac, b, c);
    RemoveAppend(a, [c], c);
    RemoveAbsent(a, c);
    var rc := Remove([c], c);
    assert rc == [] by {
      assert [c][1..] == [];
    }
    assert Remove(ac, c) == a by {
      assert a + rc == a;
    }
  }

  /** A string built by writing each separator-free piece followed by `c` is cut
      back into exactly those pieces, plus the empty piece after the last `c`. */
  lemma {:induction false} PiecesTerminated(ls: seq<string>, c: char)
    requires forall i :: 0 <= i < |ls| ==> c !in ls[i]
    ensures Pieces(Terminated(ls, [c]), c) == ls + [""]
  {
    if ls != [] {
      var rest := Terminated(ls[1..], [c]);
      assert Terminated(ls, [c]) == ls[0] + [c] + rest;
      PiecesStep(ls[0], c, rest);
      PiecesTerminated(ls[1..], c);
      assert ls == [ls[0]] + ls[1..];
    }
  }

  /** Java's `split` with limit 0 drops the trailing empty strings. */
  function DropTrailingEmpty(ps: seq<string>): (r: seq<string>)
    ensures |r| <= |ps| && r == ps[..|r|]
    ensures r == [] || r[|r| - 1] != ""
    ensures forall i :: |r| <= i < |ps| ==> ps[i] == ""
  {
    if ps != [] && ps[|ps| - 1] == "" then DropTrailingEmpty(ps[..|ps| - 1]) else ps
  }

  /** One trailing empty piece after a nonempty last piece is dropped, and nothing more. */
  lemma DropTrailingEmptySnoc(ps: seq<string>)
    requires ps != [] && ps[|ps| - 1] != ""
    ensures DropTrailingEmpty(ps + [""]) == ps
  {
    assert (ps + [""])[..|ps|] == ps;
  }

  /** Nothing is dropped when the last piece is nonempty. */
  lemma DropTrailingEmptyKeeps(ps: seq<string>)
    requires ps != [] && ps[|ps| - 1] != ""
    ensures DropTrailingEmpty(ps) == ps
  {
  }

  /** A trailing empty piece never survives the split. */
  lemma DropTrailingEmptyAppendEmpty(ps: seq<string>)
    ensures DropTrailingEmpty(ps + [""]) == DropTrailingEmpty(ps)
  {
    assert (ps + [""])[..|ps|] == ps;
  }

  /** `s.split(String.valueOf(c))`: no occurrence gives `[s]` (so "" gives [""]);
      otherwise the pieces without their trailing empty ones (so a string made only
      of separators gives []). A leading separator keeps its leading "". */
  function Split(s: string, c: char): (r: seq<string>)
    ensures forall i :: 0 <= i < |r| ==> c !in r[i]
    ensures c !in s ==> r == [s]
    ensures c in s ==> r == [] || r[|r| - 1] != ""
    ensures c in s ==> r <= Pieces(s, c)
  {
    if c !in s then [s] else DropTrailingEmpty(Pieces(s, c))
  }

  /** The fields of a split, concatenated, are the string with every separator
      deleted: the separator is the only thing `split` throws away. */
  lemma ConcatSplit(s: string, c: char)
    ensures Concat(Split(s, c)) == Remove(s, c)
  {
    if c !in s {
      RemoveAbsent(s, c);
      assert [s][1..] == [];
    } else {
      var ps := Pieces(s, c);
      var r := DropTrailingEmpty(ps);
      ConcatPieces(s, c);
      ConcatEmptyTail(ps, |r|);
    }
  }

  /** Empty trailing pieces add nothing to a concatenation. */
  lemma {:induction false} ConcatEmptyTail(ps: seq<string>, n: nat)
    requires n <= |ps|
    requires forall i :: n <= i < |ps| ==> ps[i] == ""
    ensures Concat(ps[..n]) == Concat(ps)
    decreases |ps|
  {
    if n < |ps| {
      var m := |ps| - 1;
      var front := ps[..m];
      assert ps == front + [ps[m]];
      ConcatSnoc(front, ps[m]);
      assert front[..n] == ps[..n];
      ConcatEmptyTail(front, n);
      calc {
        Concat(ps);
        Concat(front + [ps[m]]);
        Concat(front) + ps[m];
        { assert ps[m] == ""; }
        Concat(front);
        Concat(ps[..n]);
      }
    } else {
      assert ps[..n] == ps;
    }
  }

  /** The number of fields never exceeds the number of separators plus one, and
      equals it when the string does not end with the separator. */
  lemma SplitCount(s: string, c: char)
    ensures |Split(s, c)| <= Count(s, c) + 1
    ensures s == [] || s[|s| - 1] != c ==> |Split(s, c)| == Count(s, c) + 1
  {
    PiecesCount(s, c);
    if c !in s {
      CountAbsent(s, c);
    } else if s == [] || s[|s| - 1] != c {
      PiecesLast(s, c);
    }
  }

  /** The last piece is empty only when the string is empty or ends in `c`. */
  lemma {:induction false} PiecesLast(s: string, c: char)
    ensures Pieces(s, c)[|Pieces(s, c)| - 1] == "" ==> s == [] || s[|s| - 1] == c
    decreases |s|
  {
    var k := IndexOf(s, c);
    if k < |s| {
      var b := s[k + 1..];
      var ps := Pieces(b, c);
      assert Pieces(s, c) == [s[..k]] + ps;
      assert Pieces(s, c)[|Pieces(s, c)| - 1] == ps[|ps| - 1];
      PiecesLast(b, c);
      if b == [] {
        assert k == |s| - 1;
      } else {
        assert s[|s| - 1] == b[|b| - 1];
      }
    } else {
      assert Pieces(s, c) == [s];
    }
  }

  /** Writing nonempty-ended, separator-free lines each followed by `c` and
      splitting again gives back the same lines. */
  lemma SplitTerminated(ls: seq<string>, c: char)
    requires ls != [] && ls[|ls| - 1] != ""
    requires forall i :: 0 <= i < |ls| ==> c !in ls[i]
    ensures Split(Terminated(ls, [c]), c) == ls
  {
    var s := Terminated(ls, [c]);
    assert s == ls[0] + [c] + Terminated(ls[1..], [c]);
    assert s[|ls[0]|] == c;
    PiecesTerminated(ls, c);
    DropTrailingEmptySnoc(ls);
  }

  /** A string that does not start with `c` has a nonempty first field. */
  lemma SplitFirst(s: string, c: char)
    requires s != [] && s[0] != c
    ensures Split(s, c) != [] && Split(s, c)[0] != ""
  {
    if c in s {
      var ps := Pieces(s, c);
      var k := IndexOf(s, c);
      assert k > 0;
      assert ps[0] == s[..k];
      assert ps[0] != "";
    }
  }

  /** A string that starts with `c` and holds something else has an empty first
      field followed by at least one more. */
  lemma SplitLeading(s: string, c: char, i: nat)
    requires s != [] && s[0] == c && i < |s| && s[i] != c
    ensures |Split(s, c)| >= 2 && Split(s, c)[0] == ""
  {
    var ps := Pieces(s, c);
    assert IndexOf(s, c) == 0;
    assert ps[0] == s[..0];
    var r := Split(s, c);
    ConcatSplit(s, c);
    RemoveKeepsOther(s, c, i);
    assert r != [];
    assert r[0] == ps[0];
  }

  /** A nonempty string made only of separators splits into no fields at all. */
  lemma SeparatorsOnly(s: string, c: char)
    requires s != [] && forall i :: 0 <= i < |s| ==> s[i] == c
    ensures Split(s, c) == []
  {
    var r := Split(s, c);
    assert c in s by {
      assert s[0] == c;
    }
    ConcatSplit(s, c);
    RemoveOnly(s, c);
    if r != [] {
      ConcatEmpty(r, |r| - 1);
    }
  }

  // ---------------------------------------------------------------------
  // Splitting on runs of whitespace (the regex \s+)
  // ---------------------------------------------------------------------

  /** Position of the first whitespace character, or |s|. */
  function FirstWhitespace(s: string): (k: nat)
    ensures k <= |s|
    ensures forall j :: 0 <= j < k ==> !IsWhitespace(s[j])
    ensures k < |s| ==> IsWhitespace(s[k])
  {
    if s == [] || IsWhitespace(s[0]) then 0 else 1 + FirstWhitespace(s[1..])
  }

  /** Length of the whitespace run that starts `s` (the greedy match of \s+). */
  function WhitespaceRun(s: string): (k: nat)
    ensures k <= |s|
    ensures forall j :: 0 <= j < k ==> IsWhitespace(s[j])
    ensures k < |s| ==> !IsWhitespace(s[k])
  {
    if s == [] || !IsWhitespace(s[0]) then 0 else 1 + WhitespaceRun(s[1..])
  }

  /** The substrings between maximal whitespace runs, trailing empty one included. */
  function WordPieces(s: string): (r: seq<string>)
    ensures |r| >= 1
    decreases |s|
  {
    var k := FirstWhitespace(s);
    if k == |s| then [s]
    else
      var t := s[k..];
      var m := WhitespaceRun(t);
      [s[..k]] + WordPieces(t[m..])
  }

  /** A nonempty stretch of whitespace: one match of `\s+`. */
  predicate IsRun(run: string)
  {
    run != [] && forall j :: 0 <= j < |run| ==> IsWhitespace(run[j])
  }

  /** The maximal whitespace runs of `s`, in order: the matches of `\s+`. */
  function WhitespaceRuns(s: string): seq<string>
    decreases |s|
  {
    var k := FirstWhitespace(s);
    if k == |s| then []
    else
      var t := s[k..];
      var m := WhitespaceRun(t);
      [t[..m]] + WhitespaceRuns(t[m..])
  }

  /** The pieces with the runs put back between neighbours. */
  function Interleave(ps: seq<string>, rs: seq<string>): string
    requires |ps| == |rs| + 1
    decreases |rs|
  {
    if rs == [] then ps[0] else ps[0] + rs[0] + Interleave(ps[1..], rs[1..])
  }

  lemma InterleaveCons(w: string, ps: seq<string>, run: string, rs: seq<string>)
    requires |ps| == |rs| + 1
    ensures Interleave([w] + ps, [run] + rs) == w + run + Interleave(ps, rs)
  {
    assert ([w] + ps)[1..] == ps;
    assert ([run] + rs)[1..] == rs;
  }

  lemma RunsCons(run: string, rs: seq<string>)
    requires IsRun(run) && forall i :: 0 <= i < |rs| ==> IsRun(rs[i])
    ensures forall i :: 0 <= i < |[run] + rs| ==> IsRun(([run] + rs)[i])
  {
    forall i | 0 < i < |[run] + rs| ensures IsRun(([run] + rs)[i]) {
      assert ([run] + rs)[i] == rs[i - 1];
    }
  }

  /** Where `\s+` cuts: putting the matched runs back between the pieces gives
      the string, there is one run between each two neighbouring pieces, and every
      run is nonempty whitespace. With the pieces whitespace-free
      (`WordPiecesShape`) this fixes every cut point. */
  lemma {:induction false} WordPiecesJoin(s: string)
    ensures |WhitespaceRuns(s)| + 1 == |WordPieces(s)|
    ensures forall i :: 0 <= i < |WhitespaceRuns(s)| ==> IsRun(WhitespaceRuns(s)[i])
    ensures Interleave(WordPieces(s), WhitespaceRuns(s)) == s
    decreases |s|
  {
    if FirstWhitespace(s) == |s| {
      assert WordPieces(s) == [s];
      assert WhitespaceRuns(s) == [];
    } else {
      var w, run, u := WordPiecesHead(s);
      WordPiecesJoin(u);
      InterleaveCons(w, WordPieces(u), run, WhitespaceRuns(u));
      RunsCons(run, WhitespaceRuns(u));
    }
  }

  /** No piece contains whitespace, and only the first and the last can be empty. */
  predicate PiecesShaped(r: seq<string>)
  {
    (forall i :: 0 <= i < |r| ==> NoWhitespace(r[i])) &&
    (forall i :: 0 < i < |r| - 1 ==> r[i] != "")
  }

  /** A whitespace-free piece in front of shaped pieces that start with a
      nonempty one (or are a single piece) keeps them shaped. */
  lemma ShapedCons(w: string, tail: seq<string>)
    requires NoWhitespace(w) && PiecesShaped(tail) && tail != []
    requires |tail| == 1 || tail[0] != ""
    ensures PiecesShaped([w] + tail)
  {
    var r := [w] + tail;
    forall i | 0 < i < |r|
      ensures NoWhitespace(r[i]) && (i < |r| - 1 ==> r[i] != "")
    {
      assert r[i] == tail[i - 1];
    }
  }

  /** The pieces contain no whitespace, and only the first (before a leading run)
      and the last (after a trailing run) can be empty. */
  lemma {:induction false} WordPiecesShape(s: string)
    ensures PiecesShaped(WordPieces(s))
    ensures s != [] && !IsWhitespace(s[0]) ==> WordPieces(s)[0] != ""
    decreases |s|
  {
    if FirstWhitespace(s) == |s| {
      assert WordPieces(s) == [s];
    } else {
      var w, run, u := WordPiecesHead(s);
      WordPiecesShape(u);
      if u == [] {
        assert WordPieces(u) == [u];
      }
      ShapedCons(w, WordPieces(u));
    }
  }

  /** One cut: the first piece `w` is whitespace-free (and nonempty when `s` starts
      with a non-whitespace character), and what follows the run, `u`, starts with
      a non-whitespace character. */
  lemma WordPiecesHead(s: string) returns (w: string, run: string, u: string)
    requires FirstWhitespace(s) < |s|
    ensures WordPieces(s) == [w] + WordPieces(u) && |u| < |s|
    ensures WhitespaceRuns(s) == [run] + WhitespaceRuns(u)
    ensures s == w + run + u && IsRun(run)
    ensures NoWhitespace(w) && (s != [] && !IsWhitespace(s[0]) ==> w != "")
    ensures u == [] || !IsWhitespace(u[0])
  {
    var k := FirstWhitespace(s);
    var t := s[k..];
    var m := WhitespaceRun(t);
    w, run, u := s[..k], t[..m], t[m..];
    WordBeforeWhitespace(s);
    SplitTwice(s, k, m);
  }

  /** Everything before the first whitespace character is whitespace-free. */
  lemma WordBeforeWhitespace(s: string)
    ensures NoWhitespace(s[..FirstWhitespace(s)])
  {
    var k := FirstWhitespace(s);
    assert forall j :: 0 <= j < k ==> s[..k][j] == s[j];
  }

  lemma SplitTwice<T>(s: seq<T>, k: nat, m: nat)
    requires k <= |s| && m <= |s| - k
    ensures s == s[..k] + s[k..][..m] + s[k..][m..]
  {
    assert s[k..] == s[k..][..m] + s[k..][m..];
  }

  /** `s.split("\\s+")`: no whitespace at all gives `[s]` (so "" gives [""]);
      otherwise the words without trailing empty strings. A leading whitespace
      run yields a leading "". */
  function SplitWhitespace(s: string): (r: seq<string>)
    ensures forall i :: 0 <= i < |r| ==> NoWhitespace(r[i])
    ensures forall i :: 0 < i < |r| ==> r[i] != ""
    ensures !HasWhitespace(s) ==> r == [s]
    ensures HasWhitespace(s) ==> r == [] || r[|r| - 1] != ""
    ensures HasWhitespace(s) ==>
              r <= WordPieces(s) && forall i :: |r| <= i < |WordPieces(s)| ==> WordPieces(s)[i] == ""
  {
    if !HasWhitespace(s) then [s]
    else
      var r := DropTrailingEmpty(WordPieces(s));
      WordsShape(s, r);
      r
  }

  /** Content that starts with a non-whitespace character has a nonempty first word. */
  lemma SplitWhitespaceFirst(s: string)
    requires s != [] && !IsWhitespace(s[0])
    ensures SplitWhitespace(s) != [] && SplitWhitespace(s)[0] != ""
  {
    if HasWhitespace(s) {
      WordPiecesShape(s);
      assert WordPieces(s)[0] != "";
    }
  }

  /** The words kept after dropping trailing empty pieces. */
  lemma WordsShape(s: string, r: seq<string>)
    requires r == DropTrailingEmpty(WordPieces(s))
    ensures forall i :: 0 <= i < |r| ==> NoWhitespace(r[i])
    ensures forall i :: 0 < i < |r| ==> r[i] != ""
  {
    WordPiecesShape(s);
    ShapedPrefix(WordPieces(s), r);
  }

  /** A prefix of shaped pieces that ends in a nonempty one has no empty piece
      after the first. */
  lemma ShapedPrefix(ps: seq<string>, r: seq<string>)
    requires PiecesShaped(ps) && |r| <= |ps| && r == ps[..|r|]
    requires r == [] || r[|r| - 1] != ""
    ensures forall i :: 0 <= i < |r| ==> NoWhitespace(r[i])
    ensures forall i :: 0 < i < |r| ==> r[i] != ""
  {
    forall i | 0 <= i < |r|
      ensures NoWhitespace(r[i]) && (i > 0 ==> r[i] != "")
    {
      assert r[i] == ps[i];
    }
  }

  /** The first whitespace after a whitespace-free word is the one right after it. */
  lemma FirstWhitespaceAfter(w: string, rest: string)
    requires NoWhitespace(w)
    ensures FirstWhitespace(w + " " + rest) == |w|
  {
    var s := w + " " + rest;
    assert IsWhitespace(s[|w|]);
    assert forall j :: 0 <= j < |w| ==> s[j] == w[j];
  }

  /** A single space followed by a word (or nothing) is a run of length one. */
  lemma WhitespaceRunSingle(rest: string)
    requires rest == [] || !IsWhitespace(rest[0])
    ensures WhitespaceRun(" " + rest) == 1
  {
    var t := " " + rest;
    assert IsWhitespace(t[0]);
    assert |t| > 1 ==> t[1] == rest[0];
  }

  /** Cutting at the space after the first word. */
  lemma WordPiecesStep(w: string, rest: string)
    requires NoWhitespace(w)
    requires rest == [] || !IsWhitespace(rest[0])
    ensures WordPieces(w + " " + rest) == [w] + WordPieces(rest)
  {
    var s := w + " " + rest;
    FirstWhitespaceAfter(w, rest);
    WhitespaceRunSingle(rest);
    SpaceAfterWord(w, rest);
    WordPiecesUnfold(s);
  }

  lemma SpaceAfterWord(w: string, rest: string)
    ensures (w + " " + rest)[..|w|] == w
    ensures (w + " " + rest)[|w|..] == " " + rest
    ensures (" " + rest)[1..] == rest
  {
  }

  /** A string without whitespace is one piece. */
  lemma WordPiecesOfWord(b: string)
    requires NoWhitespace(b)
    ensures WordPieces(b) == [b]
  {
    assert FirstWhitespace(b) == |b|;
  }

  /** One cut at the first whitespace run. */
  lemma WordPiecesUnfold(s: string)
    requires FirstWhitespace(s) < |s|
    ensures var k := FirstWhitespace(s);
            WordPieces(s) == [s[..k]] + WordPieces(s[k..][WhitespaceRun(s[k..])..])
  {
  }

  /** Nonempty words without whitespace, as `split("\\s+")` produces after its first word. */
  predicate SpacedWords(ws: seq<string>)
  {
    forall i :: 0 <= i < |ws| ==> ws[i] != "" && NoWhitespace(ws[i])
  }

  lemma SpacedWordsTail(ws: seq<string>)
    requires ws != [] && SpacedWords(ws)
    ensures ws[0] != "" && NoWhitespace(ws[0]) && SpacedWords(ws[1..])
  {
    assert forall i :: 0 <= i < |ws| - 1 ==> ws[1..][i] == ws[i + 1];
  }

  /** Written out with spaces, such words start with a non-whitespace character. */
  lemma SpacedWordsStart(ws: seq<string>)
    requires SpacedWords(ws)
    ensures var s := Terminated(ws, " "); s == [] || !IsWhitespace(s[0])
  {
    if ws != [] {
      assert ws[0] != "" && NoWhitespace(ws[0]);
      assert Terminated(ws, " ")[0] == ws[0][0];
    }
  }

  /** Cutting off the first of such words and its space. */
  lemma WordPiecesSpacedStep(ws: seq<string>)
    requires ws != [] && SpacedWords(ws)
    ensures WordPieces(Terminated(ws, " ")) == [ws[0]] + WordPieces(Terminated(ws[1..], " "))
  {
    var w, tail := ws[0], ws[1..];
    var rest := Terminated(tail, " ");
    SpacedWordsTail(ws);
    SpacedWordsStart(tail);
    assert Terminated(ws, " ") == w + " " + rest;
    WordPiecesStep(w, rest);
  }

  /** Such words, each followed by one space, cut back into the words plus the
      empty piece after the last space. */
  lemma {:induction false} WordPiecesSpaced(ws: seq<string>)
    requires SpacedWords(ws)
    ensures WordPieces(Terminated(ws, " ")) == ws + [""]
  {
    if ws == [] {
      assert FirstWhitespace([]) == 0;
    } else {
      WordPiecesSpacedStep(ws);
      SpacedWordsTail(ws);
      WordPiecesSpaced(ws[1..]);
      ConsSnoc(ws, "");
    }
  }

  lemma ConsSnoc<T>(xs: seq<T>, x: T)
    requires xs != []
    ensures xs + [x] == [xs[0]] + (xs[1..] + [x])
  {
  }

  /** Nonempty whitespace-free words joined by single spaces (with a trailing one)
      split back into the same words. */
  lemma SplitWhitespaceSpaced(ws: seq<string>)
    requires ws != [] && SpacedWords(ws)
    ensures SplitWhitespace(Terminated(ws, " ")) == ws
  {
    var s := Terminated(ws, " ");
    assert s == ws[0] + " " + Terminated(ws[1..], " ");
    assert IsWhitespace(s[|ws[0]|]);
    assert HasWhitespace(s);
    WordPiecesSpaced(ws);
    DropTrailingEmptySnoc(ws);
  }
}
