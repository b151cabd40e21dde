/** Failure-compatible wrappers for absent values (Java's null) and errors (Java's exceptions). */
module Wrappers {
  datatype Option<+T> = None | Some(value: T)

  datatype Result<+R, +E> = Success(value: R) | Failure(error: E)
}

/** Generic operations on sequences used by the string transformations. */
module Sequences {

  /** The sequence read back to front. */
  function Reversed<T>(s: seq<T>): (r: seq<T>)
    ensures |r| == |s|
    ensures forall k :: 0 <= k < |s| ==> r[k] == s[|s| - 1 - k]
  {
    if s == [] then [] else Reversed(s[1..]) + [s[0]]
  }

  /** Reversing twice gives back the original sequence. */
  lemma ReversedTwice<T>(s: seq<T>)
    ensures Reversed(Reversed(s)) == s
  {
    assert forall k :: 0 <= k < |s| ==> Reversed(Reversed(s))[k] == s[k];
  }

  /** Reversal moves the first element to the end. */
  lemma ReversedCons<T>(x: T, s: seq<T>)
    ensures Reversed([x] + s) == Reversed(s) + [x]
  {
    assert ([x] + s)[1..] == s;
  }

  /** Every element followed by the terminator `t`, all concatenated (a StringBuilder
      that appends `piece` then `t` for each piece). */
  function Terminated<T>(ls: seq<seq<T>>, t: seq<T>): seq<T>
  {
    if ls == [] then [] else ls[0] + t + Terminated(ls[1..], t)
  }

  /** Appending one more piece to the builder. */
  lemma {:induction false} TerminatedSnoc<T>(ls: seq<seq<T>>, x: seq<T>, t: seq<T>)
    ensures Terminated(ls + [x], t) == Terminated(ls, t) + x + t
  {
    if ls == [] {
      assert [] + [x] == [x];
      assert [x][1..] == [];
    } else {
      assert (ls + [x])[1..] == ls[1..] + [x];
      TerminatedSnoc(ls[1..], x, t);
    }
  }

  /** The builder's output is empty only when there are no pieces, and otherwise
      ends with the terminator. */
  lemma {:induction false} TerminatedLast<T>(ls: seq<seq<T>>, t: seq<T>)
    requires t != []
    ensures Terminated(ls, t) == [] <==> ls == []
    ensures ls != [] ==> Terminated(ls, t)[|Terminated(ls, t)| - 1] == t[|t| - 1]
  {
    if ls != [] {
      TerminatedLast(ls[1..], t);
    }
  }

  /** The total length of the pieces. */
  function SumLengths<T>(ls: seq<seq<T>>): nat
  {
    if ls == [] then 0 else |ls[0]| + SumLengths(ls[1..])
  }

  /** Terminated output is the pieces' lengths plus one terminator per piece. */
  lemma {:induction false} TerminatedLength<T>(ls: seq<seq<T>>, t: seq<T>)
    ensures |Terminated(ls, t)| == SumLengths(ls) + |ls| * |t|
  {
    if ls != [] {
      TerminatedLength(ls[1..], t);
    }
  }

  lemma {:induction false} SumLengthsAppend<T>(a: seq<seq<T>>, b: seq<seq<T>>)
    ensures SumLengths(a + b) == SumLengths(a) + SumLengths(b)
  {
    if a == [] {
      assert a + b == b;
    } else {
      assert (a + b)[1..] == a[1..] + b;
      SumLengthsAppend(a[1..], b);
    }
  }

  /** Reversing the order of the pieces keeps their total length. */
  lemma {:induction false} SumLengthsReversed<T>(ls: seq<seq<T>>)
    ensures SumLengths(Reversed(ls)) == SumLengths(ls)
  {
    if ls != [] {
      SumLengthsReversed(ls[1..]);
      SumLengthsAppend(Reversed(ls[1..]), [ls[0]]);
      assert [ls[0]][1..] == [];
    }
  }

  /** All the pieces concatenated with nothing between them. */
  function Concat<T>(ls: seq<seq<T>>): seq<T>
  {
    if ls == [] then [] else ls[0] + Concat(ls[1..])
  }

  lemma {:induction false} ConcatSnoc<T>(ls: seq<seq<T>>, x: seq<T>)
    ensures Concat(ls + [x]) == Concat(ls) + x
  {
    if ls == [] {
      assert [] + [x] == [x];
      assert [x][1..] == [];
    } else {
      assert (ls + [x])[1..] == ls[1..] + [x];
      ConcatSnoc(ls[1..], x);
    }
  }

  /** The number of occurrences of `x` in `s`. */
  function Count<T(==)>(s: seq<T>, x: T): nat
  {
    if s == [] then 0 else (if s[0] == x then 1 else 0) + Count(s[1..], x)
  }

  lemma {:induction false} CountAppend<T>(a: seq<T>, b: seq<T>, x: T)
    ensures Count(a + b, x) == Count(a, x) + Count(b, x)
  {
    if a == [] {
      assert a + b == b;
    } else {
      assert (a + b)[1..] == a[1..] + b;
      CountAppend(a[1..], b, x);
    }
  }

  /** A value that does not occur is counted zero times. */
  lemma {:induction false} CountAbsent<T>(s: seq<T>, x: T)
    requires x !in s
    ensures Count(s, x) == 0
  {
    if s != [] {
      assert x !in s[1..] by {
        assert forall k :: 0 <= k < |s| - 1 ==> s[1..][k] == s[k + 1];
      }
      CountAbsent(s[1..], x);
    }
  }

  /** `s` with every occurrence of `x` deleted, the other elements in order. */
  function Remove<T(==)>(s: seq<T>, x: T): (r: seq<T>)
    ensures x !in r
  {
    if s == [] then []
    else (if s[0] == x then [] else [s[0]]) + Remove(s[1..], x)
  }

  lemma {:induction false} RemoveAppend<T>(a: seq<T>, b: seq<T>, x: T)
    ensures Remove(a + b, x) == Remove(a, x) + Remove(b, x)
  {
    if a == [] {
      assert a + b == b;
    } else {
      assert (a + b)[1..] == a[1..] + b;
      RemoveAppend(a[1..], b, x);
    }
  }

  /** Deleting a value that does not occur changes nothing. */
  lemma {:induction false} RemoveAbsent<T>(s: seq<T>, x: T)
    requires x !in s
    ensures Remove(s, x) == s
  {
    if s != [] {
      assert x !in s[1..] by {
        assert forall k :: 0 <= k < |s| - 1 ==> s[1..][k] == s[k + 1];
      }
      RemoveAbsent(s[1..], x);
      assert [s[0]] + s[1..] == s;
    }
  }

  /** Deleting one value leaves the count of every other value unchanged. */
  lemma {:induction false} RemoveKeepsCount<T>(s: seq<T>, x: T, y: T)
    requires x != y
    ensures Count(Remove(s, x), y) == Count(s, y)
  {
    if s != [] {
      RemoveKeepsCount(s[1..], x, y);
      CountAppend(if s[0] == x then [] else [s[0]], Remove(s[1..], x), y);
      assert [s[0]][1..] == [];
    }
  }

  /** Deleting `x` from a sequence made only of `x` leaves nothing. */
  lemma {:induction false} RemoveOnly<T>(s: seq<T>, x: T)
    requires forall i :: 0 <= i < |s| ==> s[i] == x
    ensures Remove(s, x) == []
  {
    if s != [] {
      assert forall i :: 0 <= i < |s| - 1 ==> s[1..][i] == s[i + 1];
      RemoveOnly(s[1..], x);
    }
  }

  /** An element other than `x` survives the deletion. */
  lemma {:induction false} RemoveKeepsOther<T>(s: seq<T>, x: T, i: nat)
    requires i < |s| && s[i] != x
    ensures Remove(s, x) != []
  {
    if i > 0 && s[0] == x {
      assert s[1..][i - 1] == s[i];
      RemoveKeepsOther(s[1..], x, i - 1);
    }
  }

  /** Pieces whose concatenation is empty are all empty. */
  lemma {:induction false} ConcatEmpty<T>(ls: seq<seq<T>>, i: nat)
    requires i < |ls| && Concat(ls) == []
    ensures ls[i] == []
  {
    if i > 0 {
      ConcatEmpty(ls[1..], i - 1);
    }
  }
}
