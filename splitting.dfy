/** `String.prototype.split` and `Array.prototype.join` with a one-character
    separator, as the parameter-string codec uses them. */
module Splitting {

  /** `pieces.join(sep)`: the pieces with one separator between neighbours;
      the empty list joins to the empty string. */
  function Join(pieces: seq<string>, sep: char): (s: string)
    ensures pieces != [] ==> |s| >= |pieces[0]| && s[..|pieces[0]|] == pieces[0]
    ensures |pieces| > 1 ==> |s| > |pieces[0]| && s[|pieces[0]|] == sep
  {
    if pieces == [] then []
    else if |pieces| == 1 then pieces[0]
    else pieces[0] + [sep] + Join(pieces[1..], sep)
  }

  /** `s.split(sep)`: the maximal separator-free pieces of `s`, in order,
      keeping the empty pieces that neighbouring or trailing separators leave. */
  function Split(s: string, sep: char): (pieces: seq<string>)
    ensures |pieces| >= 1
    ensures forall i :: 0 <= i < |pieces| ==> sep !in pieces[i]
    ensures (sep in s) == (|pieces| > 1)
    ensures Join(pieces, sep) == s
  {
    if s == [] then [[]]
    else
      var rest := Split(s[1..], sep);
      if s[0] == sep then
        assert s == [sep] + s[1..];
        [[]] + rest
      else
        var pieces := [[s[0]] + rest[0]] + rest[1..];
        assert pieces[1..] == rest[1..];
        assert s == [s[0]] + s[1..];
        pieces
  }

  /** Splitting a string whose first separator sits at index i (or that has
      none, when i == |s|) yields the text before it and then the pieces of
      the text after it. */
  lemma {:induction false} SplitAtFirst(s: string, sep: char, i: nat)
    requires i <= |s| && sep !in s[..i]
    requires i == |s| || s[i] == sep
    ensures Split(s, sep)[0] == s[..i]
    ensures i < |s| ==> Split(s, sep)[1..] == Split(s[i + 1..], sep)
    ensures i == |s| ==> Split(s, sep) == [s]
  {
    if i == 0 {
      if s != [] {
        assert s[1..] == s[i + 1..];
      }
    } else {
      assert s[0] != sep by { assert s[0] == s[..i][0]; }
      assert s[1..][..i - 1] == s[..i][1..];
      SplitAtFirst(s[1..], sep, i - 1);
      if i < |s| {
        assert s[1..][i - 1 + 1..] == s[i + 1..];
      }
      assert s[..i] == [s[0]] + s[1..][..i - 1];
    }
  }

  /** The first two pieces of a string whose first separator is at i and
      whose next one (or the end) is at j. */
  lemma SplitFirstTwo(s: string, sep: char, i: nat, j: nat)
    requires i < j <= |s| && s[i] == sep
    requires sep !in s[..i] && sep !in s[i + 1..j]
    requires j == |s| || s[j] == sep
    ensures |Split(s, sep)| >= 2
    ensures Split(s, sep)[0] == s[..i]
    ensures Split(s, sep)[1] == s[i + 1..j]
  {
    SplitAtFirst(s, sep, i);
    FirstPieceAfter(s, sep, i, j);
  }

  /** The first piece of the text after index i ends at j. */
  lemma FirstPieceAfter(s: string, sep: char, i: nat, j: nat)
    requires i < j <= |s| && sep !in s[i + 1..j]
    requires j == |s| || s[j] == sep
    ensures Split(s[i + 1..], sep)[0] == s[i + 1..j]
  {
    var rest := s[i + 1..];
    assert rest[..j - (i + 1)] == s[i + 1..j];
    SplitAtFirst(rest, sep, j - (i + 1));
  }

  /** Joining separator-free pieces and splitting the result gives the pieces back. */
  lemma {:induction false} SplitJoin(pieces: seq<string>, sep: char)
    requires |pieces| >= 1
    requires forall i :: 0 <= i < |pieces| ==> sep !in pieces[i]
    ensures Split(Join(pieces, sep), sep) == pieces
  {
    var s := Join(pieces, sep);
    if |pieces| == 1 {
      assert s[..|s|] == s;
      SplitAtFirst(s, sep, |s|);
    } else {
      var head := pieces[0];
      assert s == head + [sep] + Join(pieces[1..], sep);
      assert s[..|head|] == head;
      assert s[|head| + 1..] == Join(pieces[1..], sep);
      SplitAtFirst(s, sep, |head|);
      SplitJoin(pieces[1..], sep);
      assert Split(s, sep) == [Split(s, sep)[0]] + Split(s, sep)[1..];
    }
  }

  /** A character other than the separator occurs in a join only if some piece has it. */
  lemma {:induction false} JoinOmits(pieces: seq<string>, sep: char, c: char)
    requires c != sep && forall i :: 0 <= i < |pieces| ==> c !in pieces[i]
    ensures c !in Join(pieces, sep)
  {
    if |pieces| > 1 {
      JoinOmits(pieces[1..], sep, c);
    }
  }

  /** A join is empty exactly when there is nothing to join or one empty piece. */
  lemma JoinEmpty(pieces: seq<string>, sep: char)
    ensures Join(pieces, sep) == [] <==> pieces == [] || pieces == [[]]
  {
    if |pieces| > 1 {
      assert Join(pieces, sep)[|pieces[0]|] == sep;
    }
  }

  /** A trailing separator adds one empty piece. */
  lemma {:induction false} SplitTrailingSeparator(s: string, sep: char)
    ensures Split(s + [sep], sep) == Split(s, sep) + [[]]
  {
    var pieces := Split(s, sep);
    JoinSnoc(pieces, [], sep);
    assert s + [sep] + [] == s + [sep];
    SplitJoin(pieces + [[]], sep);
  }

  /** Joining one more piece appends a separator and that piece. */
  lemma {:induction false} JoinSnoc(pieces: seq<string>, last: string, sep: char)
    requires pieces != []
    ensures Join(pieces + [last], sep) == Join(pieces, sep) + [sep] + last
  {
    if |pieces| > 1 {
      assert (pieces + [last])[1..] == pieces[1..] + [last];
      JoinSnoc(pieces[1..], last, sep);
    }
  }

}
