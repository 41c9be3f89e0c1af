/** Joining and splitting strings on a one-character separator.

    `Join` models Swift's `[String].joined(separator:)` and `Split` models
    `String.split(separator:)` with its default `omittingEmptySubsequences:
    true`: empty pieces (leading, trailing or doubled separators) are dropped.
    Strings are sequences of `char`; grapheme clustering is not modelled.
 */
module Text {

  /** Index of the first `c` in `s`, or `|s|` when there is none. */
  function IndexOf(s: string, c: char): (i: nat)
    ensures i <= |s|
    ensures i < |s| ==> s[i] == c
    ensures c !in s[..i]
  {
    if |s| == 0 then 0
    else if s[0] == c then 0
    else 1 + IndexOf(s[1..], c)
  }

  /** A piece `Split` can return: non-empty and free of the separator. */
  predicate IsPiece(s: string, sep: char)
  {
    |s| > 0 && sep !in s
  }

  function Join(xs: seq<string>, sep: char): string
  {
    if |xs| == 0 then ""
    else if |xs| == 1 then xs[0]
    else xs[0] + [sep] + Join(xs[1..], sep)
  }

  function Split(s: string, sep: char): (pieces: seq<string>)
    ensures forall k :: 0 <= k < |pieces| ==> IsPiece(pieces[k], sep)
    decreases |s|
  {
    var i := IndexOf(s, sep);
    if i == |s| then (if |s| == 0 then [] else [s])
    else (if i == 0 then [] else [s[..i]]) + Split(s[i + 1..], sep)
  }

  /** Every character of a join comes from a piece or is the separator. */
  lemma {:induction false} JoinAvoids(xs: seq<string>, sep: char, c: char)
    requires c != sep
    requires forall k :: 0 <= k < |xs| ==> c !in xs[k]
    ensures c !in Join(xs, sep)
  {
    if |xs| > 1 {
      JoinAvoids(xs[1..], sep, c);
    }
  }

  /** Splitting a join gives the pieces back when each is a proper piece. */
  lemma {:induction false} SplitJoin(xs: seq<string>, sep: char)
    requires forall k :: 0 <= k < |xs| ==> IsPiece(xs[k], sep)
    ensures Split(Join(xs, sep), sep) == xs
  {
    if |xs| == 0 {
    } else if |xs| == 1 {
      assert IndexOf(xs[0], sep) == |xs[0]|;
    } else {
      var s := Join(xs, sep);
      assert s == xs[0] + [sep] + Join(xs[1..], sep);
      IndexOfAfterPiece(xs[0], sep, Join(xs[1..], sep));
      assert s[|xs[0]| + 1..] == Join(xs[1..], sep);
      assert s[..|xs[0]|] == xs[0];
      SplitJoin(xs[1..], sep);
    }
  }

  lemma {:induction false} IndexOfAfterPiece(a: string, sep: char, b: string)
    requires sep !in a
    ensures IndexOf(a + [sep] + b, sep) == |a|
  {
    if |a| > 0 {
      assert (a + [sep] + b)[1..] == a[1..] + [sep] + b;
      IndexOfAfterPiece(a[1..], sep, b);
    }
  }

  /** Concatenation of pieces, each followed by `sep` (a "terminated" list). */
  function Terminated(xs: seq<string>, sep: char): string
  {
    if |xs| == 0 then "" else xs[0] + [sep] + Terminated(xs[1..], sep)
  }

  /** Splitting a terminated list gives the pieces back. */
  lemma {:induction false} SplitTerminated(xs: seq<string>, sep: char)
    requires forall k :: 0 <= k < |xs| ==> IsPiece(xs[k], sep)
    ensures Split(Terminated(xs, sep), sep) == xs
  {
    if |xs| > 0 {
      var s := Terminated(xs, sep);
      IndexOfAfterPiece(xs[0], sep, Terminated(xs[1..], sep));
      assert s[|xs[0]| + 1..] == Terminated(xs[1..], sep);
      assert s[..|xs[0]|] == xs[0];
      SplitTerminated(xs[1..], sep);
    }
  }
}
