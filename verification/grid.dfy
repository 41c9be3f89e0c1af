/** The `Matrix` extension of the solver: a matrix is a list of rows of
    tokens (`[[String]]`), with transposition and a plain-text form
    (tokens separated by spaces, rows by newlines).
 */
module Grid {
  import opened Text

  type Token = string
  type Matrix = seq<seq<Token>>

  /** `transpose()` reads `$0[index]` of every row for each index of the first
      row, so it traps unless every row is at least as long as the first. */
  predicate Transposable(m: Matrix)
  {
    |m| == 0 || forall i :: 0 <= i < |m| ==> |m[0]| <= |m[i]|
  }

  predicate Rectangular(m: Matrix)
  {
    |m| == 0 || forall i :: 0 <= i < |m| ==> |m[i]| == |m[0]|
  }

  /** Row `i` of the transpose is column `i` of `m`: `t[i][j] == m[j][i]`;
      an empty matrix transposes to an empty one. */
  function Transpose(m: Matrix): (t: Matrix)
    requires Transposable(m)
    ensures |m| == 0 ==> t == []
    ensures |m| > 0 ==> |t| == |m[0]|
    ensures forall i :: 0 <= i < |t| ==> |t[i]| == |m|
    ensures forall i, j :: 0 <= i < |t| && 0 <= j < |m| ==> t[i][j] == m[j][i]
  {
    if |m| == 0 then []
    else seq(|m[0]|, i requires 0 <= i < |m[0]| => seq(|m|, j requires 0 <= j < |m| => m[j][i]))
  }

  /** Transposing twice gives back any rectangular matrix whose rows are
      non-empty (a matrix of empty rows transposes to `[]`). */
  lemma TransposeInvolution(m: Matrix)
    requires Rectangular(m)
    requires |m| > 0 ==> |m[0]| > 0
    ensures Transposable(m) && Transposable(Transpose(m))
    ensures Transpose(Transpose(m)) == m
  {
    if |m| > 0 {
      var t := Transpose(m);
      var tt := Transpose(t);
      assert |tt| == |m|;
      forall j | 0 <= j < |m|
        ensures tt[j] == m[j]
      {
        assert |tt[j]| == |m[j]|;
      }
    }
  }

  function RowText(row: seq<Token>): string
  {
    Join(row, ' ')
  }

  /** `asText()`: tokens joined by spaces, rows joined by newlines. */
  function AsText(m: Matrix): string
  {
    Join(seq(|m|, i requires 0 <= i < |m| => RowText(m[i])), '\n')
  }

  /** `fromText(text:)`: split into lines, then each line into tokens. */
  function FromText(text: string): (m: Matrix)
    ensures forall i, j :: 0 <= i < |m| && 0 <= j < |m[i]| ==> IsPiece(m[i][j], ' ')
  {
    var lines := Split(text, '\n');
    seq(|lines|, i requires 0 <= i < |lines| => Split(lines[i], ' '))
  }

  /** A token that survives the text round trip. */
  predicate PlainToken(tok: Token)
  {
    |tok| > 0 && ' ' !in tok && '\n' !in tok
  }

  /** `fromText(asText(m)) == m` for matrices of non-empty rows of plain tokens. */
  lemma FromTextAsText(m: Matrix)
    requires forall i :: 0 <= i < |m| ==> |m[i]| > 0
    requires forall i, j :: 0 <= i < |m| && 0 <= j < |m[i]| ==> PlainToken(m[i][j])
    ensures FromText(AsText(m)) == m
  {
    var lines := seq(|m|, i requires 0 <= i < |m| => RowText(m[i]));
    forall i | 0 <= i < |m|
      ensures IsPiece(lines[i], '\n')
      ensures Split(lines[i], ' ') == m[i]
    {
      JoinAvoids(m[i], ' ', '\n');
      JoinNonEmpty(m[i], ' ');
      SplitJoin(m[i], ' ');
    }
    SplitJoin(lines, '\n');
  }

  lemma JoinNonEmpty(xs: seq<string>, sep: char)
    requires |xs| > 0 && |xs[0]| > 0
    ensures |Join(xs, sep)| > 0
  {
  }
}
