/** `Solver.solve(riddle:)` (Solver.swift:194-239): for every start column,
    enumerate the chains of `bufferSize` nodes in lexicographic order, render
    each as the buffer of tokens it picks, and offer the chain to the
    solution list when its buffer matches at least one target.

    The source transposes the matrix first, so a node `(x, y)` reads the
    token in row `y`, column `x` of the puzzle as printed.  `solve` returns
    nil only when the buffer is longer than the grid has cells.
 */
module Solver {
  import opened Wrappers
  import opened Chains
  import opened Grid
  import opened Subarray
  import opened ChainModifier
  import opened Enumeration
  import opened Frontier

  datatype Riddle = Riddle(matrix: Matrix, targets: seq<seq<Token>>)

  /** Every node of `c` indexes a token of `t`. */
  predicate Renderable(c: Chain, t: Matrix)
  {
    forall k :: 0 <= k < |c| ==> 0 <= c[k].x < |t| && 0 <= c[k].y < |t[c[k].x]|
  }

  /** `render(chain:withMatrix:)`: the token under each node, in chain order;
      it traps on a node outside the matrix. */
  function Render(c: Chain, t: Matrix): (r: Run<seq<Token>>)
    ensures !r.Hangs?
    ensures r.Returns? <==> Renderable(c, t)
    ensures r.Returns? ==> |r.value| == |c|
    ensures r.Returns? ==> forall k :: 0 <= k < |c| ==> r.value[k] == t[c[k].x][c[k].y]
  {
    if Renderable(c, t) then Returns(seq(|c|, k requires 0 <= k < |c| => t[c[k].x][c[k].y]))
    else Traps
  }

  /** The indices of the targets among the first `k` that occur in the buffer. */
  function MatchedUpTo(buffer: seq<Token>, targets: seq<seq<Token>>, k: nat): (ids: set<int>)
    requires k <= |targets|
    ensures forall i :: i in ids <==> 0 <= i < k && IsSubarray(targets[i], buffer)
  {
    if k == 0 then {}
    else if IsSubarray(targets[k - 1], buffer) then MatchedUpTo(buffer, targets, k - 1) + {k - 1}
    else MatchedUpTo(buffer, targets, k - 1)
  }

  /** `matchedTargetsIndexes(buffer:targets:)`: the indices of the targets
      that occur contiguously in the buffer. */
  function MatchedTargets(buffer: seq<Token>, targets: seq<seq<Token>>): (ids: set<int>)
    ensures forall i :: i in ids <==>
      0 <= i < |targets| && exists p :: OccursAt(targets[i], buffer, p)
    ensures ids <= Range(|targets|)
  {
    MatchedUpTo(buffer, targets, |targets|)
  }

  /** The body of the inner `while` of `solve` up to `nextChain`
      (Solver.swift:204-232): render `c`, offer it to the list when it
      matches some target, and say whether this start column is done (a
      solution matching every target was appended). */
  function Visit(sols: seq<Solution>, c: Chain, t: Matrix, targets: seq<seq<Token>>): (r: Run<(seq<Solution>, bool)>)
    ensures !r.Hangs?
    ensures r.Returns? <==> Renderable(c, t)
  {
    match Render(c, t)
    case Traps => Traps
    case Hangs => Hangs
    case Returns(buffer) =>
      var ids := MatchedTargets(buffer, targets);
      var (sols1, appended) := if |ids| > 0 then Offer(sols, Solution(c, ids)) else (sols, false);
      Returns((sols1, appended && |ids| == |targets|))
  }

  /** The successor `nextChain` gives is a valid chain of the same length,
      later in lexicographic order, so the search moves forward. */
  lemma NextChainProgress(c: Chain, n: int)
    requires ValidChain(c, n)
    ensures var r := NextChain(c, n); r.Returns? && r.value.Some? ==>
      && ValidChain(r.value.value, n)
      && |r.value.value| == |c|
      && LexLess(c, r.value.value)
      && 0 <= Pow(n, |c|) - Rank(r.value.value, n) < Pow(n, |c|) - Rank(c, n)
  {
    var r := NextChain(c, n);
    if r.Returns? && r.value.Some? {
      NextChainValid(c, n);
      NextChainAdvances(c, n);
      RankIncreases(c, r.value.value, n);
      RankBound(r.value.value, n);
    }
  }

  /** The inner `while` of `solve` (Solver.swift:203-234) from chain `c`:
      visit `c`, stop once a solution matching every target has been
      appended, otherwise step to the next chain. */
  function Enumerate(sols: seq<Solution>, c: Chain, t: Matrix, targets: seq<seq<Token>>): (r: Run<seq<Solution>>)
    requires ValidChain(c, |t|)
    decreases Pow(|t|, |c|) - Rank(c, |t|)
  {
    match Visit(sols, c, t, targets)
    case Traps => Traps
    case Hangs => Hangs
    case Returns((sols1, done)) =>
      if done then Returns(sols1)
      else
        match NextChain(c, |t|)
        case Returns(None) => Returns(sols1)
        case Returns(Some(d)) =>
          NextChainProgress(c, |t|);
          Enumerate(sols1, d, t, targets)
        case Hangs => Hangs
        case Traps => Traps
  }

  /** An inner loop that returns either stopped with the list visiting `c`
      left, or handed that list to the valid successor of `c`. */
  lemma EnumerateReturns(sols: seq<Solution>, c: Chain, t: Matrix, targets: seq<seq<Token>>)
    requires ValidChain(c, |t|) && Enumerate(sols, c, t, targets).Returns?
    ensures Visit(sols, c, t, targets).Returns?
    ensures var v, r := Visit(sols, c, t, targets).value, NextChain(c, |t|);
      || Enumerate(sols, c, t, targets) == Returns(v.0)
      || (&& !v.1 && r.Returns? && r.value.Some? && ValidChain(r.value.value, |t|)
          && Enumerate(sols, c, t, targets) == Enumerate(v.0, r.value.value, t, targets))
  {
    var v := Visit(sols, c, t, targets);
    if v.Returns? && !v.value.1 {
      NextChainProgress(c, |t|);
    }
  }

  /** A chain that does not end the column hands the list to its successor. */
  lemma EnumerateNext(sols: seq<Solution>, c: Chain, t: Matrix, targets: seq<seq<Token>>)
    requires ValidChain(c, |t|)
    requires Visit(sols, c, t, targets).Returns? && !Visit(sols, c, t, targets).value.1
    requires NextChain(c, |t|).Returns? && NextChain(c, |t|).value.Some?
    requires ValidChain(NextChain(c, |t|).value.value, |t|)
    ensures Enumerate(sols, c, t, targets) ==
      Enumerate(Visit(sols, c, t, targets).value.0, NextChain(c, |t|).value.value, t, targets)
  {
  }

  /** Without a successor the inner loop ends with the visited list. */
  lemma EnumerateLast(sols: seq<Solution>, c: Chain, t: Matrix, targets: seq<seq<Token>>)
    requires ValidChain(c, |t|)
    requires Visit(sols, c, t, targets).Returns?
    requires Visit(sols, c, t, targets).value.1 || NextChain(c, |t|) == Returns(None)
    ensures Enumerate(sols, c, t, targets) == Returns(Visit(sols, c, t, targets).value.0)
  {
  }

  /** A chain that cannot be rendered, or whose successor traps, traps the
      inner loop. */
  lemma EnumerateTraps(sols: seq<Solution>, c: Chain, t: Matrix, targets: seq<seq<Token>>)
    requires ValidChain(c, |t|)
    requires || Visit(sols, c, t, targets).Traps?
             || (Visit(sols, c, t, targets).Returns? && !Visit(sols, c, t, targets).value.1 && NextChain(c, |t|) == Traps)
    ensures Enumerate(sols, c, t, targets) == Traps
  {
  }

  /** One pass of the `for startX` loop (Solver.swift:199-234): grow the
      first chain from column `x` of the top row, nil when the buffer does
      not fit, then run the inner loop from it. */
  function Column(sols: seq<Solution>, t: Matrix, targets: seq<seq<Token>>, bufferSize: int, x: nat): (r: Run<Option<seq<Solution>>>)
    requires x < |t|
  {
    match BuildChain([Node(x, 0)], |t|, bufferSize)
    case Returns(None) => Returns(None)
    case Hangs => Hangs
    case Traps => Traps
    case Returns(Some(c)) =>
      SeedValid(x, |t|, bufferSize);
      match Enumerate(sols, c, t, targets)
      case Returns(sols1) => Returns(Some(sols1))
      case Hangs => Hangs
      case Traps => Traps
  }

  /** The `for startX` loop of `solve` (Solver.swift:198-235) over columns
      `x ..< n`: run `pass` on each column in turn, handing its list to the
      next, and stop at the first pass that gives nil, hangs or traps. */
  function ForColumns(pass: (seq<Solution>, nat) -> Run<Option<seq<Solution>>>, sols: seq<Solution>, x: nat, n: nat): (r: Run<Option<seq<Solution>>>)
    decreases n - x
  {
    if x >= n then Returns(Some(sols))
    else
      match pass(sols, x)
      case Returns(Some(sols1)) => ForColumns(pass, sols1, x + 1, n)
      case Returns(None) => Returns(None)
      case Hangs => Hangs
      case Traps => Traps
  }

  /** The body of the `for startX` loop as a function of the list and the
      column. */
  function ColumnPass(t: Matrix, targets: seq<seq<Token>>, bufferSize: int): (seq<Solution>, nat) -> Run<Option<seq<Solution>>>
  {
    (sols: seq<Solution>, x: nat) => if x < |t| then Column(sols, t, targets, bufferSize, x) else Returns(Some(sols))
  }

  /** The `for startX` loop of `solve` from column `x` on. */
  function SolveFrom(sols: seq<Solution>, t: Matrix, targets: seq<seq<Token>>, bufferSize: int, x: nat): Run<Option<seq<Solution>>>
  {
    ForColumns(ColumnPass(t, targets, bufferSize), sols, x, |t|)
  }

  /** `inv` holds of the list after column `x` whenever it held before. */
  predicate PassKeeps(pass: (seq<Solution>, nat) -> Run<Option<seq<Solution>>>, inv: (seq<Solution>, int) -> bool, sols: seq<Solution>, x: nat)
  {
    var r := pass(sols, x);
    inv(sols, x) && r.Returns? && r.value.Some? ==> inv(r.value.value, x + 1)
  }

  /** What every pass keeps, the loop over the columns keeps. */
  lemma {:induction false} ForColumnsInvariant(pass: (seq<Solution>, nat) -> Run<Option<seq<Solution>>>, inv: (seq<Solution>, int) -> bool, sols: seq<Solution>, x: nat, n: nat)
    requires x <= n && inv(sols, x)
    requires forall s: seq<Solution>, y: nat :: y < n ==> PassKeeps(pass, inv, s, y)
    ensures var r := ForColumns(pass, sols, x, n);
      r.Returns? && r.value.Some? ==> inv(r.value.value, n)
    decreases n - x
  {
    if x < n {
      assert PassKeeps(pass, inv, sols, x);
      var r := pass(sols, x);
      if r.Returns? && r.value.Some? {
        ForColumnsInvariant(pass, inv, r.value.value, x + 1, n);
      }
    }
  }

  /** An outcome no pass has (nil, a trap) the loop does not have either. */
  lemma {:induction false} ForColumnsAvoids(pass: (seq<Solution>, nat) -> Run<Option<seq<Solution>>>, bad: Run<Option<seq<Solution>>>, sols: seq<Solution>, x: nat, n: nat)
    requires !(bad.Returns? && bad.value.Some?)
    requires forall s: seq<Solution>, y: nat :: y < n ==> pass(s, y) != bad
    ensures ForColumns(pass, sols, x, n) != bad
    decreases n - x
  {
    if x < n {
      var r := pass(sols, x);
      if r.Returns? && r.value.Some? {
        ForColumnsAvoids(pass, bad, r.value.value, x + 1, n);
      }
    }
  }

  /** `solve(riddle:)`: nil when the buffer does not fit in the grid,
      otherwise the solution list; it traps when a row of the puzzle is
      shorter than the first (inside `transpose`). */
  function Solve(riddle: Riddle, bufferSize: int): (r: Run<Option<seq<Solution>>>)
    ensures !Transposable(riddle.matrix) ==> r == Traps
  {
    if !Transposable(riddle.matrix) then Traps
    else SolveFrom([], Transpose(riddle.matrix), riddle.targets, bufferSize, 0)
  }

  /** The chain `buildChain` grows from a start column is valid. */
  lemma SeedValid(x: nat, n: int, bufferSize: int)
    requires x < n
    ensures var r := BuildChain([Node(x, 0)], n, bufferSize);
      r.Returns? && r.value.Some? ==> ValidChain(r.value.value, n) && r.value.value[0] == Node(x, 0)
  {
    var seed := [Node(x, 0)];
    assert ValidChain(seed, n);
    BuildChainValid(seed, n, bufferSize);
    var r := BuildChain(seed, n, bufferSize);
    if r.Returns? && r.value.Some? {
      assert r.value.value[0] == r.value.value[..1][0];
    }
  }

  /** A column pass that returns a list ran the inner loop from the valid
      chain `buildChain` grew from the column's top cell. */
  lemma ColumnChain(sols: seq<Solution>, t: Matrix, targets: seq<seq<Token>>, bufferSize: int, x: nat) returns (c: Chain)
    requires x < |t|
    requires Column(sols, t, targets, bufferSize, x).Returns? && Column(sols, t, targets, bufferSize, x).value.Some?
    ensures BuildChain([Node(x, 0)], |t|, bufferSize) == Returns(Some(c))
    ensures ValidChain(c, |t|) && c[0] == Node(x, 0) && |c| == Max(1, bufferSize)
    ensures Enumerate(sols, c, t, targets) == Returns(Column(sols, t, targets, bufferSize, x).value.value)
  {
    c := BuildChain([Node(x, 0)], |t|, bufferSize).value.value;
    SeedValid(x, |t|, bufferSize);
  }
}
