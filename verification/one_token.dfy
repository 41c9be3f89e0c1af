/** `solve` with a buffer of at most one token.  Every chain is then a lone
    node of the top row, and `nextChain` on the node of the last column traps
    in `removeLast` (Solver.swift:179-182).  So a start column ends without
    trapping only through the `break` of Solver.swift:231, once a solution
    matching every target is appended, and after that no later column can
    append anything.  The outcome is exact: the empty list for a puzzle with
    an empty first row, the top-left token alone for a one-column puzzle
    whose top-left token matches every target, and a trap otherwise.
 */
module OneToken {
  import opened Wrappers
  import opened Chains
  import opened Grid
  import opened Frontier
  import opened Solver
  import opened SolverProperties
  import opened SolverCompleteness

  /** The top-left token of the puzzle, as a one-token buffer, matches every
      one of a non-empty list of targets. */
  predicate TopLeftMatchesAll(riddle: Riddle)
  {
    && |riddle.matrix| >= 1 && |riddle.matrix[0]| >= 1
    && |riddle.targets| >= 1
    && MatchedTargets([riddle.matrix[0][0]], riddle.targets) == Range(|riddle.targets|)
  }

  /** Every column of the grid the solver searches has a top cell. */
  predicate TopRowFilled(t: Matrix)
  {
    forall i :: 0 <= i < |t| ==> |t[i]| >= 1
  }

  /** A lone node offered to a list that already covers every target (or
      with no targets at all) changes nothing and does not end the column. */
  lemma VisitCoveredStays(sols: seq<Solution>, x: int, t: Matrix, targets: seq<seq<Token>>)
    requires 0 <= x < |t| && |t[x]| >= 1
    requires |targets| == 0 || (Antichain(sols) && Covered(sols, Range(|targets|)))
    ensures Visit(sols, [Node(x, 0)], t, targets) == Returns((sols, false))
  {
    var c := [Node(x, 0)];
    SingleNodeRenders(x, t);
    var ids := MatchedTargets([t[x][0]], targets);
    if |ids| > 0 {
      var k :| 0 <= k < |sols| && Range(|targets|) <= sols[k].matchedTargetIDs;
      assert Covered(sols, ids);
      OfferOnAntichain(sols, Solution(c, ids));
    }
  }

  /** From such a list the inner loop runs through the rest of the top row
      and then traps. */
  lemma {:induction false} EnumerateCoveredTraps(sols: seq<Solution>, x: int, t: Matrix, targets: seq<seq<Token>>)
    requires 0 <= x < |t| && TopRowFilled(t)
    requires |targets| == 0 || (Antichain(sols) && Covered(sols, Range(|targets|)))
    ensures Enumerate(sols, [Node(x, 0)], t, targets) == Traps
    decreases |t| - x
  {
    var c, n := [Node(x, 0)], |t|;
    assert ValidChain(c, n);
    VisitCoveredStays(sols, x, t, targets);
    if x + 1 < n {
      SingleNodeNext(x, n);
      assert ValidChain([Node(x + 1, 0)], n);
      EnumerateNext(sols, c, t, targets);
      EnumerateCoveredTraps(sols, x + 1, t, targets);
    } else {
      SingleNodeLast(x, n);
    }
  }

  /** In a one-column grid the only column returns the top-left solution
      when it matches every target, and traps otherwise. */
  lemma OneColumnPass(riddle: Riddle, bufferSize: int)
    requires Transposable(riddle.matrix) && |riddle.matrix| >= 1 && bufferSize <= 1
    requires |Transpose(riddle.matrix)| == 1
    ensures Column([], Transpose(riddle.matrix), riddle.targets, bufferSize, 0) ==
      if TopLeftMatchesAll(riddle)
      then Returns(Some([Solution([Node(0, 0)], Range(|riddle.targets|))]))
      else Traps
  {
    var t, targets := Transpose(riddle.matrix), riddle.targets;
    var c := [Node(0, 0)];
    SingleSeed(0, 1, bufferSize);
    SingleNodeRenders(0, t);
    assert t[0][0] == riddle.matrix[0][0];
    var ids := MatchedTargets([t[0][0]], targets);
    assert ValidChain(c, 1);
    SingleNodeLast(0, 1);
    if |ids| > 0 {
      var cand := Solution(c, ids);
      OfferOnAntichain([], cand);
      assert !Covered([], ids) && Keep([], ids) == [];
      assert Offer([], cand).1;
      assert Offer([], cand).0 == [] + [cand] == [cand];
      if |ids| == |targets| {
        SameSizeSubset(ids, Range(|targets|));
      }
      assert TopLeftMatchesAll(riddle) <==> |ids| == |targets|;
    } else {
      assert !TopLeftMatchesAll(riddle) by {
        if |targets| >= 1 {
          assert 0 in Range(|targets|);
        }
      }
    }
  }

  /** In a grid of two or more columns the first column traps or ends with a
      list covering every target, and the second column then traps. */
  lemma ManyColumnsTrap(t: Matrix, targets: seq<seq<Token>>, bufferSize: int)
    requires |t| >= 2 && TopRowFilled(t) && bufferSize <= 1
    ensures SolveFrom([], t, targets, bufferSize, 0) == Traps
  {
    var pass := ColumnPass(t, targets, bufferSize);
    var r := Column([], t, targets, bufferSize, 0);
    ColumnSingleCovers([], t, targets, bufferSize, 0, Range(|targets|));
    ColumnSound([], t, targets, bufferSize, 0);
    if r.Returns? {
      var sols := r.value.value;
      SingleSeed(1, |t|, bufferSize);
      EnumerateCoveredTraps(sols, 1, t, targets);
      assert pass(sols, 1) == Traps;
      assert ForColumns(pass, sols, 1, |t|) == Traps;
    }
  }

  /** What `solve` does with a buffer of at most one token, for every puzzle
      whose rows are at least as long as the first. */
  lemma SolveOneToken(riddle: Riddle, bufferSize: int)
    requires Transposable(riddle.matrix) && |riddle.matrix| >= 1 && bufferSize <= 1
    ensures Solve(riddle, bufferSize) ==
      if |riddle.matrix[0]| == 0 then Returns(Some([]))
      else if |riddle.matrix[0]| == 1 && TopLeftMatchesAll(riddle)
      then Returns(Some([Solution([Node(0, 0)], Range(|riddle.targets|))]))
      else Traps
  {
    var t := Transpose(riddle.matrix);
    assert |t| == |riddle.matrix[0]|;
    assert TopRowFilled(t);
    if |t| == 1 {
      OneColumnPass(riddle, bufferSize);
    } else if |t| >= 2 {
      ManyColumnsTrap(t, riddle.targets, bufferSize);
    }
  }
}
