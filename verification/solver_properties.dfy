/** What `solve` promises: every returned solution is a valid chain from
    the top row whose buffer matches exactly its recorded targets, no
    solution's targets include another's, every chain that matches some
    target has its targets covered by a returned solution, and `solve` gives
    nil exactly when the buffer cannot fit in the grid.
 */
module SolverProperties {
  import opened Wrappers
  import opened Chains
  import opened Grid
  import opened ChainModifier
  import opened Enumeration
  import opened Frontier
  import opened FrontierSources
  import opened Solver

  /** The targets a chain's buffer matches, when it can be rendered. */
  function Matches(c: Chain, t: Matrix, targets: seq<seq<Token>>): set<int>
  {
    match Render(c, t)
    case Returns(buffer) => MatchedTargets(buffer, targets)
    case _ => {}
  }

  /** A solution `solve` may return: a valid chain of the buffer's length
      that starts in the top row and matches exactly its (non-empty) set of
      targets. */
  predicate Sound(s: Solution, t: Matrix, targets: seq<seq<Token>>, bufferSize: int)
  {
    && ValidChain(s.chain, |t|)
    && |s.chain| == Max(1, bufferSize)
    && s.chain[0].y == 0
    && Renderable(s.chain, t)
    && s.matchedTargetIDs == Matches(s.chain, t, targets)
    && s.matchedTargetIDs != {}
  }

  predicate AllSound(sols: seq<Solution>, t: Matrix, targets: seq<seq<Token>>, bufferSize: int)
  {
    forall k {:trigger Sound(sols[k], t, targets, bufferSize)} :: 0 <= k < |sols| ==> Sound(sols[k], t, targets, bufferSize)
  }

  lemma BumpedRow(c: Chain, p: Chain, n: int)
    requires Bumped(c, p, n)
    ensures p[0].y == c[0].y
  {
    if |p| >= 2 {
      assert p[0] == p[..|p| - 1][0] && c[0] == c[..|p| - 1][0];
    }
  }

  /** `nextChain` keeps the row of the first node. */
  lemma NextChainRow(c: Chain, n: int)
    ensures var r := NextChain(c, n);
      r.Returns? && r.value.Some? ==> |c| >= 1 && r.value.value[0].y == c[0].y
  {
    var b := Backtrack(c, n);
    BacktrackOutcome(c, n);
    if b.Returns? && b.value.Some? {
      var p := b.value.value;
      BumpedRow(c, p, n);
      var r := BuildChain(p, n, |c|);
      if r.Returns? && r.value.Some? {
        assert r.value.value[0] == r.value.value[..|p|][0];
      }
    }
  }

  lemma OfferSound(sols: seq<Solution>, cand: Solution, t: Matrix, targets: seq<seq<Token>>, bufferSize: int)
    requires Antichain(sols) && AllSound(sols, t, targets, bufferSize) && Sound(cand, t, targets, bufferSize)
    ensures Antichain(Offer(sols, cand).0) && AllSound(Offer(sols, cand).0, t, targets, bufferSize)
  {
    OfferKeepsAntichain(sols, cand);
    var r := Offer(sols, cand).0;
    forall k | 0 <= k < |r|
      ensures Sound(r[k], t, targets, bufferSize)
    {
      OfferFrom(sols, cand, r[k]);
    }
  }

  /** Visiting a sound chain keeps the list an antichain of sound solutions. */
  lemma VisitSound(sols: seq<Solution>, c: Chain, t: Matrix, targets: seq<seq<Token>>, bufferSize: int)
    requires ValidChain(c, |t|) && |c| == Max(1, bufferSize) && c[0].y == 0
    requires Antichain(sols) && AllSound(sols, t, targets, bufferSize)
    ensures var v := Visit(sols, c, t, targets);
      v.Returns? ==> Antichain(v.value.0) && AllSound(v.value.0, t, targets, bufferSize)
  {
    if Render(c, t).Returns? {
      var ids := MatchedTargets(Render(c, t).value, targets);
      if |ids| > 0 {
        OfferSound(sols, Solution(c, ids), t, targets, bufferSize);
      }
    }
  }

  lemma SameSizeSubset(a: set<int>, b: set<int>)
    requires a <= b && |a| == |b|
    ensures a == b
  {
    assert b == a + (b - a);
    assert a * (b - a) == {};
  }

  lemma MatchesInRange(c: Chain, t: Matrix, targets: seq<seq<Token>>)
    ensures Matches(c, t, targets) <= Range(|targets|)
  {
  }

  /** When a visit ends the column (the chain was appended and matches
      every target), the list it leaves holds that one solution alone: every
      earlier solution's targets are among all the targets, so appending
      removed them all. */
  lemma VisitAllTargets(sols: seq<Solution>, c: Chain, t: Matrix, targets: seq<seq<Token>>, bufferSize: int)
    requires Antichain(sols) && AllSound(sols, t, targets, bufferSize)
    ensures var v := Visit(sols, c, t, targets);
      v.Returns? && v.value.1 ==> v.value.0 == [Solution(c, Matches(c, t, targets))]
  {
    var v := Visit(sols, c, t, targets);
    if v.Returns? && v.value.1 {
      var ids := Matches(c, t, targets);
      MatchesInRange(c, t, targets);
      SameSizeSubset(ids, Range(|targets|));
      forall k | 0 <= k < |sols|
        ensures sols[k].matchedTargetIDs <= ids
      {
        assert Sound(sols[k], t, targets, bufferSize);
        MatchesInRange(sols[k].chain, t, targets);
      }
      OfferAllTargets(sols, Solution(c, ids));
    }
  }

  /** The inner loop of `solve` keeps the list an antichain of sound
      solutions. */
  lemma {:induction false} EnumerateSound(sols: seq<Solution>, c: Chain, t: Matrix, targets: seq<seq<Token>>, bufferSize: int)
    requires ValidChain(c, |t|) && |c| == Max(1, bufferSize) && c[0].y == 0
    requires Antichain(sols) && AllSound(sols, t, targets, bufferSize)
    ensures var r := Enumerate(sols, c, t, targets);
      r.Returns? ==> Antichain(r.value) && AllSound(r.value, t, targets, bufferSize)
    decreases Pow(|t|, |c|) - Rank(c, |t|)
  {
    var n := |t|;
    if Enumerate(sols, c, t, targets).Returns? {
      EnumerateReturns(sols, c, t, targets);
      VisitSound(sols, c, t, targets, bufferSize);
      var v := Visit(sols, c, t, targets).value;
      if Enumerate(sols, c, t, targets) != Returns(v.0) {
        NextChainProgress(c, n);
        NextChainRow(c, n);
        EnumerateSound(v.0, NextChain(c, n).value.value, t, targets, bufferSize);
      }
    }
  }

  lemma ColumnSound(sols: seq<Solution>, t: Matrix, targets: seq<seq<Token>>, bufferSize: int, x: nat)
    requires x < |t|
    requires Antichain(sols) && AllSound(sols, t, targets, bufferSize)
    ensures var r := Column(sols, t, targets, bufferSize, x);
      r.Returns? && r.value.Some? ==> Antichain(r.value.value) && AllSound(r.value.value, t, targets, bufferSize)
  {
    var r := Column(sols, t, targets, bufferSize, x);
    if r.Returns? && r.value.Some? {
      var c := ColumnChain(sols, t, targets, bufferSize, x);
      EnumerateSound(sols, c, t, targets, bufferSize);
    }
  }

  lemma SolveFromSound(sols: seq<Solution>, t: Matrix, targets: seq<seq<Token>>, bufferSize: int, x: nat)
    requires x <= |t|
    requires Antichain(sols) && AllSound(sols, t, targets, bufferSize)
    ensures var r := SolveFrom(sols, t, targets, bufferSize, x);
      r.Returns? && r.value.Some? ==> Antichain(r.value.value) && AllSound(r.value.value, t, targets, bufferSize)
  {
    var inv := (s: seq<Solution>, y: int) => Antichain(s) && AllSound(s, t, targets, bufferSize);
    forall s: seq<Solution>, y: nat | y < |t|
      ensures PassKeeps(ColumnPass(t, targets, bufferSize), inv, s, y)
    {
      if inv(s, y) {
        ColumnSound(s, t, targets, bufferSize, y);
      }
    }
    ForColumnsInvariant(ColumnPass(t, targets, bufferSize), inv, sols, x, |t|);
  }

  /** Every list `solve` returns is an antichain of sound solutions. */
  lemma SolveSound(riddle: Riddle, bufferSize: int)
    ensures var r := Solve(riddle, bufferSize);
      r.Returns? && r.value.Some? ==>
        && Transposable(riddle.matrix)
        && Antichain(r.value.value)
        && AllSound(r.value.value, Transpose(riddle.matrix), riddle.targets, bufferSize)
  {
    if Transposable(riddle.matrix) {
      SolveFromSound([], Transpose(riddle.matrix), riddle.targets, bufferSize, 0);
    }
  }

  /** A rendered buffer reads the puzzle as printed: node `(x, y)` picks the
      token in row `y`, column `x`. */
  lemma RenderReadsPuzzle(m: Matrix, c: Chain)
    requires Transposable(m) && Renderable(c, Transpose(m))
    ensures forall k :: 0 <= k < |c| ==> Render(c, Transpose(m)).value[k] == m[c[k].y][c[k].x]
  {
  }

  // ----- when solve returns nil -----

  /** A start column gives nil only when the buffer does not fit. */
  lemma ColumnNotNil(sols: seq<Solution>, t: Matrix, targets: seq<seq<Token>>, bufferSize: int, x: nat)
    requires x < |t|
    ensures Column(sols, t, targets, bufferSize, x) == Returns(None) <==> bufferSize > |t| * |t|
  {
  }

  lemma SolveFromNotNil(sols: seq<Solution>, t: Matrix, targets: seq<seq<Token>>, bufferSize: int, x: nat)
    requires x <= |t| && bufferSize <= |t| * |t|
    ensures SolveFrom(sols, t, targets, bufferSize, x) != Returns(None)
  {
    forall s: seq<Solution>, y: nat | y < |t|
      ensures ColumnPass(t, targets, bufferSize)(s, y) != Returns(None)
    {
      ColumnNotNil(s, t, targets, bufferSize, y);
    }
    ForColumnsAvoids(ColumnPass(t, targets, bufferSize), Returns(None), sols, x, |t|);
  }

  /** `solve` returns nil exactly when the puzzle has a non-empty first row
      and the buffer is longer than the number of cells of the square grid
      it searches (as many rows as the first row has tokens). */
  lemma SolveNil(riddle: Riddle, bufferSize: int)
    ensures Solve(riddle, bufferSize) == Returns(None) <==>
      && Transposable(riddle.matrix)
      && |riddle.matrix| > 0
      && |riddle.matrix[0]| > 0
      && bufferSize > |riddle.matrix[0]| * |riddle.matrix[0]|
  {
    if Transposable(riddle.matrix) {
      var t := Transpose(riddle.matrix);
      var n := |t|;
      assert |riddle.matrix| > 0 ==> n == |riddle.matrix[0]|;
      if bufferSize <= n * n {
        SolveFromNotNil([], t, riddle.targets, bufferSize, 0);
      } else if n > 0 {
        ColumnNotNil([], t, riddle.targets, bufferSize, 0);
        assert SolveFrom([], t, riddle.targets, bufferSize, 0) == Returns(None);
      }
    }
  }

  // ----- puzzles at least as tall as wide do not trap -----

  /** Every row of `t` has a token for each of the `|t|` grid positions, so
      every node of the `n`-by-`n` grid the chains live in can be rendered.
      After the transpose this says the puzzle has at least as many rows as
      its first row has tokens. */
  predicate Deep(t: Matrix)
  {
    forall i :: 0 <= i < |t| ==> |t[i]| >= |t|
  }

  lemma {:induction false} EnumerateNoTrap(sols: seq<Solution>, c: Chain, t: Matrix, targets: seq<seq<Token>>)
    requires Deep(t) && ValidChain(c, |t|) && |c| >= 2
    ensures !Enumerate(sols, c, t, targets).Traps?
    decreases Pow(|t|, |c|) - Rank(c, |t|)
  {
    var n := |t|;
    assert Renderable(c, t) by {
      forall k | 0 <= k < |c|
        ensures 0 <= c[k].x < |t| && 0 <= c[k].y < |t[c[k].x]|
      {
        assert InGrid(c[k], n);
      }
    }
    var v := Visit(sols, c, t, targets);
    if !v.value.1 {
      NextChainProgress(c, n);
      var r := NextChain(c, n);
      if r.Returns? && r.value.Some? {
        EnumerateNoTrap(v.value.0, r.value.value, t, targets);
      }
    }
  }

  lemma ColumnNoTrap(sols: seq<Solution>, t: Matrix, targets: seq<seq<Token>>, bufferSize: int, x: nat)
    requires Deep(t) && bufferSize >= 2 && x < |t|
    ensures !Column(sols, t, targets, bufferSize, x).Traps?
  {
    var b := BuildChain([Node(x, 0)], |t|, bufferSize);
    if b.Returns? && b.value.Some? {
      SeedValid(x, |t|, bufferSize);
      EnumerateNoTrap(sols, b.value.value, t, targets);
    }
  }

  lemma SolveFromNoTrap(sols: seq<Solution>, t: Matrix, targets: seq<seq<Token>>, bufferSize: int, x: nat)
    requires Deep(t) && bufferSize >= 2 && x <= |t|
    ensures !SolveFrom(sols, t, targets, bufferSize, x).Traps?
  {
    forall s: seq<Solution>, y: nat | y < |t|
      ensures ColumnPass(t, targets, bufferSize)(s, y) != Traps
    {
      ColumnNoTrap(s, t, targets, bufferSize, y);
    }
    ForColumnsAvoids(ColumnPass(t, targets, bufferSize), Traps, sols, x, |t|);
  }

  /** On a puzzle with at least as many rows as its first row has tokens
      (in particular a square one), and a buffer of at least two tokens,
      `solve` never traps: it returns or, when `buildChain` gets stuck,
      hangs. */
  lemma SolveTallNoTrap(riddle: Riddle, bufferSize: int)
    requires Transposable(riddle.matrix) && bufferSize >= 2
    requires |riddle.matrix| > 0 ==> |riddle.matrix[0]| <= |riddle.matrix|
    ensures !Solve(riddle, bufferSize).Traps?
  {
    var t := Transpose(riddle.matrix);
    assert Deep(t);
    SolveFromNoTrap([], t, riddle.targets, bufferSize, 0);
  }

  /** On a one-row puzzle of two or more tokens with a two-token buffer,
      `solve` traps: the first chain steps down from the top-left token to a
      row the puzzle does not have, and `render` reads past its end. */
  lemma SolveOneRowTraps(riddle: Riddle)
    requires |riddle.matrix| == 1 && |riddle.matrix[0]| >= 2
    ensures Solve(riddle, 2) == Traps
  {
    var m := riddle.matrix;
    assert Transposable(m);
    var t := Transpose(m);
    var n := |t|;
    var c := FirstChainDown(n);
    assert !Renderable(c, t) by {
      assert |t[c[1].x]| == 1;
    }
    assert Visit([], c, t, riddle.targets) == Traps;
    assert Column([], t, riddle.targets, 2, 0) == Traps;
  }

  /** The first two-node chain from the top-left cell moves down the first
      column: its second node is `(0, y)` for some row `y >= 1`. */
  lemma FirstChainDown(n: int) returns (c: Chain)
    requires n >= 2
    ensures BuildChain([Node(0, 0)], n, 2) == Returns(Some(c))
    ensures ValidChain(c, n) && |c| == 2 && c[0] == Node(0, 0) && c[1].x == 0 && c[1].y >= 1
  {
    var a := AddNode([Node(0, 0)]);
    assert a == [Node(0, 0), Node(0, 0)];
    assert !TakenUpTo(a, 0, n) by {
      assert WithFree(a[1], 1, 1) !in a[..1];
    }
    var s := Settle(a, n);
    var c2 := s.value;
    assert c2[0] == Node(0, 0) by {
      assert c2[..1] == a[..1];
    }
    assert Grow([Node(0, 0)], n, 2) == Grow(c2, n, 2);
    assert n * n >= 2 by {
      MulMono(2, n, n);
    }
    c := c2;
    SeedValid(0, n, 2);
  }

  // ----- one-token buffers -----

  /** A lone node of the top row whose column has a token renders as that
      token. */
  lemma SingleNodeRenders(x: int, t: Matrix)
    requires 0 <= x < |t| && |t[x]| >= 1
    ensures Render([Node(x, 0)], t) == Returns([t[x][0]])
  {
    assert Renderable([Node(x, 0)], t);
    var r := Render([Node(x, 0)], t).value;
    assert |r| == 1 && r[0] == t[x][0];
    assert r == [t[x][0]];
  }

  /** With a buffer of at most one token, `buildChain` keeps the lone seed. */
  lemma SingleSeed(x: int, n: int, bufferSize: int)
    requires 0 <= x < n && bufferSize <= 1
    ensures BuildChain([Node(x, 0)], n, bufferSize) == Returns(Some([Node(x, 0)]))
  {
    assert n * n >= 1 by {
      MulMono(1, n, n);
    }
  }

  /** `nextChain` moves a lone node one column to the right. */
  lemma SingleNodeNext(x: int, n: int)
    requires 0 <= x && x + 1 < n
    ensures NextChain([Node(x, 0)], n) == Returns(Some([Node(x + 1, 0)]))
  {
    var c, d := [Node(x, 0)], [Node(x + 1, 0)];
    assert PropogateLast(c, n) == Propagated(d, true);
    assert Backtrack(c, n) == Returns(Some(d));
    assert n * n >= n by {
      MulMono(1, n, n);
    }
    assert Grow(d, n, 1) == Returns(d);
  }

  /** A lone node in the last column makes `nextChain` trap in `removeLast`:
      the node overflows and is dropped, and the loop goes on with the empty
      chain (Solver.swift:179-182). */
  lemma SingleNodeLast(x: int, n: int)
    requires 0 <= x && x + 1 >= n
    ensures NextChain([Node(x, 0)], n) == Traps
  {
    var c := [Node(x, 0)];
    assert !PropogateLast(c, n).success;
    assert c[..0] == [];
    assert Backtrack([], n) == Traps;
    assert Backtrack(c, n) == Traps;
  }
}

/** Completeness of `solve`: no matching chain is missed. */
module SolverCompleteness {
  import opened Wrappers
  import opened Chains
  import opened Grid
  import opened ChainModifier
  import opened Enumeration
  import opened Frontier
  import opened Solver
  import opened SolverProperties

  /** Visiting a chain keeps every covered set covered, covers the chain's
      own targets, and, when it ends the column, covers every set of
      targets. */
  lemma VisitCovers(sols: seq<Solution>, c: Chain, t: Matrix, targets: seq<seq<Token>>, m: set<int>)
    ensures var v := Visit(sols, c, t, targets); v.Returns? ==>
      && (Covered(sols, m) ==> Covered(v.value.0, m))
      && (Matches(c, t, targets) != {} ==> Covered(v.value.0, Matches(c, t, targets)))
      && (v.value.1 && m <= Range(|targets|) ==> Covered(v.value.0, m))
  {
    if Render(c, t).Returns? {
      var ids := MatchedTargets(Render(c, t).value, targets);
      var cand := Solution(c, ids);
      if |ids| > 0 {
        OfferCovers(sols, cand, m);
        if Offer(sols, cand).1 && |ids| == |targets| && m <= Range(|targets|) {
          FullCovers(Offer(sols, cand).0, ids, targets, m);
        }
      }
    }
  }

  /** Once covered, always covered: the inner loop of `solve` never loses
      the targets a kept solution matched. */
  lemma {:induction false} EnumerateKeepsCovered(sols: seq<Solution>, c: Chain, t: Matrix, targets: seq<seq<Token>>, m: set<int>)
    requires ValidChain(c, |t|) && Covered(sols, m)
    ensures var r := Enumerate(sols, c, t, targets); r.Returns? ==> Covered(r.value, m)
    decreases Pow(|t|, |c|) - Rank(c, |t|)
  {
    var n := |t|;
    if Enumerate(sols, c, t, targets).Returns? {
      EnumerateReturns(sols, c, t, targets);
      VisitCovers(sols, c, t, targets, m);
      var v := Visit(sols, c, t, targets).value;
      if Enumerate(sols, c, t, targets) != Returns(v.0) {
        NextChainProgress(c, n);
        EnumerateKeepsCovered(v.0, NextChain(c, n).value.value, t, targets, m);
      }
    }
  }

  /** A solution matching every target covers any set of targets. */
  lemma FullCovers(sols: seq<Solution>, ids: set<int>, targets: seq<seq<Token>>, m: set<int>)
    requires Covered(sols, ids) && ids <= Range(|targets|) && |ids| == |targets|
    requires m <= Range(|targets|)
    ensures Covered(sols, m)
  {
    SameSizeSubset(ids, Range(|targets|));
    var k :| 0 <= k < |sols| && ids <= sols[k].matchedTargetIDs;
  }

  /** The inner loop of `solve` started at `c` covers the targets of every
      valid chain from `c` on (in lexicographic order) with the same first
      node. */
  lemma {:induction false} EnumerateCovers(sols: seq<Solution>, c: Chain, t: Matrix, targets: seq<seq<Token>>, d: Chain)
    requires ValidChain(c, |t|) && |c| >= 2
    requires ValidChain(d, |t|) && |d| == |c| && d[0] == c[0] && (d == c || LexLess(c, d))
    requires Matches(d, t, targets) != {}
    ensures var r := Enumerate(sols, c, t, targets); r.Returns? ==> Covered(r.value, Matches(d, t, targets))
    decreases Pow(|t|, |c|) - Rank(c, |t|)
  {
    var n := |t|;
    var md := Matches(d, t, targets);
    MatchesInRange(d, t, targets);
    VisitCovers(sols, c, t, targets, md);
    var v := Visit(sols, c, t, targets);
    if v.Returns? && !v.value.1 {
      NextChainProgress(c, n);
      var r := NextChain(c, n);
      if r.Returns? && r.value.Some? {
        var e := r.value.value;
        EnumerateNext(sols, c, t, targets);
        if d == c {
          EnumerateKeepsCovered(v.value.0, e, t, targets, md);
        } else {
          NextChainIsSuccessor(c, n, d);
          EnumerateCovers(v.value.0, e, t, targets, d);
        }
      } else if r == Returns(None) {
        EnumerateLast(sols, c, t, targets);
        if d != c {
          NextChainNoneComplete(c, n, d);
        }
      }
    } else if v.Returns? {
      EnumerateLast(sols, c, t, targets);
    }
  }

  /** With one-node chains the inner loop returns only through the `break`
      of Solver.swift:231, after a solution matching every target was
      appended; it never hangs. */
  lemma {:induction false} EnumerateSingleCovers(sols: seq<Solution>, x: int, t: Matrix, targets: seq<seq<Token>>, m: set<int>)
    requires 0 <= x < |t| && m <= Range(|targets|)
    ensures !Enumerate(sols, [Node(x, 0)], t, targets).Hangs?
    ensures var r := Enumerate(sols, [Node(x, 0)], t, targets); r.Returns? ==> Covered(r.value, m)
    decreases |t| - x
  {
    var c, n := [Node(x, 0)], |t|;
    assert ValidChain(c, n);
    VisitCovers(sols, c, t, targets, m);
    var v := Visit(sols, c, t, targets);
    if !v.Returns? {
      EnumerateTraps(sols, c, t, targets);
    } else if v.value.1 {
      EnumerateLast(sols, c, t, targets);
    } else if x + 1 < n {
      SingleNodeNext(x, n);
      assert ValidChain([Node(x + 1, 0)], n);
      EnumerateNext(sols, c, t, targets);
      EnumerateSingleCovers(v.value.0, x + 1, t, targets, m);
    } else {
      SingleNodeLast(x, n);
      EnumerateTraps(sols, c, t, targets);
    }
  }

  /** With a buffer of at most one token, a column pass that returns covers
      every set of targets. */
  lemma ColumnSingleCovers(sols: seq<Solution>, t: Matrix, targets: seq<seq<Token>>, bufferSize: int, x: nat, m: set<int>)
    requires x < |t| && bufferSize <= 1 && m <= Range(|targets|)
    ensures !Column(sols, t, targets, bufferSize, x).Hangs?
    ensures var r := Column(sols, t, targets, bufferSize, x);
      r.Returns? ==> r.value.Some? && Covered(r.value.value, m)
  {
    SingleSeed(x, |t|, bufferSize);
    EnumerateSingleCovers(sols, x, t, targets, m);
  }

  lemma ColumnKeepsCovered(sols: seq<Solution>, t: Matrix, targets: seq<seq<Token>>, bufferSize: int, x: nat, m: set<int>)
    requires x < |t| && Covered(sols, m)
    ensures var r := Column(sols, t, targets, bufferSize, x);
      r.Returns? && r.value.Some? ==> Covered(r.value.value, m)
  {
    var r := Column(sols, t, targets, bufferSize, x);
    if r.Returns? && r.value.Some? {
      var c := ColumnChain(sols, t, targets, bufferSize, x);
      EnumerateKeepsCovered(sols, c, t, targets, m);
    }
  }

  /** The chain `buildChain` grows from the top of a column comes first, in
      lexicographic order, among the valid chains of its length starting
      there. */
  lemma SeedLeast(x: nat, n: int, bufferSize: int, c: Chain, d: Chain)
    requires x < n && BuildChain([Node(x, 0)], n, bufferSize) == Returns(Some(c))
    requires ValidChain(d, n) && |d| == |c| && d[0] == Node(x, 0)
    ensures d == c || LexLess(c, d)
  {
    assert d[..1] == [Node(x, 0)];
    assert ValidChain([Node(x, 0)], n);
    BuildChainLeast([Node(x, 0)], n, bufferSize, d);
  }

  /** The pass from the start column of `d` covers the targets of `d`. */
  lemma ColumnCovers(sols: seq<Solution>, t: Matrix, targets: seq<seq<Token>>, bufferSize: int, x: nat, d: Chain)
    requires x < |t|
    requires ValidChain(d, |t|) && |d| == Max(1, bufferSize) && d[0] == Node(x, 0)
    requires Matches(d, t, targets) != {}
    ensures var r := Column(sols, t, targets, bufferSize, x);
      r.Returns? && r.value.Some? ==> Covered(r.value.value, Matches(d, t, targets))
  {
    var r := Column(sols, t, targets, bufferSize, x);
    if bufferSize <= 1 {
      MatchesInRange(d, t, targets);
      ColumnSingleCovers(sols, t, targets, bufferSize, x, Matches(d, t, targets));
    } else if r.Returns? && r.value.Some? {
      var c := ColumnChain(sols, t, targets, bufferSize, x);
      SeedLeast(x, |t|, bufferSize, c, d);
      EnumerateCovers(sols, c, t, targets, d);
    }
  }

  lemma SolveFromCovers(sols: seq<Solution>, t: Matrix, targets: seq<seq<Token>>, bufferSize: int, x: nat, d: Chain)
    requires x <= |t|
    requires ValidChain(d, |t|) && |d| == Max(1, bufferSize) && d[0].y == 0 && x <= d[0].x
    requires Matches(d, t, targets) != {}
    ensures var r := SolveFrom(sols, t, targets, bufferSize, x);
      r.Returns? && r.value.Some? ==> Covered(r.value.value, Matches(d, t, targets))
  {
    assert InGrid(d[0], |t|);
    var md := Matches(d, t, targets);
    var inv := (s: seq<Solution>, y: int) => y > d[0].x ==> Covered(s, md);
    forall s: seq<Solution>, y: nat | y < |t|
      ensures PassKeeps(ColumnPass(t, targets, bufferSize), inv, s, y)
    {
      if y == d[0].x {
        ColumnCovers(s, t, targets, bufferSize, y, d);
      } else if y > d[0].x && Covered(s, md) {
        ColumnKeepsCovered(s, t, targets, bufferSize, y, md);
      }
    }
    ForColumnsInvariant(ColumnPass(t, targets, bufferSize), inv, sols, x, |t|);
  }

  /** `solve` misses no chain: for every valid chain of `bufferSize` nodes
      (one when `bufferSize <= 1`) starting in the top row whose buffer
      matches some target, a returned solution matches all of those targets
      (and possibly more). */
  lemma SolveComplete(riddle: Riddle, bufferSize: int, d: Chain)
    requires Transposable(riddle.matrix)
    requires ValidChain(d, |Transpose(riddle.matrix)|) && |d| == Max(1, bufferSize) && d[0].y == 0
    requires Matches(d, Transpose(riddle.matrix), riddle.targets) != {}
    ensures var r := Solve(riddle, bufferSize);
      r.Returns? && r.value.Some? ==> Covered(r.value.value, Matches(d, Transpose(riddle.matrix), riddle.targets))
  {
    assert InGrid(d[0], |Transpose(riddle.matrix)|);
    SolveFromCovers([], Transpose(riddle.matrix), riddle.targets, bufferSize, 0, d);
  }
}
