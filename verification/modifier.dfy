/** `ChainModifier`: a chain treated as an odometer whose digits are the free
    coordinates (`x` at even indices, `y` at odd ones).

    `BuildChain` greedily grows a chain, `NextChain` advances it to the next
    chain of the same length and the same first node.  The source's
    `buildChain` never returns once a free coordinate runs off the grid while
    growing (the result of `removeLast` is discarded, Solver.swift:162); the
    model returns `Hangs` there, and `InnerLoopNeverExits` shows that the loop
    of the source indeed never exits from that state.
 */
module ChainModifier {
  import opened Wrappers
  import opened Chains

  /** `addNode`: the first node is `(0, 0)`; every later node starts its free
      coordinate at 0 and inherits the other one from the last node. */
  function AddNode(c: Chain): (r: Chain)
    ensures |r| == |c| + 1 && r[..|c|] == c
    ensures |c| == 0 ==> r[0] == Node(0, 0)
    ensures |c| > 0 ==> Linked(r, |c|) && Free(r[|c|], |c|) == 0
  {
    if |c| == 0 then [Node(0, 0)]
    else if |c| % 2 == 0 then c + [Node(0, c[|c| - 1].y)]
    else c + [Node(c[|c| - 1].x, 0)]
  }

  datatype Propagated = Propagated(chain: Chain, success: bool)

  /** `propogateLast`: add 1 to the free coordinate of the last node (its `x`
      when the count is odd, its `y` when it is even) and report whether it
      is still inside the grid; every other node is kept. */
  function PropogateLast(c: Chain, n: int): (r: Propagated)
    ensures |r.chain| == |c|
    ensures |c| == 0 ==> r == Propagated(c, false)
    ensures |c| > 0 ==> r.chain[..|c| - 1] == c[..|c| - 1]
    ensures |c| > 0 ==> r.chain[|c| - 1] == WithFree(c[|c| - 1], |c| - 1, Free(c[|c| - 1], |c| - 1) + 1)
    ensures |c| > 0 ==> (r.success <==> Free(c[|c| - 1], |c| - 1) + 1 < n)
  {
    if |c| == 0 then Propagated(c, false)
    else
      var k := |c| - 1;
      var last := c[k];
      if |c| % 2 == 0 then
        var moved := Node(last.x, last.y + 1);
        Propagated(c[..k] + [moved], moved.y < n)
      else
        var moved := Node(last.x + 1, last.y);
        Propagated(c[..k] + [moved], moved.x < n)
  }

  /** `removeLast`: traps on an empty array. */
  function RemoveLast(c: Chain): (r: Run<Chain>)
    ensures r.Returns? <==> |c| > 0
    ensures r.Returns? ==> r.value == c[..|c| - 1]
    ensures !r.Hangs?
  {
    if |c| == 0 then Traps else Returns(c[..|c| - 1])
  }

  // ----- buildChain -----

  /** The candidates for the last node of `c` from its current free
      coordinate up to (not including) `hi` all repeat an earlier node. */
  predicate TakenUpTo(c: Chain, lo: int, hi: int)
    requires |c| > 0
  {
    var k := |c| - 1;
    forall v :: lo <= v < hi ==> WithFree(c[k], k, v) in c[..k]
  }

  /** `r` is `c` with the last node moved forward along its free axis to the
      first position that repeats no earlier node. */
  predicate Settled(c: Chain, r: Chain, n: int)
    requires |c| > 0
  {
    var k := |c| - 1;
    && |r| == |c|
    && r[..k] == c[..k]
    && r[k] == WithFree(c[k], k, Free(r[k], k))
    && Free(c[k], k) <= Free(r[k], k)
    && (Free(r[k], k) == Free(c[k], k) || Free(r[k], k) < n)
    && TakenUpTo(c, Free(c[k], k), Free(r[k], k))
    && LastNodeAvailable(r)
  }

  lemma WithFreeFacts(nd: Node, k: int, a: int, b: int)
    ensures WithFree(WithFree(nd, k, a), k, b) == WithFree(nd, k, b)
    ensures WithFree(nd, k, Free(nd, k)) == nd
  {
  }

  /** The loop at Solver.swift:158-167: propagate the new last node until it
      repeats no earlier node.  On an overflow the source enters the loop at
      lines 161-166, which never exits (see `InnerLoopNeverExits`): `Hangs`. */
  function Settle(c: Chain, n: int): (r: Run<Chain>)
    requires |c| > 0
    ensures !r.Traps?
    ensures r.Returns? ==> Settled(c, r.value, n)
    ensures r.Hangs? ==> |c| >= 2 && TakenUpTo(c, Free(c[|c| - 1], |c| - 1), n)
    decreases n - Free(c[|c| - 1], |c| - 1)
  {
    if LastNodeAvailable(c) then
      SettledInPlace(c, n);
      Returns(c)
    else
      var p := PropogateLast(c, n);
      if p.success then
        var r := Settle(p.chain, n);
        SettleStep(c, p.chain, r, n);
        r
      else
        SettleOverflow(c, n);
        Hangs
  }

  lemma SettledInPlace(c: Chain, n: int)
    requires |c| > 0 && LastNodeAvailable(c)
    ensures Settled(c, c, n)
  {
    var k := |c| - 1;
    WithFreeFacts(c[k], k, 0, 0);
  }

  lemma SettleOverflow(c: Chain, n: int)
    requires |c| > 0 && !LastNodeAvailable(c) && !PropogateLast(c, n).success
    ensures |c| >= 2 && TakenUpTo(c, Free(c[|c| - 1], |c| - 1), n)
  {
    var k := |c| - 1;
    WithFreeFacts(c[k], k, 0, 0);
  }

  lemma SettleStep(c: Chain, moved: Chain, r: Run<Chain>, n: int)
    requires |c| > 0 && !LastNodeAvailable(c)
    requires PropogateLast(c, n) == Propagated(moved, true)
    requires r.Returns? ==> Settled(moved, r.value, n)
    requires r.Hangs? ==> |moved| >= 2 && TakenUpTo(moved, Free(moved[|moved| - 1], |moved| - 1), n)
    ensures r.Returns? ==> Settled(c, r.value, n)
    ensures r.Hangs? ==> |c| >= 2 && TakenUpTo(c, Free(c[|c| - 1], |c| - 1), n)
  {
    MovedOneStep(c, moved, n);
    if r.Returns? {
      SettledBefore(c, moved, r.value, n);
    } else if r.Hangs? {
      TakenBefore(c, moved, n);
    }
  }

  /** `moved` is `c` with its last node, which repeats an earlier one, one
      step further along its free axis and still inside the grid. */
  predicate MovedOn(c: Chain, moved: Chain, n: int)
  {
    var k := |c| - 1;
    && |c| >= 2 && |moved| == |c|
    && moved[..k] == c[..k]
    && moved[k] == WithFree(c[k], k, Free(c[k], k) + 1)
    && c[k] in c[..k]
    && Free(c[k], k) + 1 < n
  }

  lemma MovedOneStep(c: Chain, moved: Chain, n: int)
    requires |c| > 0 && !LastNodeAvailable(c)
    requires PropogateLast(c, n) == Propagated(moved, true)
    ensures MovedOn(c, moved, n)
  {
  }

  /** A node settled from the next position is settled from this one. */
  lemma SettledBefore(c: Chain, moved: Chain, r: Chain, n: int)
    requires MovedOn(c, moved, n) && Settled(moved, r, n)
    ensures Settled(c, r, n)
  {
    var k := |c| - 1;
    var f := Free(c[k], k);
    var g := Free(r[k], k);
    WithFreeFacts(c[k], k, f + 1, g);
    forall v | f <= v < g
      ensures WithFree(c[k], k, v) in c[..k]
    {
      WithFreeFacts(c[k], k, f + 1, v);
      if v > f {
        assert TakenUpTo(moved, f + 1, g);
      }
    }
  }

  /** Positions all taken from the next position on are all taken from this
      one. */
  lemma TakenBefore(c: Chain, moved: Chain, n: int)
    requires MovedOn(c, moved, n) && TakenUpTo(moved, Free(moved[|moved| - 1], |moved| - 1), n)
    ensures TakenUpTo(c, Free(c[|c| - 1], |c| - 1), n)
  {
    var k := |c| - 1;
    var f := Free(c[k], k);
    forall v | f <= v < n
      ensures WithFree(c[k], k, v) in c[..k]
    {
      WithFreeFacts(c[k], k, f + 1, v);
      if v > f {
        assert TakenUpTo(moved, f + 1, n);
      }
    }
  }

  /** The state of the loop at Solver.swift:161-166 after `i` iterations,
      entered with a failed propagation `entry`.  Each iteration throws away
      the result of `removeLast`, so the chain keeps its length and is
      propagated again. */
  function InnerLoop(entry: Propagated, n: int, i: nat): Propagated
  {
    if i == 0 then entry else PropogateLast(InnerLoop(entry, n, i - 1).chain, n)
  }

  /** Once entered (only ever with at least two nodes, since a chain of one
      node is always available), the loop at lines 161-166 keeps its guard
      true and its `count == 1` exit false forever. */
  lemma InnerLoopNeverExits(c: Chain, n: int, i: nat)
    requires |c| >= 2 && !PropogateLast(c, n).success
    ensures |InnerLoop(PropogateLast(c, n), n, i).chain| == |c|
    ensures !InnerLoop(PropogateLast(c, n), n, i).success
    ensures Free(InnerLoop(PropogateLast(c, n), n, i).chain[|c| - 1], |c| - 1) >= n
  {
    PropagateFails(c, n, |c| - 1);
    StaysPastEnd(PropogateLast(c, n), n, i, |c| - 1);
  }

  /** The last node, at index `k`, is outside the grid and the last
      propagation failed. */
  predicate PastEnd(e: Propagated, k: int, n: int)
  {
    0 <= k && |e.chain| == k + 1 && !e.success && Free(e.chain[k], k) >= n
  }

  lemma {:induction false} StaysPastEnd(e: Propagated, n: int, i: nat, k: int)
    requires k >= 1 && PastEnd(e, k, n)
    ensures PastEnd(InnerLoop(e, n, i), k, n)
  {
    if i > 0 {
      StaysPastEnd(e, n, i - 1, k);
      PropagatePastEnd(InnerLoop(e, n, i - 1).chain, n, k);
    }
  }

  /** A failed propagation leaves the last node, at index `k`, outside the
      grid. */
  lemma PropagateFails(c: Chain, n: int, k: int)
    requires |c| == k + 1 >= 2 && !PropogateLast(c, n).success
    ensures PastEnd(PropogateLast(c, n), k, n)
  {
  }

  /** Propagating a last node that is already outside the grid fails and
      leaves it outside. */
  lemma PropagatePastEnd(c: Chain, n: int, k: int)
    requires |c| == k + 1 >= 2 && Free(c[k], k) >= n
    ensures PastEnd(PropogateLast(c, n), k, n)
  {
  }

  /** The outer loop of `buildChain` (Solver.swift:156-168). */
  function Grow(c: Chain, n: int, length: int): (r: Run<Chain>)
    ensures !r.Traps?
    ensures r.Returns? ==> |r.value| == Max(|c|, length) && r.value[..|c|] == c
    decreases length - |c|
  {
    if |c| >= length then Returns(c)
    else
      var a := AddNode(c);
      match Settle(a, n)
      case Returns(c2) =>
        var r := Grow(c2, n, length);
        GrowStep(c, a, c2, r, n, length);
        r
      case Hangs => Hangs
  }

  /** One round of the outer loop keeps the chain it started from as a
      prefix. */
  lemma GrowStep(c: Chain, a: Chain, c2: Chain, r: Run<Chain>, n: int, length: int)
    requires a == AddNode(c) && |c| < length && Settled(a, c2, n)
    requires r.Returns? ==> |r.value| == Max(|c2|, length) && r.value[..|c2|] == c2
    ensures r.Returns? ==> |r.value| == Max(|c|, length) && r.value[..|c|] == c
  {
    if r.Returns? {
      assert r.value[..|c|] == r.value[..|c2|][..|c|];
      assert c2[..|c|] == a[..|c|];
    }
  }

  /** `buildChain`: nil exactly when the chain cannot fit in the grid;
      otherwise the initial chain grown to `length` nodes (or hanging). */
  function BuildChain(initial: Chain, n: int, length: int): (r: Run<Option<Chain>>)
    ensures !r.Traps?
    ensures r == Returns(None) <==> length > n * n
    ensures r.Returns? && r.value.Some? ==>
      |r.value.value| == Max(|initial|, length) && r.value.value[..|initial|] == initial
  {
    if length > n * n then Returns(None)
    else match Grow(initial, n, length)
      case Returns(c) => Returns(Some(c))
      case Hangs => Hangs
  }

  // ----- nextChain -----

  /** Past index `j` no larger free coordinate (below `n`) gives a node that
      is new to the chain. */
  predicate ExhaustedAt(c: Chain, j: int, n: int)
    requires 0 <= j < |c|
  {
    forall v :: Free(c[j], j) < v < n ==> WithFree(c[j], j, v) in c[..j]
  }

  predicate ExhaustedFrom(c: Chain, lo: int, n: int)
  {
    forall j :: lo <= j < |c| ==> 0 <= j && ExhaustedAt(c, j, n)
  }

  /** `p` is `c` cut after index `j = |p|-1`, whose node is moved forward to
      the first new position, every deeper index being exhausted. */
  predicate Bumped(c: Chain, p: Chain, n: int)
  {
    && 1 <= |p| <= |c|
    && (|c| >= 2 ==> |p| >= 2)
    && var j := |p| - 1;
    && p[..j] == c[..j]
    && p[j] == WithFree(c[j], j, Free(p[j], j))
    && Free(c[j], j) < Free(p[j], j) < n
    && p[j] !in p[..j]
    && (forall v :: Free(c[j], j) < v < Free(p[j], j) ==> WithFree(c[j], j, v) in c[..j])
    && ExhaustedFrom(c, |p|, n)
  }

  /** What the backtracking loop of `nextChain` promises: a bump of `c`,
      or nil only when every index past the first is exhausted. */
  predicate Outcome(c: Chain, r: Run<Option<Chain>>, n: int)
  {
    && (r.Returns? && r.value.Some? ==> Bumped(c, r.value.value, n))
    && (r.Returns? && r.value.None? ==> |c| >= 2 && ExhaustedFrom(c, 1, n))
  }

  /** The loop of `nextChain` (Solver.swift:176-185): propagate the last
      node; on overflow drop it and retry on the new last node, giving up
      (nil) when one node is left; stop at the first new position. */
  function Backtrack(c: Chain, n: int): (r: Run<Option<Chain>>)
    ensures !r.Hangs?
    ensures |c| >= 2 ==> !r.Traps?
    decreases |c|, if |c| == 0 then 0 else n - Free(c[|c| - 1], |c| - 1)
  {
    var p := PropogateLast(c, n);
    if !p.success then
      match RemoveLast(p.chain)
      case Traps => Traps
      case Returns(shorter) =>
        if |shorter| == 1 then Returns(None) else Backtrack(shorter, n)
    else
      PropagateAdvances(c, n);
      if LastNodeAvailable(p.chain) then Returns(Some(p.chain)) else Backtrack(p.chain, n)
  }

  /** What the loop of `nextChain` stops at: a bumped prefix of `c`, or nil
      when every index from 1 on is exhausted. */
  lemma {:induction false} BacktrackOutcome(c: Chain, n: int)
    ensures Outcome(c, Backtrack(c, n), n)
    decreases |c|, if |c| == 0 then 0 else n - Free(c[|c| - 1], |c| - 1)
  {
    var p := PropogateLast(c, n);
    if !p.success {
      if |c| == 2 {
        LastExhausted(c, n);
      } else if |c| > 0 {
        var shorter := c[..|c| - 1];
        BacktrackOutcome(shorter, n);
        BacktrackDrop(c, shorter, Backtrack(shorter, n), n);
        DropUnfolds(c, n);
      }
    } else if LastNodeAvailable(p.chain) {
      BumpedInPlace(c, n);
    } else {
      PropagateAdvances(c, n);
      BacktrackOutcome(p.chain, n);
      BacktrackStay(c, p.chain, Backtrack(p.chain, n), n);
      StayUnfolds(c, n);
    }
  }

  /** An overflowing last node is dropped and the loop goes on. */
  lemma DropUnfolds(c: Chain, n: int)
    requires |c| >= 1 && |c| != 2 && !PropogateLast(c, n).success
    ensures Backtrack(c, n) == Backtrack(c[..|c| - 1], n)
  {
  }

  /** A last node moved onto an earlier node is moved again. */
  lemma StayUnfolds(c: Chain, n: int)
    requires PropogateLast(c, n).success && !LastNodeAvailable(PropogateLast(c, n).chain)
    ensures Backtrack(c, n) == Backtrack(PropogateLast(c, n).chain, n)
  {
  }

  /** A node that cannot move forward in a two-node chain leaves index 1
      exhausted. */
  lemma LastExhausted(c: Chain, n: int)
    requires |c| == 2 && !PropogateLast(c, n).success
    ensures Outcome(c, Backtrack(c, n), n)
  {
    assert Backtrack(c, n) == Returns(None);
    assert ExhaustedFrom(c, 1, n);
  }

  /** A last node that moves forward to a new position is a bump in place. */
  lemma BumpedInPlace(c: Chain, n: int)
    requires PropogateLast(c, n).success && LastNodeAvailable(PropogateLast(c, n).chain)
    ensures Outcome(c, Backtrack(c, n), n)
  {
    PropagateAdvances(c, n);
    var p := PropogateLast(c, n).chain;
    var k := |c| - 1;
    BumpedOneStep(c, p, k, n);
    assert Backtrack(c, n) == Returns(Some(p));
  }

  lemma BumpedOneStep(c: Chain, p: Chain, k: int, n: int)
    requires k == |c| - 1 && |p| == |c| >= 1
    requires p[..k] == c[..k] && p[k] == WithFree(c[k], k, Free(c[k], k) + 1)
    requires Free(c[k], k) + 1 < n && LastNodeAvailable(p)
    ensures Bumped(c, p, n)
  {
    WithFreeFacts(c[k], k, Free(c[k], k) + 1, 0);
    assert Free(p[k], k) == Free(c[k], k) + 1;
    assert p[k] == WithFree(c[k], k, Free(p[k], k));
    assert ExhaustedFrom(c, |p|, n);
  }

  lemma PropagateAdvances(c: Chain, n: int)
    requires PropogateLast(c, n).success
    ensures |c| >= 1 && |PropogateLast(c, n).chain| == |c|
    ensures Free(PropogateLast(c, n).chain[|c| - 1], |c| - 1) == Free(c[|c| - 1], |c| - 1) + 1 < n
  {
  }

  lemma BacktrackDrop(c: Chain, shorter: Chain, r: Run<Option<Chain>>, n: int)
    requires |c| >= 1 && shorter == c[..|c| - 1] && |shorter| != 1
    requires Free(c[|c| - 1], |c| - 1) + 1 >= n
    requires Outcome(shorter, r, n)
    ensures Outcome(c, r, n)
  {
    if r.Returns? && r.value.Some? {
      var p := r.value.value;
      var j := |p| - 1;
      DropKeepsExhausted(c, shorter, |p|, n);
      assert c[j] == shorter[j];
      assert c[..j] == shorter[..j];
    }
    if r.Returns? && r.value.None? {
      DropKeepsExhausted(c, shorter, 1, n);
    }
  }

  /** Dropping an overflowing last node keeps the deeper indices exhausted. */
  lemma DropKeepsExhausted(c: Chain, shorter: Chain, lo: int, n: int)
    requires |c| >= 1 && shorter == c[..|c| - 1]
    requires Free(c[|c| - 1], |c| - 1) + 1 >= n
    requires 0 <= lo && ExhaustedFrom(shorter, lo, n)
    ensures ExhaustedFrom(c, lo, n)
  {
    forall i | lo <= i < |c|
      ensures 0 <= i && ExhaustedAt(c, i, n)
    {
      if i < |shorter| {
        assert ExhaustedAt(shorter, i, n);
        assert c[i] == shorter[i] && c[..i] == shorter[..i];
      }
    }
  }

  lemma BacktrackStay(c: Chain, moved: Chain, r: Run<Option<Chain>>, n: int)
    requires |c| >= 1 && PropogateLast(c, n) == Propagated(moved, true)
    requires !LastNodeAvailable(moved)
    requires Outcome(moved, r, n)
    ensures Outcome(c, r, n)
  {
    var k := |c| - 1;
    if r.Returns? && r.value.Some? {
      var p := r.value.value;
      if |p| - 1 == k {
        StayBumpSameIndex(c, moved, p, n);
      } else {
        StayBumpEarlier(c, moved, p, n);
      }
    }
    if r.Returns? && r.value.None? {
      StayExhausted(c, moved, 1, n);
    }
  }

  /** A bump at an earlier index after the move is a bump of `c` too. */
  lemma StayBumpEarlier(c: Chain, moved: Chain, p: Chain, n: int)
    requires |c| >= 1 && PropogateLast(c, n) == Propagated(moved, true)
    requires !LastNodeAvailable(moved)
    requires Bumped(moved, p, n) && |p| - 1 != |c| - 1
    ensures Bumped(c, p, n)
  {
    var k := |c| - 1;
    StayExhausted(c, moved, |p|, n);
    var j := |p| - 1;
    assert p[..j] == moved[..j];
    assert moved[..k] == c[..k];
    assert c[..j] == c[..k][..j] && moved[..j] == moved[..k][..j];
    assert c[j] == c[..k][j] && moved[j] == moved[..k][j];
  }

  /** A node that moved forward without finding a new position leaves its
      index exhausted iff it was exhausted after the move. */
  lemma StayExhausted(c: Chain, moved: Chain, lo: int, n: int)
    requires |c| >= 1 && PropogateLast(c, n) == Propagated(moved, true)
    requires !LastNodeAvailable(moved)
    requires 1 <= lo <= |c| && ExhaustedFrom(moved, lo, n)
    ensures ExhaustedFrom(c, lo, n)
  {
    var k := |c| - 1;
    var f := Free(c[k], k);
    assert moved[..k] == c[..k];
    assert moved[k] == WithFree(c[k], k, f + 1);
    forall i | lo <= i < |c|
      ensures 0 <= i && ExhaustedAt(c, i, n)
    {
      assert ExhaustedAt(moved, i, n);
      if i < k {
        assert c[i] == c[..k][i] && moved[i] == moved[..k][i];
        assert c[..i] == c[..k][..i] && moved[..i] == moved[..k][..i];
      } else {
        forall v | f < v < n
          ensures WithFree(c[k], k, v) in c[..k]
        {
          WithFreeFacts(c[k], k, f + 1, v);
          if v == f + 1 {
            WithFreeFacts(c[k], k, f + 1, f + 1);
          }
        }
      }
    }
  }

  lemma StayBumpSameIndex(c: Chain, moved: Chain, p: Chain, n: int)
    requires |c| >= 1 && PropogateLast(c, n) == Propagated(moved, true)
    requires !LastNodeAvailable(moved)
    requires Bumped(moved, p, n) && |p| == |c|
    ensures Bumped(c, p, n)
  {
    var k := |c| - 1;
    var f := Free(c[k], k);
    var g := Free(p[k], k);
    assert moved[..k] == c[..k];
    assert moved[k] == WithFree(c[k], k, f + 1);
    WithFreeFacts(c[k], k, f + 1, g);
    forall v | f < v < g
      ensures WithFree(c[k], k, v) in c[..k]
    {
      WithFreeFacts(c[k], k, f + 1, v);
    }
  }

  /** `nextChain`: backtrack to the deepest node that can move forward, then
      regrow the chain to its old length with `buildChain`. */
  function NextChain(c: Chain, n: int): (r: Run<Option<Chain>>)
    ensures |c| >= 2 ==> !r.Traps?
    ensures r.Returns? && r.value.Some? ==> |r.value.value| == |c|
    ensures r.Returns? && r.value.Some? && |c| >= 2 ==> r.value.value[0] == c[0]
  {
    match Backtrack(c, n)
    case Returns(Some(p)) =>
      BacktrackOutcome(c, n);
      BumpedFirst(c, p, n);
      BuildChainFirst(p, n, |c|);
      BuildChain(p, n, |c|)
    case Returns(None) => Returns(None)
    case Traps => Traps
  }

  lemma BumpedFirst(c: Chain, p: Chain, n: int)
    requires Bumped(c, p, n)
    ensures |p| <= |c|
    ensures |c| >= 2 ==> p[0] == c[0]
  {
    if |c| >= 2 {
      assert p[0] == p[..|p| - 1][0];
    }
  }

  lemma BuildChainFirst(initial: Chain, n: int, length: int)
    requires |initial| >= 1
    ensures var r := BuildChain(initial, n, length);
      r.Returns? && r.value.Some? ==> |r.value.value| == Max(|initial|, length) && r.value.value[0] == initial[0]
  {
    var r := BuildChain(initial, n, length);
    if r.Returns? && r.value.Some? {
      assert r.value.value[0] == r.value.value[..|initial|][0];
    }
  }
}

/** Properties of `buildChain` and `nextChain`: shape, greediness, exactly
    when growing hangs, and the fact that `nextChain` steps to the next chain
    in lexicographic order of free coordinates. */
module Enumeration {
  import opened Wrappers
  import opened Chains
  import opened ChainModifier

  /** Node `k` of `r` is the first position along its free axis, counting
      from 0, that repeats no earlier node (the first node is `(0, 0)`). */
  predicate GreedyAt(r: Chain, k: int, n: int)
    requires 0 <= k < |r|
  {
    && r[k] !in r[..k]
    && (k == 0 ==> r[0] == Node(0, 0))
    && (k >= 1 ==> Linked(r, k) && 0 <= Free(r[k], k) < n)
    && (k >= 1 ==> forall v :: 0 <= v < Free(r[k], k) ==> WithFree(r[k], k, v) in r[..k])
  }

  /** `p` extends `c` node by node with greedy choices. */
  predicate GreedyExtension(c: Chain, p: Chain, n: int)
  {
    && |c| <= |p|
    && p[..|c|] == c
    && forall k :: |c| <= k < |p| ==> GreedyAt(p, k, n)
  }

  /** Every position for the node after `p` repeats a node of `p`: the
      free axis of the next node is full. */
  predicate Stuck(p: Chain, n: int)
  {
    |p| >= 1 && forall v :: 0 <= v < n ==> WithFree(AddNode(p)[|p|], |p|, v) in p
  }

  lemma GreedyAtPrefix(r: Chain, q: Chain, k: int, n: int)
    requires |q| <= |r| && q == r[..|q|] && 0 <= k < |q|
    requires GreedyAt(q, k, n)
    ensures GreedyAt(r, k, n)
  {
    assert r[k] == q[k];
    assert r[..k] == q[..k];
    if k >= 1 {
      assert r[k - 1] == q[k - 1];
    }
  }

  /** A greedy step followed by a greedy extension is a greedy extension. */
  lemma GreedyExtensionStep(c: Chain, c2: Chain, p: Chain, n: int)
    requires |c2| == |c| + 1 && c2[..|c|] == c && GreedyAt(c2, |c|, n)
    requires GreedyExtension(c2, p, n)
    ensures GreedyExtension(c, p, n)
  {
    assert p[..|c|] == p[..|c2|][..|c|];
    GreedyAtPrefix(p, c2, |c|, n);
  }

  /** The node that `Settle` finds after `addNode` is the greedy choice. */
  lemma SettleGreedy(c: Chain, c2: Chain, n: int)
    requires n >= 1
    requires Settle(AddNode(c), n) == Returns(c2)
    ensures |c2| == |c| + 1 && c2[..|c|] == c
    ensures GreedyAt(c2, |c|, n)
  {
    var a := AddNode(c);
    var k := |c|;
    assert Settled(a, c2, n);
    assert c2[..k] == c;
    var g := Free(c2[k], k);
    WithFreeFacts(a[k], k, 0, 0);
    if k >= 1 {
      assert c2[k - 1] == c[k - 1] == a[k - 1];
      forall v | 0 <= v < g
        ensures WithFree(c2[k], k, v) in c2[..k]
      {
        WithFreeFacts(a[k], k, g, v);
        assert TakenUpTo(a, 0, g);
      }
    }
  }

  /** Any chain `buildChain`'s loop returns is a greedy extension. */
  lemma {:induction false} GrowGreedy(c: Chain, n: int, length: int)
    requires n >= 1
    ensures Grow(c, n, length).Returns? ==> GreedyExtension(c, Grow(c, n, length).value, n)
    decreases length - |c|
  {
    if |c| < length {
      match Settle(AddNode(c), n)
      case Returns(c2) =>
        SettleGreedy(c, c2, n);
        GrowGreedy(c2, n, length);
        var r := Grow(c2, n, length);
        if r.Returns? {
          GreedyExtensionStep(c, c2, r.value, n);
        }
      case Hangs =>
    }
  }

  lemma GreedyInGrid(p: Chain, s: int, n: int, k: int)
    requires 0 <= s <= |p| && AllInGrid(p[..s], n) && n >= 1
    requires forall i :: s <= i < |p| ==> GreedyAt(p, i, n)
    requires 0 <= k < |p|
    ensures InGrid(p[k], n)
    decreases k
  {
    if k < s {
      assert p[k] == p[..s][k];
    } else if k >= 1 {
      assert GreedyAt(p, k, n);
      GreedyInGrid(p, s, n, k - 1);
    }
  }

  /** A greedy extension of a valid chain is valid. */
  lemma GreedyExtensionValid(c: Chain, p: Chain, n: int)
    requires ValidChain(c, n) && GreedyExtension(c, p, n) && n >= 1
    ensures ValidChain(p, n)
  {
    forall k | 0 <= k < |p|
      ensures InGrid(p[k], n)
    {
      GreedyInGrid(p, |c|, n, k);
    }
    forall k | 1 <= k < |p|
      ensures Linked(p, k)
    {
      if k < |c| {
        assert Linked(c, k);
        assert p[k] == c[k] && p[k - 1] == c[k - 1];
      } else {
        assert GreedyAt(p, k, n);
      }
    }
    forall i, j | 0 <= i < j < |p|
      ensures p[i] != p[j]
    {
      if j < |c| {
        assert p[i] == c[i] && p[j] == c[j];
      } else {
        assert GreedyAt(p, j, n);
        assert p[i] == p[..j][i];
      }
    }
  }

  /** `buildChain` on a valid initial chain returns a valid greedy extension
      of it. */
  lemma BuildChainValid(initial: Chain, n: int, length: int)
    requires ValidChain(initial, n) && n >= 1
    ensures var r := BuildChain(initial, n, length);
      r.Returns? && r.value.Some? ==>
        GreedyExtension(initial, r.value.value, n) && ValidChain(r.value.value, n)
  {
    GrowGreedy(initial, n, length);
    var g := Grow(initial, n, length);
    if g.Returns? {
      GreedyExtensionValid(initial, g.value, n);
    }
  }

  // ----- exactly when buildChain hangs -----

  lemma {:induction false} SettleFinds(a: Chain, n: int, g: int)
    requires |a| >= 1
    requires var k := |a| - 1;
      && Free(a[k], k) <= g < n
      && TakenUpTo(a, Free(a[k], k), g)
      && WithFree(a[k], k, g) !in a[..k]
    ensures Settle(a, n) == Returns(a[..|a| - 1] + [WithFree(a[|a| - 1], |a| - 1, g)])
    decreases g - Free(a[|a| - 1], |a| - 1)
  {
    var k := |a| - 1;
    var f := Free(a[k], k);
    WithFreeFacts(a[k], k, f, g);
    if f == g {
      assert a == a[..k] + [a[k]];
    } else {
      assert a[k] in a[..k];
      var moved := PropogateLast(a, n).chain;
      assert moved[..k] == a[..k];
      assert moved[k] == WithFree(a[k], k, f + 1);
      WithFreeFacts(a[k], k, f + 1, g);
      forall v | f + 1 <= v < g
        ensures WithFree(moved[k], k, v) in moved[..k]
      {
        WithFreeFacts(a[k], k, f + 1, v);
      }
      SettleFinds(moved, n, g);
    }
  }

  lemma {:induction false} SettleStuck(a: Chain, n: int)
    requires |a| >= 2
    requires Free(a[|a| - 1], |a| - 1) < n
    requires TakenUpTo(a, Free(a[|a| - 1], |a| - 1), n)
    ensures Settle(a, n) == Hangs
    decreases n - Free(a[|a| - 1], |a| - 1)
  {
    var k := |a| - 1;
    var f := Free(a[k], k);
    WithFreeFacts(a[k], k, f, f);
    assert a[k] in a[..k];
    if f + 1 < n {
      var moved := PropogateLast(a, n).chain;
      assert moved[..k] == a[..k];
      forall v | f + 1 <= v < n
        ensures WithFree(moved[k], k, v) in moved[..k]
      {
        WithFreeFacts(a[k], k, f + 1, v);
      }
      SettleStuck(moved, n);
    }
  }

  /** The node after a greedy prefix is what `Settle` finds after `addNode`. */
  lemma SettleFollowsGreedy(c: Chain, p: Chain, n: int)
    requires n >= 1 && GreedyExtension(c, p, n) && |c| < |p|
    ensures Settle(AddNode(c), n) == Returns(p[..|c| + 1])
  {
    var k := |c|;
    var a := AddNode(c);
    GreedyNextNode(c, p, n);
    SettleFinds(a, n, Free(p[k], k));
  }

  /** The greedy node after `c` is reached from the node `addNode` appends
      by moving it along its free axis past positions that are all taken. */
  lemma GreedyNextNode(c: Chain, p: Chain, n: int)
    requires n >= 1 && GreedyExtension(c, p, n) && |c| < |p|
    ensures var a, k := AddNode(c), |c|;
      && Free(a[k], k) <= Free(p[k], k) < n
      && TakenUpTo(a, Free(a[k], k), Free(p[k], k))
      && WithFree(a[k], k, Free(p[k], k)) !in a[..k]
      && a[..k] + [WithFree(a[k], k, Free(p[k], k))] == p[..k + 1]
  {
    var k := |c|;
    var a := AddNode(c);
    var g := Free(p[k], k);
    assert GreedyAt(p, k, n);
    assert p[..k] == c;
    assert WithFree(a[k], k, g) == p[k] by {
      if k >= 1 {
        assert p[k - 1] == c[k - 1];
      }
    }
    forall v | 0 <= v < g
      ensures WithFree(a[k], k, v) in a[..k]
    {
      assert WithFree(a[k], k, v) == WithFree(p[k], k, v);
    }
    assert a[..k] + [p[k]] == p[..k + 1];
  }

  lemma GreedyExtensionRest(c: Chain, p: Chain, n: int)
    requires GreedyExtension(c, p, n) && |c| < |p|
    ensures GreedyExtension(p[..|c| + 1], p, n)
  {
  }

  /** `buildChain`'s loop passes through every greedy extension it can reach. */
  lemma {:induction false} GrowThrough(c: Chain, p: Chain, n: int, length: int)
    requires n >= 1 && GreedyExtension(c, p, n) && |p| <= length
    ensures Grow(c, n, length) == Grow(p, n, length)
    decreases |p| - |c|
  {
    if |c| < |p| {
      SettleFollowsGreedy(c, p, n);
      GreedyExtensionRest(c, p, n);
      GrowThrough(p[..|c| + 1], p, n, length);
    } else {
      assert p == p[..|c|];
    }
  }

  /** `buildChain`'s loop hangs exactly when some greedy extension shorter
      than the target length is stuck. */
  lemma {:induction false} GrowHangs(c: Chain, n: int, length: int)
    requires n >= 1
    ensures Grow(c, n, length).Hangs? ==>
      exists p :: GreedyExtension(c, p, n) && |p| < length && Stuck(p, n)
    decreases length - |c|
  {
    if |c| < length {
      var a := AddNode(c);
      match Settle(a, n)
      case Returns(c2) =>
        SettleGreedy(c, c2, n);
        GrowHangs(c2, n, length);
        if Grow(c2, n, length).Hangs? {
          var p :| GreedyExtension(c2, p, n) && |p| < length && Stuck(p, n);
          GreedyExtensionStep(c, c2, p, n);
        }
      case Hangs =>
        SettleHangsStuck(c, n);
        assert GreedyExtension(c, c, n);
    }
  }

  /** When the node after `c` cannot settle, every position for it is
      taken. */
  lemma SettleHangsStuck(c: Chain, n: int)
    requires Settle(AddNode(c), n) == Hangs
    ensures Stuck(c, n)
  {
    var a := AddNode(c);
    forall v | 0 <= v < n
      ensures WithFree(a[|c|], |c|, v) in c
    {
      assert TakenUpTo(a, Free(a[|c|], |c|), n);
      assert a[..|c|] == c;
    }
  }

  /** A stuck greedy extension makes `buildChain`'s loop hang. */
  lemma GrowStuck(c: Chain, p: Chain, n: int, length: int)
    requires n >= 1 && GreedyExtension(c, p, n) && |p| < length && Stuck(p, n)
    ensures Grow(c, n, length) == Hangs
  {
    GrowThrough(c, p, n, length);
    StuckSettleHangs(p, n);
  }

  lemma StuckSettleHangs(p: Chain, n: int)
    requires n >= 1 && Stuck(p, n)
    ensures Settle(AddNode(p), n) == Hangs
  {
    var a := AddNode(p);
    var k := |p|;
    assert a[..k] == p;
    assert Free(a[k], k) == 0;
    assert TakenUpTo(a, 0, n) by {
      forall v | 0 <= v < n
        ensures WithFree(a[k], k, v) in a[..k]
      {
      }
    }
    SettleStuck(a, n);
  }

  /** `buildChain` with an admissible length hangs if and only if a greedy
      extension of the initial chain shorter than `length` is stuck, i.e.
      some free axis fills up before the chain is long enough. */
  lemma BuildChainHangs(initial: Chain, n: int, length: int)
    requires n >= 1
    ensures BuildChain(initial, n, length).Hangs? <==>
      length <= n * n && exists p :: GreedyExtension(initial, p, n) && |p| < length && Stuck(p, n)
  {
    GrowHangs(initial, n, length);
    if length <= n * n && exists p :: GreedyExtension(initial, p, n) && |p| < length && Stuck(p, n) {
      var p :| GreedyExtension(initial, p, n) && |p| < length && Stuck(p, n);
      GrowStuck(initial, p, n, length);
    }
  }

  // ----- lexicographic order of the enumeration -----

  /** Two valid chains that agree before index `k >= 1` have nodes at `k`
      that differ only in the free coordinate. */
  lemma SameLockedCoordinate(a: Chain, b: Chain, k: int)
    requires 1 <= k < |a| && k < |b|
    requires Linked(a, k) && Linked(b, k) && a[k - 1] == b[k - 1]
    ensures b[k] == WithFree(a[k], k, Free(b[k], k))
  {
  }

  lemma FirstDifference(a: Chain, b: Chain) returns (m: int)
    requires |a| == |b| && a != b
    ensures 0 <= m < |a| && a[..m] == b[..m] && a[m] != b[m]
  {
    m := 0;
    while a[m] == b[m]
      invariant 0 <= m < |a| && a[..m] == b[..m]
      decreases |a| - m
    {
      m := m + 1;
    }
  }

  /** A greedy extension comes first, in lexicographic order, among all valid
      chains of its length that share its first `s >= 1` nodes. */
  lemma GreedyIsLeast(r: Chain, d: Chain, s: int, n: int)
    requires 1 <= s <= |r| && |d| == |r| && d[..s] == r[..s]
    requires forall k :: s <= k < |r| ==> GreedyAt(r, k, n)
    requires ValidChain(d, n) && d != r
    ensures LexLess(r, d)
  {
    var m := FirstDifference(r, d);
    assert GreedyAt(r, m, n);
    assert Linked(d, m);
    assert r[m - 1] == r[..m][m - 1] && d[m - 1] == d[..m][m - 1];
    SameLockedCoordinate(r, d, m);
    assert InGrid(d[m], n);
    var fd := Free(d[m], m);
    assert d[m] !in d[..m] by {
      forall i | 0 <= i < m
        ensures d[..m][i] != d[m]
      {
      }
    }
    WithFreeFacts(r[m], m, Free(r[m], m), Free(r[m], m));
    assert fd != Free(r[m], m);
    assert LexLess(r, d) by {
      assert r[..m] == d[..m] && Free(r[m], m) < Free(d[m], m);
    }
  }

  /** `buildChain` from a valid non-empty chain returns the first valid chain
      of the requested length, in lexicographic order, that extends it. */
  lemma BuildChainLeast(initial: Chain, n: int, length: int, d: Chain)
    requires ValidChain(initial, n) && |initial| >= 1
    requires BuildChain(initial, n, length).Returns? && BuildChain(initial, n, length).value.Some?
    requires ValidChain(d, n) && |d| == |BuildChain(initial, n, length).value.value|
    requires |initial| <= |d| && d[..|initial|] == initial
    ensures d == BuildChain(initial, n, length).value.value ||
            LexLess(BuildChain(initial, n, length).value.value, d)
  {
    assert InGrid(initial[0], n);
    BuildChainValid(initial, n, length);
    var r := BuildChain(initial, n, length).value.value;
    if d != r {
      GreedyIsLeast(r, d, |initial|, n);
    }
  }

  /** The chain `nextChain` hands to `buildChain` is valid. */
  lemma BumpedValid(c: Chain, p: Chain, n: int)
    requires ValidChain(c, n) && Bumped(c, p, n)
    ensures ValidChain(p, n)
  {
    var j := |p| - 1;
    assert InGrid(c[j], n);
    forall i | 0 <= i < j
      ensures p[i] == c[i]
    {
      assert p[i] == p[..j][i] && c[i] == c[..j][i];
    }
    forall i | 1 <= i < |p|
      ensures Linked(p, i)
    {
      assert Linked(c, i);
    }
    forall a, b | 0 <= a < b < |p|
      ensures p[a] != p[b]
    {
      if b == j {
        assert p[a] == p[..j][a];
      }
    }
  }

  /** `nextChain` keeps chains valid. */
  lemma NextChainValid(c: Chain, n: int)
    requires ValidChain(c, n)
    ensures var r := NextChain(c, n); r.Returns? && r.value.Some? ==> ValidChain(r.value.value, n)
  {
    BacktrackOutcome(c, n);
    match Backtrack(c, n)
    case Returns(Some(p)) =>
      BumpedValid(c, p, n);
      assert InGrid(p[0], n);
      BuildChainValid(p, n, |c|);
    case Returns(None) =>
    case Traps =>
  }

  /** `nextChain` moves strictly forward in lexicographic order. */
  lemma NextChainAdvances(c: Chain, n: int)
    ensures var r := NextChain(c, n); r.Returns? && r.value.Some? ==> LexLess(c, r.value.value)
  {
    BacktrackOutcome(c, n);
    match Backtrack(c, n)
    case Returns(Some(p)) =>
      var r := BuildChain(p, n, |c|);
      if r.Returns? && r.value.Some? {
        BumpedPrefixLess(c, p, r.value.value, n);
      }
    case Returns(None) =>
    case Traps =>
  }

  /** Any chain that extends a bumped prefix of `c` comes after `c`. */
  lemma BumpedPrefixLess(c: Chain, p: Chain, q: Chain, n: int)
    requires Bumped(c, p, n) && |p| <= |q| == |c| && q[..|p|] == p
    ensures LexLess(c, q)
  {
    var j := |p| - 1;
    assert q[..j] == q[..|p|][..j];
    assert q[j] == q[..|p|][j];
    assert q[..j] == c[..j] && Free(c[j], j) < Free(q[j], j);
  }

  /** On a valid chain of at least two nodes, `nextChain` returns nil exactly
      when no index from 1 on can move forward to a new position. */
  lemma NextChainNone(c: Chain, n: int)
    requires ValidChain(c, n) && |c| >= 2
    ensures NextChain(c, n) == Returns(None) <==> ExhaustedFrom(c, 1, n)
  {
    BacktrackOutcome(c, n);
    var b := Backtrack(c, n);
    if b.Returns? && b.value.Some? {
      BumpedNotNone(c, b.value.value, n);
    }
  }

  /** When an index can be bumped, the chain is not exhausted and
      `nextChain` regrows it instead of returning nil. */
  lemma BumpedNotNone(c: Chain, p: Chain, n: int)
    requires ValidChain(c, n) && |c| >= 2
    requires Backtrack(c, n) == Returns(Some(p)) && Bumped(c, p, n)
    ensures NextChain(c, n) != Returns(None)
    ensures !ExhaustedFrom(c, 1, n)
  {
    var j := |p| - 1;
    assert !ExhaustedAt(c, j, n) by {
      assert p[..j] == c[..j];
      WithFreeFacts(c[j], j, Free(p[j], j), Free(p[j], j));
    }
    BumpedValid(c, p, n);
    ValidChainFits(c, n);
  }

  /** If a later valid chain with the same first node exists, an index at
      or beyond 1 can still move forward. */
  lemma LaterChainNotExhausted(c: Chain, d: Chain, n: int, lo: int) returns (k: int)
    requires ValidChain(c, n) && ValidChain(d, n) && |d| == |c| >= 1 && d[0] == c[0]
    requires LexLess(c, d)
    requires 1 <= lo <= |c| && ExhaustedFrom(c, lo, n)
    ensures 1 <= k < lo && c[..k] == d[..k] && Free(c[k], k) < Free(d[k], k)
  {
    k :| 0 <= k < |c| && c[..k] == d[..k] && Free(c[k], k) < Free(d[k], k);
    if k == 0 {
      assert false;
    }
    if k >= lo {
      assert ExhaustedAt(c, k, n);
      assert c[k - 1] == c[..k][k - 1] && d[k - 1] == d[..k][k - 1];
      assert Linked(c, k) && Linked(d, k);
      SameLockedCoordinate(c, d, k);
      assert false;
    }
  }

  /** `nextChain` returns nil on a valid chain only when no later valid
      chain with the same first node exists. */
  lemma NextChainNoneComplete(c: Chain, n: int, d: Chain)
    requires ValidChain(c, n) && |c| >= 2
    requires NextChain(c, n) == Returns(None)
    requires ValidChain(d, n) && |d| == |c| && d[0] == c[0]
    ensures !LexLess(c, d)
  {
    NextChainNone(c, n);
    if LexLess(c, d) {
      var k := LaterChainNotExhausted(c, d, n, 1);
    }
  }

  /** A valid chain that agrees with `c` before the bumped index and is
      ahead of it there is not ahead of the regrown chain `r`. */
  lemma SuccessorAtBump(c: Chain, p: Chain, r: Chain, d: Chain, n: int)
    requires ValidChain(c, n) && Bumped(c, p, n) && |p| >= 2
    requires GreedyExtension(p, r, n) && |r| == |c|
    requires ValidChain(d, n) && |d| == |c|
    requires c[..|p| - 1] == d[..|p| - 1] && Free(c[|p| - 1], |p| - 1) < Free(d[|p| - 1], |p| - 1)
    ensures d == r || LexLess(r, d)
  {
    var j := |p| - 1;
    assert c[j - 1] == c[..j][j - 1] && d[j - 1] == d[..j][j - 1];
    assert Linked(c, j) && Linked(d, j);
    SameLockedCoordinate(c, d, j);
    var fd := Free(d[j], j);
    assert d[j] !in d[..j] by {
      forall i | 0 <= i < j
        ensures d[..j][i] != d[j]
      {
      }
    }
    var g := Free(p[j], j);
    assert r[..j] == r[..|p|][..j] && r[j] == r[..|p|][j];
    if fd < g {
      assert false;
    } else if fd > g {
      assert r[..j] == d[..j] && Free(r[j], j) < Free(d[j], j);
    } else {
      assert d[j] == p[j];
      assert d[..|p|] == p by {
        assert d[..|p|] == d[..j] + [d[j]];
        assert p == p[..j] + [p[j]];
      }
      if d != r {
        GreedyIsLeast(r, d, |p|, n);
      }
    }
  }

  /** A successor of a valid chain comes from a bumped prefix, regrown
      greedily. */
  lemma NextChainParts(c: Chain, n: int) returns (p: Chain)
    requires ValidChain(c, n)
    requires NextChain(c, n).Returns? && NextChain(c, n).value.Some?
    ensures Backtrack(c, n) == Returns(Some(p)) && Bumped(c, p, n)
    ensures GreedyExtension(p, NextChain(c, n).value.value, n)
  {
    p := Backtrack(c, n).value.value;
    BacktrackOutcome(c, n);
    BumpedValid(c, p, n);
    assert InGrid(p[0], n);
    BuildChainValid(p, n, |c|);
  }

  lemma SuccessorBelowBump(c: Chain, p: Chain, r: Chain, d: Chain, n: int, k: int)
    requires Bumped(c, p, n) && |r| >= |p| && r[..|p|] == p && |d| == |r|
    requires 0 <= k < |p| - 1 && c[..k] == d[..k] && Free(c[k], k) < Free(d[k], k)
    ensures LexLess(r, d)
  {
    var j := |p| - 1;
    assert r[..k] == p[..j][..k] && c[..k] == c[..j][..k];
    assert r[k] == p[..j][k] && c[k] == c[..j][k];
    assert r[..k] == d[..k] && Free(r[k], k) < Free(d[k], k);
  }

  /** `nextChain` returns the very next valid chain: no valid chain with the
      same first node lies strictly between `c` and its successor. */
  lemma NextChainIsSuccessor(c: Chain, n: int, d: Chain)
    requires ValidChain(c, n) && |c| >= 2
    requires NextChain(c, n).Returns? && NextChain(c, n).value.Some?
    requires ValidChain(d, n) && |d| == |c| && d[0] == c[0]
    requires LexLess(c, d)
    ensures d == NextChain(c, n).value.value || LexLess(NextChain(c, n).value.value, d)
  {
    var r := NextChain(c, n).value.value;
    var p := NextChainParts(c, n);
    var j := |p| - 1;
    var k := LaterChainNotExhausted(c, d, n, |p|);
    if k < j {
      SuccessorBelowBump(c, p, r, d, n, k);
    } else {
      assert k == j && |p| >= 2;
      assert c[..|p| - 1] == d[..|p| - 1];
      SuccessorAtBump(c, p, r, d, n);
    }
  }
}
