/** Nodes, chains and the navigation steps printed for a solution.

    A chain is a path of grid nodes.  Its "free" coordinate alternates: the
    node at an even index is chosen by its `x` (the row `y` is inherited from
    the predecessor), the node at an odd index by its `y` (the column `x` is
    inherited).  Because the solver transposes the puzzle matrix, `x` is a
    column and `y` a row of the puzzle as printed.
 */
module Chains {

  datatype Node = Node(x: int, y: int)

  type Chain = seq<Node>

  datatype Direction = Up | Down | Left | Right

  /** `ChainNavigationStep`: a direction and a width. */
  datatype NavigationStep = NavigationStep(direction: Direction, width: int)

  function Abs(d: int): nat
  {
    if d < 0 then -d else d
  }

  predicate Vertical(d: Direction)
  {
    d == Up || d == Down
  }

  /** `lhs - rhs`: a vertical step when the columns agree, a horizontal one
      otherwise; the width is the distance along that axis. */
  function Minus(lhs: Node, rhs: Node): (s: NavigationStep)
    ensures s.width >= 0
    ensures lhs.x == rhs.x ==> Vertical(s.direction) && s.width == Abs(lhs.y - rhs.y)
    ensures lhs.x == rhs.x ==> (s.direction == Down <==> lhs.y > rhs.y)
    ensures lhs.x != rhs.x ==> !Vertical(s.direction) && s.width == Abs(lhs.x - rhs.x)
    ensures lhs.x != rhs.x ==> (s.direction == Right <==> lhs.x > rhs.x)
  {
    if lhs.x == rhs.x then
      var diff := lhs.y - rhs.y;
      NavigationStep(if diff > 0 then Down else Up, Abs(diff))
    else
      var diff := lhs.x - rhs.x;
      NavigationStep(if diff > 0 then Right else Left, Abs(diff))
  }

  /** Following a step from a node. */
  function Move(from: Node, s: NavigationStep): Node
  {
    match s.direction
    case Up => Node(from.x, from.y - s.width)
    case Down => Node(from.x, from.y + s.width)
    case Left => Node(from.x - s.width, from.y)
    case Right => Node(from.x + s.width, from.y)
  }

  /** A step taken between two nodes that share an axis leads back to the
      first one: `Move` inverts `Minus`. */
  lemma MoveMinus(lhs: Node, rhs: Node)
    requires lhs.x == rhs.x || lhs.y == rhs.y
    ensures Move(rhs, Minus(lhs, rhs)) == lhs
  {
  }

  /** The steps printed after the first node of a solution:
      `chain[i] - chain[i-1]` for every `i >= 1`. */
  function Steps(c: Chain): (steps: seq<NavigationStep>)
    requires |c| > 0
    ensures |steps| == |c| - 1
  {
    seq(|c| - 1, i requires 0 <= i < |c| - 1 => Minus(c[i + 1], c[i]))
  }

  function Replay(start: Node, steps: seq<NavigationStep>): (c: Chain)
    ensures |c| == |steps| + 1 && c[0] == start
    decreases |steps|
  {
    if |steps| == 0 then [start] else [start] + Replay(Move(start, steps[0]), steps[1..])
  }

  // ----- the shape of a chain -----

  /** The coordinate chosen at index `k`. */
  function Free(nd: Node, k: int): int
  {
    if k % 2 == 0 then nd.x else nd.y
  }

  /** `nd` with the coordinate chosen at index `k` replaced by `v`. */
  function WithFree(nd: Node, k: int, v: int): (r: Node)
    ensures Free(r, k) == v
  {
    if k % 2 == 0 then Node(v, nd.y) else Node(nd.x, v)
  }

  /** Node `k` inherits the coordinate of node `k-1` that is not free at `k`. */
  predicate Linked(c: Chain, k: int)
    requires 1 <= k < |c|
  {
    if k % 2 == 1 then c[k].x == c[k - 1].x else c[k].y == c[k - 1].y
  }

  predicate InGrid(nd: Node, n: int)
  {
    0 <= nd.x < n && 0 <= nd.y < n
  }

  predicate AllInGrid(c: Chain, n: int)
  {
    forall k :: 0 <= k < |c| ==> InGrid(c[k], n)
  }

  predicate AllLinked(c: Chain)
  {
    forall k :: 1 <= k < |c| ==> Linked(c, k)
  }

  predicate Distinct(c: Chain)
  {
    forall i, j :: 0 <= i < j < |c| ==> c[i] != c[j]
  }

  /** A chain of an `n`-by-`n` matrix: in range, alternating, never revisiting. */
  predicate ValidChain(c: Chain, n: int)
  {
    AllInGrid(c, n) && AllLinked(c) && Distinct(c)
  }

  /** `lastNodeAvailable`: the newest node does not repeat an earlier one. */
  predicate LastNodeAvailable(c: Chain)
  {
    |c| <= 1 || c[|c| - 1] !in c[..|c| - 1]
  }

  /** Consecutive nodes share a row or a column. */
  predicate AxisAligned(c: Chain)
  {
    forall k :: 1 <= k < |c| ==> c[k].x == c[k - 1].x || c[k].y == c[k - 1].y
  }

  lemma LinkedIsAxisAligned(c: Chain)
    requires AllLinked(c)
    ensures AxisAligned(c)
  {
    forall k | 1 <= k < |c|
      ensures c[k].x == c[k - 1].x || c[k].y == c[k - 1].y
    {
      assert Linked(c, k);
    }
  }

  /** A chain whose consecutive nodes share an axis is recovered from its
      first node and its printed steps. */
  lemma {:induction false} ReplaySteps(c: Chain)
    requires |c| > 0 && AxisAligned(c)
    ensures Replay(c[0], Steps(c)) == c
  {
    if |c| > 1 {
      MoveMinus(c[1], c[0]);
      var rest := c[1..];
      assert AxisAligned(rest) by {
        forall k | 1 <= k < |rest|
          ensures rest[k].x == rest[k - 1].x || rest[k].y == rest[k - 1].y
        {
          assert rest[k] == c[k + 1] && rest[k - 1] == c[k];
        }
      }
      ReplaySteps(rest);
      assert Steps(c)[1..] == Steps(rest);
      assert [c[0]] + rest == c;
    }
  }

  /** A valid chain is recovered from its first node and its printed steps. */
  lemma ValidChainReplays(c: Chain, n: int)
    requires |c| > 0 && ValidChain(c, n)
    ensures Replay(c[0], Steps(c)) == c
  {
    LinkedIsAxisAligned(c);
    ReplaySteps(c);
  }

  /** In a valid chain the printed steps alternate: the step into an odd
      index is vertical, the step into an even index horizontal, and no step
      has width 0. */
  lemma StepsAlternate(c: Chain, n: int, i: int)
    requires ValidChain(c, n)
    requires 0 <= i < |c| - 1
    ensures Vertical(Steps(c)[i].direction) <==> (i + 1) % 2 == 1
    ensures Steps(c)[i].width > 0
  {
    assert Linked(c, i + 1);
    assert c[i + 1] != c[i];
  }

  // ----- lexicographic order and rank -----

  /** `a` comes before `b` in the order of free coordinates: they agree up
      to some index `k`, where `a` has the smaller free coordinate. */
  predicate LexLess(a: Chain, b: Chain)
  {
    |a| == |b| && exists k :: 0 <= k < |a| && a[..k] == b[..k] && Free(a[k], k) < Free(b[k], k)
  }

  function Pow(n: int, e: nat): int
  {
    if e == 0 then 1 else n * Pow(n, e - 1)
  }

  /** Digits read most significant first in base `n`. */
  function Num(ds: seq<int>, n: int): int
  {
    if |ds| == 0 then 0 else Num(ds[..|ds| - 1], n) * n + ds[|ds| - 1]
  }

  function Digits(c: Chain): (ds: seq<int>)
    ensures |ds| == |c|
    ensures forall k :: 0 <= k < |c| ==> ds[k] == Free(c[k], k)
  {
    seq(|c|, k requires 0 <= k < |c| => Free(c[k], k))
  }

  /** The free coordinates of a chain read as a base-`n` number. */
  function Rank(c: Chain, n: int): int
  {
    Num(Digits(c), n)
  }

  predicate DigitsBelow(ds: seq<int>, n: int)
  {
    forall k :: 0 <= k < |ds| ==> 0 <= ds[k] < n
  }

  lemma {:induction false} NumBound(ds: seq<int>, n: int)
    requires DigitsBelow(ds, n)
    ensures 0 <= Num(ds, n) < Pow(n, |ds|)
  {
    if |ds| > 0 {
      var front := ds[..|ds| - 1];
      NumBound(front, n);
      var a := Num(front, n);
      var p := Pow(n, |front|);
      assert Num(ds, n) == a * n + ds[|ds| - 1];
      assert Pow(n, |ds|) == n * p;
      DigitStep(a, ds[|ds| - 1], n, p);
    }
  }

  /** Appending a digit keeps a number below the next power. */
  lemma DigitStep(a: int, d: int, n: int, p: int)
    requires 0 <= a < p && 0 <= d < n
    ensures 0 <= a * n + d < n * p
  {
    MulMono(a + 1, p, n);
  }

  /** A smaller prefix stays smaller whatever digits follow. */
  lemma LexStep(a: int, b: int, x: int, y: int, n: int)
    requires a < b && 0 <= x < n && 0 <= y
    ensures a * n + x < b * n + y
  {
    MulMono(a + 1, b, n);
  }

  lemma MulMono(a: int, b: int, n: int)
    requires a <= b && n >= 0
    ensures a * n <= b * n
  {
  }

  lemma {:induction false} NumLex(ds: seq<int>, es: seq<int>, n: int, k: int)
    requires |ds| == |es| && 0 <= k < |ds|
    requires DigitsBelow(ds, n) && DigitsBelow(es, n)
    requires ds[..k] == es[..k] && ds[k] < es[k]
    ensures Num(ds, n) < Num(es, n)
  {
    var last := |ds| - 1;
    var df, ef := ds[..last], es[..last];
    if k == last {
      assert df == es[..k];
    } else {
      assert df[..k] == ds[..k] && ef[..k] == es[..k];
      NumLex(df, ef, n, k);
      LexStep(Num(df, n), Num(ef, n), ds[last], es[last], n);
    }
  }

  /** Moving forward in the lexicographic order of valid chains strictly
      increases the rank. */
  lemma RankIncreases(a: Chain, b: Chain, n: int)
    requires AllInGrid(a, n) && AllInGrid(b, n)
    requires LexLess(a, b)
    ensures Rank(a, n) < Rank(b, n)
  {
    var k :| 0 <= k < |a| && a[..k] == b[..k] && Free(a[k], k) < Free(b[k], k);
    var da, db := Digits(a), Digits(b);
    assert da[..k] == db[..k] by {
      forall i | 0 <= i < k
        ensures da[i] == db[i]
      {
        assert a[i] == a[..k][i] && b[i] == b[..k][i];
      }
    }
    DigitsInGrid(a, n);
    DigitsInGrid(b, n);
    NumLex(da, db, n, k);
  }

  lemma DigitsInGrid(c: Chain, n: int)
    requires AllInGrid(c, n)
    ensures DigitsBelow(Digits(c), n)
  {
    forall k | 0 <= k < |c|
      ensures 0 <= Digits(c)[k] < n
    {
      assert InGrid(c[k], n);
    }
  }

  /** The rank of a chain in the grid is a `|c|`-digit base-`n` number. */
  lemma RankBound(c: Chain, n: int)
    requires AllInGrid(c, n)
    ensures 0 <= Rank(c, n) < Pow(n, |c|)
  {
    DigitsInGrid(c, n);
    NumBound(Digits(c), n);
  }

  // ----- no valid chain is longer than the grid has cells -----

  function Code(nd: Node, n: int): int
  {
    nd.x * n + nd.y
  }

  lemma CodeInRange(nd: Node, n: int)
    requires InGrid(nd, n)
    ensures 0 <= Code(nd, n) < n * n
  {
    MulMono(nd.x, n - 1, n);
  }

  lemma CodeInjective(a: Node, b: Node, n: int)
    requires InGrid(a, n) && InGrid(b, n) && a != b
    ensures Code(a, n) != Code(b, n)
  {
    if a.x < b.x {
      CodeOrdered(a, b, n);
    } else if b.x < a.x {
      CodeOrdered(b, a, n);
    }
  }

  lemma CodeOrdered(a: Node, b: Node, n: int)
    requires InGrid(a, n) && InGrid(b, n) && a.x < b.x
    ensures Code(a, n) < Code(b, n)
  {
    MulMono(a.x + 1, b.x, n);
    assert (a.x + 1) * n == a.x * n + n;
  }

  function CodeSet(c: Chain, n: int): set<int>
  {
    set k | 0 <= k < |c| :: Code(c[k], n)
  }

  lemma {:induction false} CodeSetSize(c: Chain, n: int)
    requires AllInGrid(c, n) && Distinct(c)
    ensures |CodeSet(c, n)| == |c|
  {
    if |c| > 0 {
      var front := c[..|c| - 1];
      var last := c[|c| - 1];
      assert AllInGrid(front, n);
      CodeSetSize(front, n);
      assert CodeSet(c, n) == CodeSet(front, n) + {Code(last, n)} by {
        forall z | z in CodeSet(c, n)
          ensures z in CodeSet(front, n) + {Code(last, n)}
        {
          var k :| 0 <= k < |c| && z == Code(c[k], n);
          if k < |c| - 1 {
            assert c[k] == front[k];
          }
        }
      }
      assert Code(last, n) !in CodeSet(front, n) by {
        forall k | 0 <= k < |front|
          ensures Code(front[k], n) != Code(last, n)
        {
          assert InGrid(c[k], n) && InGrid(last, n);
          CodeInjective(front[k], last, n);
        }
      }
    }
  }

  /** The integers `0 .. m-1`. */
  function Range(m: int): (r: set<int>)
    ensures forall i :: i in r <==> 0 <= i < m
    ensures m >= 0 ==> |r| == m
    decreases m
  {
    if m <= 0 then {} else Range(m - 1) + {m - 1}
  }

  lemma CodeSetInRange(c: Chain, n: int)
    requires AllInGrid(c, n)
    ensures CodeSet(c, n) <= Range(n * n)
  {
    forall k | 0 <= k < |c|
      ensures Code(c[k], n) in Range(n * n)
    {
      CodeInRange(c[k], n);
    }
  }

  /** Pigeonhole: a valid chain has at most `n*n` nodes. */
  lemma ValidChainFits(c: Chain, n: int)
    requires ValidChain(c, n)
    ensures |c| <= n * n
  {
    if |c| > 0 {
      assert InGrid(c[0], n);
      var cells := n * n;
      CodeSetSize(c, n);
      CodeSetInRange(c, n);
      assert |Range(cells)| == cells;
      SubsetSize(CodeSet(c, n), Range(cells));
    }
  }

  lemma SubsetSize(a: set<int>, b: set<int>)
    requires a <= b
    ensures |a| <= |b|
  {
    assert b == a + (b - a);
  }
}
