/** The list of solutions `solve` keeps while it enumerates chains
    (Solver.swift:206-228).  A candidate whose matched targets are covered by
    a kept solution is dropped; one that strictly includes a kept solution
    replaces it and every later solution it includes; any other candidate is
    appended.  On a list where no solution's targets include another's (an
    antichain) this is exactly "drop the dominated, keep the maximal".
 */
module Frontier {
  import opened Chains

  datatype Solution = Solution(chain: Chain, matchedTargetIDs: set<int>)

  /** No kept solution's targets are included in another's. */
  predicate Antichain(sols: seq<Solution>)
  {
    forall i, j :: 0 <= i < |sols| && 0 <= j < |sols| && i != j ==>
      !(sols[i].matchedTargetIDs <= sols[j].matchedTargetIDs)
  }

  /** Some kept solution matches every target in `m`. */
  predicate Covered(sols: seq<Solution>, m: set<int>)
  {
    exists k :: 0 <= k < |sols| && m <= sols[k].matchedTargetIDs
  }

  /** The solutions of `xs` whose targets `m` does not include, in order. */
  function Keep(xs: seq<Solution>, m: set<int>): (r: seq<Solution>)
    ensures |r| <= |xs|
  {
    if |xs| == 0 then []
    else if xs[0].matchedTargetIDs <= m then Keep(xs[1..], m)
    else [xs[0]] + Keep(xs[1..], m)
  }

  /** `Keep` drops exactly the solutions whose targets `m` includes. */
  lemma {:induction false} KeepMembers(xs: seq<Solution>, m: set<int>, s: Solution)
    ensures s in Keep(xs, m) <==> s in xs && !(s.matchedTargetIDs <= m)
  {
    if |xs| > 0 {
      KeepMembers(xs[1..], m, s);
      assert xs == [xs[0]] + xs[1..];
    }
  }

  /** The loop at Solver.swift:214-218: from index `j` down to `lo`, remove
      every solution whose targets `m` includes. */
  function SweepDown(xs: seq<Solution>, m: set<int>, j: int, lo: nat): (r: seq<Solution>)
    requires lo <= j + 1 <= |xs|
    ensures lo <= |r| <= |xs|
    decreases j + 1 - lo
  {
    if j < lo then xs
    else if xs[j].matchedTargetIDs <= m then SweepDown(xs[..j] + xs[j + 1..], m, j - 1, lo)
    else SweepDown(xs, m, j - 1, lo)
  }

  /** The scan at Solver.swift:206-221 from index `i`: the list afterwards
      and whether the candidate is still to be appended. */
  function Scan(sols: seq<Solution>, cand: Solution, i: nat): (Solution, seq<Solution>, bool)
    requires i <= |sols|
    decreases |sols| - i
  {
    var m := cand.matchedTargetIDs;
    if i == |sols| then (cand, sols, true)
    else if m <= sols[i].matchedTargetIDs then (cand, sols, false)
    else
      var other := sols[i];
      var sameButShorter := m == other.matchedTargetIDs && |cand.chain| < |other.chain|;
      var includesExisting := m >= other.matchedTargetIDs && |m| > |other.matchedTargetIDs|;
      if sameButShorter || includesExisting then
        var rest := sols[..i] + sols[i + 1..];
        (cand, SweepDown(rest, m, |rest| - 1, i), true)
      else Scan(sols, cand, i + 1)
  }

  /** Offering a candidate (Solver.swift:204-229): the new list, and whether
      the candidate was appended to it. */
  function Offer(sols: seq<Solution>, cand: Solution): (r: (seq<Solution>, bool))
    ensures r.1 ==> |r.0| >= 1 && r.0[|r.0| - 1] == cand
    ensures !r.1 ==> r.0 == sols && Covered(sols, cand.matchedTargetIDs)
    ensures forall k :: 0 <= k < |sols| ==>
      sols[k] in r.0 || (r.1 && sols[k].matchedTargetIDs <= cand.matchedTargetIDs)
  {
    var (_, list, appended) := Scan(sols, cand, 0);
    ScanOutcome(sols, cand, 0);
    if appended then (list + [cand], true) else (list, false)
  }

  // ----- what the scan does -----

  lemma {:induction false} SweepDownKeeps(xs: seq<Solution>, m: set<int>, j: int, lo: nat)
    requires lo <= j + 1 <= |xs|
    ensures SweepDown(xs, m, j, lo) == xs[..lo] + Keep(xs[lo..j + 1], m) + xs[j + 1..]
    decreases j + 1 - lo
  {
    if j >= lo {
      if xs[j].matchedTargetIDs <= m {
        SweepDownKeeps(xs[..j] + xs[j + 1..], m, j - 1, lo);
        SweepDropStep(xs, m, j, lo);
      } else {
        SweepDownKeeps(xs, m, j - 1, lo);
        SweepKeepStep(xs, m, j, lo);
      }
    } else {
      assert xs[lo..j + 1] == [];
      assert xs == xs[..lo] + xs[lo..];
    }
  }

  lemma SweepDropStep(xs: seq<Solution>, m: set<int>, j: int, lo: nat)
    requires lo <= j < |xs| && xs[j].matchedTargetIDs <= m
    ensures var ys := xs[..j] + xs[j + 1..];
      ys[..lo] + Keep(ys[lo..j], m) + ys[j..] == xs[..lo] + Keep(xs[lo..j + 1], m) + xs[j + 1..]
  {
    var ys := xs[..j] + xs[j + 1..];
    KeepSnoc(xs[lo..j], xs[j], m);
    assert xs[lo..j + 1] == xs[lo..j] + [xs[j]];
    assert ys[..lo] == xs[..lo];
    assert ys[lo..j] == xs[lo..j];
    assert ys[j..] == xs[j + 1..];
  }

  lemma SweepKeepStep(xs: seq<Solution>, m: set<int>, j: int, lo: nat)
    requires lo <= j < |xs| && !(xs[j].matchedTargetIDs <= m)
    ensures xs[..lo] + Keep(xs[lo..j], m) + xs[j..] == xs[..lo] + Keep(xs[lo..j + 1], m) + xs[j + 1..]
  {
    KeepSnoc(xs[lo..j], xs[j], m);
    assert xs[lo..j + 1] == xs[lo..j] + [xs[j]];
    assert xs[j..] == [xs[j]] + xs[j + 1..];
  }

  lemma {:induction false} KeepSnoc(xs: seq<Solution>, x: Solution, m: set<int>)
    ensures Keep(xs + [x], m) == Keep(xs, m) + (if x.matchedTargetIDs <= m then [] else [x])
  {
    if |xs| > 0 {
      assert (xs + [x])[1..] == xs[1..] + [x];
      KeepSnoc(xs[1..], x, m);
    }
  }

  lemma {:induction false} KeepAll(xs: seq<Solution>, m: set<int>)
    requires forall k :: 0 <= k < |xs| ==> !(xs[k].matchedTargetIDs <= m)
    ensures Keep(xs, m) == xs
  {
    if |xs| > 0 {
      KeepAll(xs[1..], m);
    }
  }

  lemma ScanOutcome(sols: seq<Solution>, cand: Solution, i: nat)
    requires i <= |sols|
    ensures var (_, list, appended) := Scan(sols, cand, i);
      && (!appended ==> list == sols && Covered(sols, cand.matchedTargetIDs))
      && (forall k :: 0 <= k < |sols| ==>
            sols[k] in list || (appended && sols[k].matchedTargetIDs <= cand.matchedTargetIDs))
    decreases |sols| - i
  {
    var m := cand.matchedTargetIDs;
    if i < |sols| && !(m <= sols[i].matchedTargetIDs) {
      var other := sols[i];
      var sameButShorter := m == other.matchedTargetIDs && |cand.chain| < |other.chain|;
      var includesExisting := m >= other.matchedTargetIDs && |m| > |other.matchedTargetIDs|;
      if sameButShorter || includesExisting {
        var rest := sols[..i] + sols[i + 1..];
        SweepAfterRemoval(sols, m, i);
        forall k | 0 <= k < |sols| && !(sols[k].matchedTargetIDs <= m)
          ensures sols[k] in SweepDown(rest, m, |rest| - 1, i)
        {
          RemovalKeeps(sols, m, i, k);
        }
      } else {
        ScanOutcome(sols, cand, i + 1);
      }
    }
  }

  // ----- the reference: keep the maximal sets -----

  lemma ProperSuperset(m: set<int>, s: set<int>)
    ensures (m >= s && |m| > |s|) <==> (s <= m && s != m)
  {
    if s <= m {
      assert m == s + (m - s);
      assert |m| == |s| + |m - s|;
    }
  }

  /** The scan has passed index `i`: the candidate neither is covered by nor
      covers any solution before it. */
  lemma {:induction false} ScanOnAntichain(sols: seq<Solution>, cand: Solution, i: nat)
    requires Antichain(sols) && i <= |sols|
    requires forall k :: 0 <= k < i ==>
      !(cand.matchedTargetIDs <= sols[k].matchedTargetIDs) && !(sols[k].matchedTargetIDs <= cand.matchedTargetIDs)
    ensures var (_, list, appended) := Scan(sols, cand, i);
      && (appended <==> !Covered(sols, cand.matchedTargetIDs))
      && (appended ==> list == Keep(sols, cand.matchedTargetIDs))
    decreases |sols| - i
  {
    var m := cand.matchedTargetIDs;
    if i == |sols| {
      KeepAll(sols, m);
    } else if m <= sols[i].matchedTargetIDs {
    } else {
      ProperSuperset(m, sols[i].matchedTargetIDs);
      var other := sols[i];
      var sameButShorter := m == other.matchedTargetIDs && |cand.chain| < |other.chain|;
      var includesExisting := m >= other.matchedTargetIDs && |m| > |other.matchedTargetIDs|;
      if sameButShorter || includesExisting {
        SupersetNotCovered(sols, m, i);
        SweepIsKeep(sols, m, i);
      } else {
        ScanOnAntichain(sols, cand, i + 1);
      }
    }
  }

  /** On an antichain, a set strictly including the targets of solution
      `i` is included in no solution's targets. */
  lemma SupersetNotCovered(sols: seq<Solution>, m: set<int>, i: int)
    requires Antichain(sols) && 0 <= i < |sols|
    requires sols[i].matchedTargetIDs <= m && !(m <= sols[i].matchedTargetIDs)
    ensures !Covered(sols, m)
  {
    forall k | 0 <= k < |sols|
      ensures !(m <= sols[k].matchedTargetIDs)
    {
      if k != i {
        assert !(sols[i].matchedTargetIDs <= sols[k].matchedTargetIDs);
      }
    }
  }

  /** The sweep after removing solution `i`, whose targets `m` includes,
      keeps exactly the solutions `m` does not include, provided none before
      `i` is included in `m`. */
  lemma SweepIsKeep(sols: seq<Solution>, m: set<int>, i: int)
    requires 0 <= i < |sols| && sols[i].matchedTargetIDs <= m
    requires forall k :: 0 <= k < i ==> !(sols[k].matchedTargetIDs <= m)
    ensures var rest := sols[..i] + sols[i + 1..];
      SweepDown(rest, m, |rest| - 1, i) == Keep(sols, m)
  {
    SweepAfterRemoval(sols, m, i);
    KeepAroundRemoved(sols, m, i);
  }

  lemma SweepAfterRemoval(sols: seq<Solution>, m: set<int>, i: int)
    requires 0 <= i < |sols|
    ensures var rest := sols[..i] + sols[i + 1..];
      SweepDown(rest, m, |rest| - 1, i) == sols[..i] + Keep(sols[i + 1..], m)
  {
    var a, b := sols[..i], sols[i + 1..];
    var rest := a + b;
    SweepDownKeeps(rest, m, |rest| - 1, i);
    assert rest[..i] == a && rest[i..|rest|] == b && rest[|rest|..] == [];
    var kept := Keep(b, m);
    assert a + kept + [] == a + kept;
  }

  lemma RemovalKeeps(sols: seq<Solution>, m: set<int>, i: int, k: int)
    requires 0 <= i < |sols| && 0 <= k < |sols| && !(sols[k].matchedTargetIDs <= m)
    requires sols[i].matchedTargetIDs <= m
    ensures sols[k] in sols[..i] + Keep(sols[i + 1..], m)
  {
    if k < i {
      assert sols[k] == sols[..i][k];
    } else {
      assert sols[k] == sols[i + 1..][k - i - 1];
      KeepMembers(sols[i + 1..], m, sols[k]);
    }
  }

  lemma KeepAroundRemoved(sols: seq<Solution>, m: set<int>, i: int)
    requires 0 <= i < |sols| && sols[i].matchedTargetIDs <= m
    requires forall k :: 0 <= k < i ==> !(sols[k].matchedTargetIDs <= m)
    ensures Keep(sols, m) == sols[..i] + Keep(sols[i + 1..], m)
  {
    var a, b := sols[..i], sols[i + 1..];
    KeepAll(a, m);
    assert Keep([sols[i]], m) == [];
    KeepAppend([sols[i]], b, m);
    KeepAppend(a, [sols[i]] + b, m);
    assert sols == a + ([sols[i]] + b);
  }

  lemma {:induction false} KeepAppend(xs: seq<Solution>, ys: seq<Solution>, m: set<int>)
    ensures Keep(xs + ys, m) == Keep(xs, m) + Keep(ys, m)
  {
    if |xs| > 0 {
      assert (xs + ys)[1..] == xs[1..] + ys;
      KeepAppend(xs[1..], ys, m);
    } else {
      assert xs + ys == ys;
    }
  }

  /** On an antichain, offering a candidate drops it exactly when a kept
      solution covers its targets, and otherwise removes every solution whose
      targets it includes and appends it. */
  lemma OfferOnAntichain(sols: seq<Solution>, cand: Solution)
    requires Antichain(sols)
    ensures Offer(sols, cand).1 <==> !Covered(sols, cand.matchedTargetIDs)
    ensures Offer(sols, cand).1 ==> Offer(sols, cand).0 == Keep(sols, cand.matchedTargetIDs) + [cand]
    ensures !Offer(sols, cand).1 ==> Offer(sols, cand).0 == sols
  {
    ScanOnAntichain(sols, cand, 0);
  }

  /** A candidate whose targets include those of every kept solution
      replaces the whole list when it is appended: this is the case of a
      solution matching every target. */
  lemma OfferAllTargets(sols: seq<Solution>, cand: Solution)
    requires Antichain(sols)
    requires forall k :: 0 <= k < |sols| ==> sols[k].matchedTargetIDs <= cand.matchedTargetIDs
    ensures Offer(sols, cand).1 <==> !Covered(sols, cand.matchedTargetIDs)
    ensures Offer(sols, cand).1 ==> Offer(sols, cand).0 == [cand]
  {
    OfferOnAntichain(sols, cand);
    var kept := Keep(sols, cand.matchedTargetIDs);
    if |kept| > 0 {
      KeepMembers(sols, cand.matchedTargetIDs, kept[0]);
      assert false;
    }
  }

  lemma {:induction false} KeepAntichain(xs: seq<Solution>, m: set<int>)
    requires Antichain(xs)
    ensures Antichain(Keep(xs, m))
  {
    if |xs| > 0 {
      var tail := xs[1..];
      assert Antichain(tail) by {
        forall i, j | 0 <= i < |tail| && 0 <= j < |tail| && i != j
          ensures !(tail[i].matchedTargetIDs <= tail[j].matchedTargetIDs)
        {
          assert tail[i] == xs[i + 1] && tail[j] == xs[j + 1];
        }
      }
      KeepAntichain(tail, m);
      if !(xs[0].matchedTargetIDs <= m) {
        var kept := Keep(tail, m);
        forall s | s in kept
          ensures !(xs[0].matchedTargetIDs <= s.matchedTargetIDs)
          ensures !(s.matchedTargetIDs <= xs[0].matchedTargetIDs)
        {
          KeepMembers(tail, m, s);
          var k :| 0 <= k < |tail| && tail[k] == s;
          assert xs[k + 1] == s;
        }
        PrependAntichain(xs[0], kept);
      }
    }
  }

  lemma PrependAntichain(a: Solution, ys: seq<Solution>)
    requires Antichain(ys)
    requires forall s :: s in ys ==>
      !(a.matchedTargetIDs <= s.matchedTargetIDs) && !(s.matchedTargetIDs <= a.matchedTargetIDs)
    ensures Antichain([a] + ys)
  {
    var zs := [a] + ys;
    forall i, j | 0 <= i < |zs| && 0 <= j < |zs| && i != j
      ensures !(zs[i].matchedTargetIDs <= zs[j].matchedTargetIDs)
    {
      if i > 0 {
        assert zs[i] == ys[i - 1];
      }
      if j > 0 {
        assert zs[j] == ys[j - 1];
      }
    }
  }

  lemma AppendAntichain(xs: seq<Solution>, a: Solution)
    requires Antichain(xs)
    requires forall s :: s in xs ==>
      !(a.matchedTargetIDs <= s.matchedTargetIDs) && !(s.matchedTargetIDs <= a.matchedTargetIDs)
    ensures Antichain(xs + [a])
  {
    var zs := xs + [a];
    forall i, j | 0 <= i < |zs| && 0 <= j < |zs| && i != j
      ensures !(zs[i].matchedTargetIDs <= zs[j].matchedTargetIDs)
    {
      if i < |xs| {
        assert zs[i] == xs[i];
      }
      if j < |xs| {
        assert zs[j] == xs[j];
      }
    }
  }

  /** Offering keeps the list an antichain. */
  lemma OfferKeepsAntichain(sols: seq<Solution>, cand: Solution)
    requires Antichain(sols)
    ensures Antichain(Offer(sols, cand).0)
  {
    OfferOnAntichain(sols, cand);
    var m := cand.matchedTargetIDs;
    if !Covered(sols, m) {
      KeepAntichain(sols, m);
      var kept := Keep(sols, m);
      forall s | s in kept
        ensures !(m <= s.matchedTargetIDs) && !(s.matchedTargetIDs <= m)
      {
        KeepMembers(sols, m, s);
        var k :| 0 <= k < |sols| && sols[k] == s;
      }
      AppendAntichain(kept, cand);
    }
  }

  /** What a kept solution covers stays covered after an offer, and the
      candidate's targets are covered afterwards. */
  lemma OfferCovers(sols: seq<Solution>, cand: Solution, m: set<int>)
    ensures Covered(Offer(sols, cand).0, cand.matchedTargetIDs)
    ensures Covered(sols, m) ==> Covered(Offer(sols, cand).0, m)
  {
    var r := Offer(sols, cand);
    if r.1 {
      assert cand.matchedTargetIDs <= r.0[|r.0| - 1].matchedTargetIDs;
    }
    if Covered(sols, m) {
      var k :| 0 <= k < |sols| && m <= sols[k].matchedTargetIDs;
      if sols[k] in r.0 {
        var j :| 0 <= j < |r.0| && r.0[j] == sols[k];
      } else {
        assert m <= r.0[|r.0| - 1].matchedTargetIDs;
      }
    }
  }
}

/** Where the solutions after an offer come from. */
module FrontierSources {
  import opened Frontier

  lemma {:induction false} SweepDownFrom(xs: seq<Solution>, m: set<int>, j: int, lo: nat, s: Solution)
    requires lo <= j + 1 <= |xs|
    requires s in SweepDown(xs, m, j, lo)
    ensures s in xs
  {
    SweepDownKeeps(xs, m, j, lo);
    var r := SweepDown(xs, m, j, lo);
    var front, kept, back := xs[..lo], Keep(xs[lo..j + 1], m), xs[j + 1..];
    if s in kept {
      KeepMembers(xs[lo..j + 1], m, s);
    }
  }

  lemma {:induction false} ScanKeepsOnlyOld(sols: seq<Solution>, cand: Solution, i: nat, s: Solution)
    requires i <= |sols|
    requires s in Scan(sols, cand, i).1
    ensures s in sols
    decreases |sols| - i
  {
    var m := cand.matchedTargetIDs;
    if i < |sols| && !(m <= sols[i].matchedTargetIDs) {
      var other := sols[i];
      var sameButShorter := m == other.matchedTargetIDs && |cand.chain| < |other.chain|;
      var includesExisting := m >= other.matchedTargetIDs && |m| > |other.matchedTargetIDs|;
      if sameButShorter || includesExisting {
        var rest := sols[..i] + sols[i + 1..];
        SweepDownFrom(rest, m, |rest| - 1, i, s);
        var k :| 0 <= k < |rest| && rest[k] == s;
        if k < i {
          assert rest[k] == sols[k];
        } else {
          assert rest[k] == sols[k + 1];
        }
      } else {
        ScanKeepsOnlyOld(sols, cand, i + 1, s);
      }
    }
  }

  /** Every solution after an offer was kept before it or is the candidate. */
  lemma OfferFrom(sols: seq<Solution>, cand: Solution, s: Solution)
    requires s in Offer(sols, cand).0
    ensures s in sols || s == cand
  {
    var (_, list, appended) := Scan(sols, cand, 0);
    if s in list {
      ScanKeepsOnlyOld(sols, cand, 0, s);
    }
  }
}
