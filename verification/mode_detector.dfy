/** `ModeDetector` (Utils.swift:79-112): counts how often each item was
    tracked and remembers the leader; once the leader's count reaches the
    threshold the detector freezes and reports the leader as the mode.

    The detector is an immutable record; `Track` and `Reset` return the new
    state.  Its partner is an independent definition, `Reached`: the mode
    after tracking `xs` from a fresh detector is the first item of `xs` whose
    number of occurrences reaches the threshold.
 */
module Modes {
  import opened Wrappers

  datatype ModeDetector<E(==)> = ModeDetector(
    stopThreshold: int,
    candidates: map<E, int>,
    leader: Option<E>,
    leaderCount: int)

  /** `init(stopTrackingReaching:)`. */
  function Init<E(==)>(threshold: int): (d: ModeDetector<E>)
    ensures d.stopThreshold == threshold && Inv(d)
    ensures Mode(d) == None
  {
    ModeDetector(threshold, map[], None, 0)
  }

  /** The bookkeeping is consistent: the leader's count is the largest count,
      every tracked item has been seen at least once, and there is no leader
      only while nothing has been counted. */
  predicate Inv<E(==)>(d: ModeDetector<E>)
  {
    && d.leaderCount >= 0
    && (d.leader.None? ==> d.leaderCount == 0)
    && (d.leader.Some? ==> d.leader.value in d.candidates && d.candidates[d.leader.value] == d.leaderCount)
    && (forall e :: e in d.candidates ==> 1 <= d.candidates[e] <= d.leaderCount)
  }

  predicate Frozen<E(==)>(d: ModeDetector<E>)
  {
    d.leaderCount >= d.stopThreshold
  }

  /** `track(_:)`: a no-op once frozen; otherwise count the item, and make it
      the leader only when its count strictly exceeds the leader's (a tie
      keeps the earlier leader). */
  function Track<E(==)>(d: ModeDetector<E>, item: E): (r: ModeDetector<E>)
    ensures Frozen(d) ==> r == d
    ensures r.stopThreshold == d.stopThreshold
    ensures Inv(d) ==> Inv(r)
    ensures Inv(d) ==> r.leaderCount == d.leaderCount || r.leaderCount == d.leaderCount + 1
    ensures Inv(d) && d.leaderCount <= d.stopThreshold ==> r.leaderCount <= d.stopThreshold
    ensures r.leader != d.leader ==> r.leader == Some(item) && r.leaderCount > d.leaderCount
    ensures !Frozen(d) ==> item in r.candidates
  {
    if Frozen(d) then d
    else
      var count := if item in d.candidates then d.candidates[item] + 1 else 1;
      var candidates := d.candidates[item := count];
      if count > d.leaderCount then
        ModeDetector(d.stopThreshold, candidates, Some(item), count)
      else
        d.(candidates := candidates)
  }

  /** `mode`: the leader once its count has reached the threshold. */
  function Mode<E(==)>(d: ModeDetector<E>): (r: Option<E>)
    ensures r.Some? ==> Frozen(d) && r == d.leader
    ensures Inv(d) && Frozen(d) && d.stopThreshold >= 1 ==> r.Some?
  {
    if Frozen(d) then d.leader else None
  }

  /** `reset()`: forget every count; the threshold stays. */
  function Reset<E(==)>(d: ModeDetector<E>): (r: ModeDetector<E>)
    ensures r == Init(d.stopThreshold)
    ensures Inv(r) && Mode(r) == None
  {
    ModeDetector(d.stopThreshold, map[], None, 0)
  }

  /** Once there is a mode, tracking changes nothing, so the mode is frozen. */
  lemma ModeFrozen<E>(d: ModeDetector<E>, item: E)
    requires Mode(d).Some?
    ensures Track(d, item) == d && Mode(Track(d, item)) == Mode(d)
  {
  }

  /** Tracking a sequence of items in order. */
  function TrackAll<E(==)>(d: ModeDetector<E>, xs: seq<E>): ModeDetector<E>
  {
    if |xs| == 0 then d else Track(TrackAll(d, xs[..|xs| - 1]), xs[|xs| - 1])
  }

  // ----- the reference: first item to reach the threshold -----

  function Count<E(==)>(xs: seq<E>, e: E): nat
  {
    multiset(xs)[e]
  }

  /** The first item of `xs` whose occurrences reach `t`, reading from the
      front: the item at the earliest position where some count reaches `t`. */
  function Reached<E(==)>(xs: seq<E>, t: int): Option<E>
  {
    if |xs| == 0 then None
    else match Reached(xs[..|xs| - 1], t)
      case Some(e) => Some(e)
      case None => if Count(xs, xs[|xs| - 1]) >= t then Some(xs[|xs| - 1]) else None
  }

  lemma CountSnoc<E>(xs: seq<E>, x: E, e: E)
    ensures Count(xs + [x], e) == Count(xs, e) + (if e == x then 1 else 0)
  {
    assert multiset(xs + [x]) == multiset(xs) + multiset{x};
  }

  /** Nothing reaches `t` exactly when every item of `xs` occurs fewer than
      `t` times; what reaches `t` is an item of `xs` occurring `t` times or more. */
  lemma {:induction false} ReachedSpec<E>(xs: seq<E>, t: int)
    ensures Reached(xs, t).None? <==> forall e :: e in xs ==> Count(xs, e) < t
    ensures Reached(xs, t).Some? ==> Reached(xs, t).value in xs && Count(xs, Reached(xs, t).value) >= t
  {
    if |xs| > 0 {
      var front, x := xs[..|xs| - 1], xs[|xs| - 1];
      assert xs == front + [x];
      ReachedSpec(front, t);
      forall e
        ensures Count(xs, e) == Count(front, e) + (if e == x then 1 else 0)
      {
        CountSnoc(front, x, e);
      }
      assert xs[..|xs| - 1] == front;
      if Reached(front, t).Some? {
        var e := Reached(front, t).value;
        assert Count(xs, e) >= Count(front, e);
        assert Reached(xs, t) == Some(e);
      } else if Count(xs, x) >= t {
        assert Reached(xs, t) == Some(x);
      } else {
        assert Reached(xs, t) == None;
        forall e | e in xs
          ensures Count(xs, e) < t
        {
          if e != x {
            assert e in front;
          }
        }
      }
    }
  }

  /** Fresh-detector counts agree with the tracked sequence. */
  predicate Agrees<E(==)>(d: ModeDetector<E>, xs: seq<E>)
  {
    && (forall e :: e in d.candidates ==> d.candidates[e] == Count(xs, e))
    && (forall e :: e in xs ==> e in d.candidates)
  }

  lemma {:induction false} TrackAllState<E>(xs: seq<E>, t: int)
    requires t >= 1
    ensures var d := TrackAll(Init(t), xs);
      && Inv(d) && d.stopThreshold == t
      && (Reached(xs, t).None? ==> !Frozen(d) && Agrees(d, xs))
      && (Reached(xs, t).Some? ==> Frozen(d) && d.leader == Reached(xs, t))
  {
    var init: ModeDetector<E> := Init(t);
    if |xs| == 0 {
      assert Agrees(init, xs);
    } else {
      var front, x := xs[..|xs| - 1], xs[|xs| - 1];
      assert xs == front + [x];
      TrackAllState(front, t);
      var d0 := TrackAll(init, front);
      if Reached(front, t).None? {
        TrackStep(d0, front, x);
      }
    }
  }

  lemma TrackStep<E>(d0: ModeDetector<E>, front: seq<E>, x: E)
    requires Inv(d0) && !Frozen(d0) && Agrees(d0, front)
    ensures var d := Track(d0, x); var xs := front + [x];
      && (Count(xs, x) >= d0.stopThreshold ==> Frozen(d) && d.leader == Some(x))
      && (Count(xs, x) < d0.stopThreshold ==> !Frozen(d) && Agrees(d, xs))
  {
    CountSnoc(front, x, x);
    var count := if x in d0.candidates then d0.candidates[x] + 1 else 1;
    assert count == Count(front + [x], x);
    if count < d0.stopThreshold {
      TrackAgrees(d0, front, x);
    }
  }

  /** Tracking `x` counts it once more and keeps every other count. */
  lemma TrackAgrees<E>(d0: ModeDetector<E>, front: seq<E>, x: E)
    requires !Frozen(d0) && Agrees(d0, front)
    ensures Agrees(Track(d0, x), front + [x])
  {
    var xs, d := front + [x], Track(d0, x);
    var count := if x in d0.candidates then d0.candidates[x] + 1 else 1;
    assert d.candidates == d0.candidates[x := count];
    forall e | e in d.candidates
      ensures d.candidates[e] == Count(xs, e)
    {
      CountSnoc(front, x, e);
    }
    forall e | e in xs
      ensures e in d.candidates
    {
      if e != x {
        assert e in front;
      }
    }
  }

  /** The mode after tracking `xs` from a fresh detector is the first item
      whose number of occurrences reaches the threshold. */
  lemma TrackAllMode<E>(xs: seq<E>, t: int)
    requires t >= 1
    ensures Mode(TrackAll(Init(t), xs)) == Reached(xs, t)
  {
    TrackAllState(xs, t);
  }

  /** Tracking more never takes a mode away or changes it. */
  lemma {:induction false} TrackAllKeepsMode<E>(d: ModeDetector<E>, xs: seq<E>)
    requires Mode(d).Some?
    ensures TrackAll(d, xs) == d
  {
    if |xs| > 0 {
      TrackAllKeepsMode(d, xs[..|xs| - 1]);
    }
  }
}
