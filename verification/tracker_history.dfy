/** What a `TaskTracker` reports after any sequence of calls, stated against
    the logged frames alone: each detector is the fold of the values logged
    for it, the two getters answer with the first values seen five times,
    their caches never make an answer differ from that, an answer once given
    stays, and `reset` returns a new tracker.
 */
module TrackerHistory {
  import opened Wrappers
  import opened Text
  import opened Grid
  import opened Modes
  import opened Tracker

  /** One call on the tracker. */
  datatype Event =
    | LogMatrixEvent(info: MatrixInfo)
    | LogTargetsEvent(targets: seq<string>)
    | ReadMatrix
    | ReadTargets

  function Step(tr: TaskTracker, e: Event): TaskTracker
  {
    match e
    case LogMatrixEvent(info) => LogMatrix(tr, info)
    case LogTargetsEvent(targets) => LogTargets(tr, targets)
    case ReadMatrix => BestMatrix(tr).1
    case ReadTargets => BestTargets(tr).1
  }

  /** The tracker after the calls `es`, made in order on a new tracker. */
  function ReplayEvents(es: seq<Event>): TaskTracker
  {
    if |es| == 0 then Fresh() else Step(ReplayEvents(es[..|es| - 1]), es[|es| - 1])
  }

  // ----- the logged values -----

  /** The sizes of the logged frames, in order. */
  function Sizes(es: seq<Event>): seq<nat>
  {
    if |es| == 0 then []
    else Sizes(es[..|es| - 1]) + match es[|es| - 1]
      case LogMatrixEvent(info) => [info.size]
      case _ => []
  }

  /** The digits logged at `idx`, in order. */
  function ValuesAt(es: seq<Event>, idx: MatrixIndex): seq<string>
  {
    if |es| == 0 then []
    else ValuesAt(es[..|es| - 1], idx) + match es[|es| - 1]
      case LogMatrixEvent(info) => if idx in info.cells then [info.cells[idx]] else []
      case _ => []
  }

  /** Every index some logged frame had digits at. */
  function Seen(es: seq<Event>): set<MatrixIndex>
  {
    if |es| == 0 then {}
    else Seen(es[..|es| - 1]) + match es[|es| - 1]
      case LogMatrixEvent(info) => info.cells.Keys
      case _ => {}
  }

  /** The non-empty logged target lists, each joined with `|`, in order. */
  function Joined(es: seq<Event>): seq<string>
  {
    if |es| == 0 then []
    else Joined(es[..|es| - 1]) + match es[|es| - 1]
      case LogTargetsEvent(targets) => if |targets| > 0 then [Join(targets, TargetsSeparator)] else []
      case _ => []
  }

  lemma {:induction false} ValuesAtUnseen(es: seq<Event>, idx: MatrixIndex)
    requires idx !in Seen(es)
    ensures ValuesAt(es, idx) == []
  {
    if |es| > 0 {
      ValuesAtUnseen(es[..|es| - 1], idx);
    }
  }

  lemma TrackAllSnoc<E>(d: ModeDetector<E>, xs: seq<E>, x: E)
    ensures TrackAll(d, xs + [x]) == Track(TrackAll(d, xs), x)
  {
    assert (xs + [x])[..|xs|] == xs;
  }

  // ----- the cache invariant -----

  /** The thresholds are the tracker's, and each cache holds what the
      detectors now say. */
  predicate WellFormed(tr: TaskTracker)
  {
    && tr.sizeDetector.stopThreshold == SizeThreshold
    && tr.targetsDetector.stopThreshold == TargetsThreshold
    && (tr.detectedMatrix.Some? ==>
          && Mode(tr.sizeDetector).Some?
          && AllCellModes(tr, Mode(tr.sizeDetector).value)
          && tr.detectedMatrix.value == ModeGrid(tr, Mode(tr.sizeDetector).value))
    && (tr.detectedTargets.Some? ==>
          && Mode(tr.targetsDetector).Some?
          && tr.detectedTargets.value == Split(Mode(tr.targetsDetector).value, TargetsSeparator))
  }

  /** What `bestMatrixCandidate` would compute from the detectors alone. */
  function CurrentMatrix(tr: TaskTracker): Option<Matrix>
  {
    match Mode(tr.sizeDetector)
    case None => None
    case Some(size) => if AllCellModes(tr, size) then Some(ModeGrid(tr, size)) else None
  }

  /** What `bestTargestCandidates` would compute from the detector alone. */
  function CurrentTargets(tr: TaskTracker): Option<seq<string>>
  {
    match Mode(tr.targetsDetector)
    case None => None
    case Some(joined) => Some(Split(joined, TargetsSeparator))
  }

  /** With the caches consistent, each getter answers what the detectors
      say, whether or not it had cached an answer. */
  lemma GettersIgnoreCache(tr: TaskTracker)
    requires WellFormed(tr)
    ensures BestMatrix(tr).0 == CurrentMatrix(tr)
    ensures BestTargets(tr).0 == CurrentTargets(tr)
  {
  }

  /** Logging a frame changes no detector that already has a mode. */
  lemma LogMatrixKeepsGrid(tr: TaskTracker, info: MatrixInfo, size: nat)
    requires AllCellModes(tr, size)
    ensures AllCellModes(LogMatrix(tr, info), size)
    ensures ModeGrid(LogMatrix(tr, info), size) == ModeGrid(tr, size)
  {
    var r := LogMatrix(tr, info);
    forall i, j | 0 <= i < size && 0 <= j < size
      ensures MatrixIndex(i, j) in r.candidates
      ensures r.candidates[MatrixIndex(i, j)] == tr.candidates[MatrixIndex(i, j)]
    {
      var idx := MatrixIndex(i, j);
      if idx in info.cells {
        ModeFrozen(tr.candidates[idx], info.cells[idx]);
      }
    }
    var a, b := ModeGrid(r, size), ModeGrid(tr, size);
    forall i | 0 <= i < size
      ensures a[i] == b[i]
    {
      forall j | 0 <= j < size
        ensures a[i][j] == b[i][j]
      {
        assert Mode(r.candidates[MatrixIndex(i, j)]) == Some(a[i][j]);
      }
    }
  }

  /** Every call keeps the caches consistent with the detectors. */
  lemma StepWellFormed(tr: TaskTracker, e: Event)
    requires WellFormed(tr)
    ensures WellFormed(Step(tr, e))
  {
    match e
    case LogMatrixEvent(info) =>
      if tr.detectedMatrix.Some? {
        ModeFrozen(tr.sizeDetector, info.size);
        LogMatrixKeepsGrid(tr, info, Mode(tr.sizeDetector).value);
      }
    case LogTargetsEvent(targets) =>
    case ReadMatrix =>
    case ReadTargets =>
  }

  // ----- the history theorem -----

  /** `tr` is what the calls `es` leave: each detector has tracked exactly
      the values logged for it, and the caches are consistent. */
  predicate Explains(tr: TaskTracker, es: seq<Event>)
  {
    && tr.sizeDetector == TrackAll(Init(SizeThreshold), Sizes(es))
    && tr.targetsDetector == TrackAll(Init(TargetsThreshold), Joined(es))
    && CellsExplained(tr, es)
    && WellFormed(tr)
  }

  /** The digit detectors of `tr` have tracked what `es` logged. */
  predicate CellsExplained(tr: TaskTracker, es: seq<Event>)
  {
    && tr.candidates.Keys == Seen(es)
    && (forall idx :: idx in tr.candidates ==>
          tr.candidates[idx] == TrackAll(Init(DigitConfidenceThreshold), ValuesAt(es, idx)))
  }

  lemma LogMatrixCells(tr: TaskTracker, front: seq<Event>, info: MatrixInfo)
    requires CellsExplained(tr, front)
    ensures CellsExplained(LogMatrix(tr, info), front + [LogMatrixEvent(info)])
  {
    var es := front + [LogMatrixEvent(info)];
    assert es[..|front|] == front;
    assert Seen(es) == Seen(front) + info.cells.Keys;
    var r := LogMatrix(tr, info);
    forall idx | idx in r.candidates
      ensures r.candidates[idx] == TrackAll(Init(DigitConfidenceThreshold), ValuesAt(es, idx))
    {
      if idx in info.cells {
        assert ValuesAt(es, idx) == ValuesAt(front, idx) + [info.cells[idx]];
        if idx !in tr.candidates {
          ValuesAtUnseen(front, idx);
        }
        TrackAllSnoc(Init(DigitConfidenceThreshold), ValuesAt(front, idx), info.cells[idx]);
      } else {
        assert ValuesAt(es, idx) == ValuesAt(front, idx);
      }
    }
  }

  lemma LogMatrixExplains(tr: TaskTracker, front: seq<Event>, info: MatrixInfo)
    requires Explains(tr, front)
    ensures Explains(LogMatrix(tr, info), front + [LogMatrixEvent(info)])
  {
    var es := front + [LogMatrixEvent(info)];
    assert es[..|front|] == front;
    StepWellFormed(tr, LogMatrixEvent(info));
    assert Joined(es) == Joined(front);
    assert Sizes(es) == Sizes(front) + [info.size];
    TrackAllSnoc(Init(SizeThreshold), Sizes(front), info.size);
    LogMatrixCells(tr, front, info);
  }

  lemma LogTargetsExplains(tr: TaskTracker, front: seq<Event>, targets: seq<string>)
    requires Explains(tr, front)
    ensures Explains(LogTargets(tr, targets), front + [LogTargetsEvent(targets)])
  {
    var es := front + [LogTargetsEvent(targets)];
    assert es[..|front|] == front;
    StepWellFormed(tr, LogTargetsEvent(targets));
    assert Sizes(es) == Sizes(front) && Seen(es) == Seen(front);
    if |targets| == 0 {
      assert Joined(es) == Joined(front);
    } else {
      var joined := Join(targets, TargetsSeparator);
      assert Joined(es) == Joined(front) + [joined];
      TrackAllSnoc(Init(TargetsThreshold), Joined(front), joined);
      if Mode(tr.targetsDetector).Some? {
        ModeFrozen(tr.targetsDetector, joined);
      }
    }
    forall idx | idx in tr.candidates
      ensures ValuesAt(es, idx) == ValuesAt(front, idx)
    {
    }
  }

  lemma ReadExplains(tr: TaskTracker, front: seq<Event>, e: Event)
    requires e.ReadMatrix? || e.ReadTargets?
    requires Explains(tr, front)
    ensures Explains(Step(tr, e), front + [e])
  {
    var es := front + [e];
    assert es[..|front|] == front;
    StepWellFormed(tr, e);
    assert Sizes(es) == Sizes(front) && Seen(es) == Seen(front) && Joined(es) == Joined(front);
    forall idx | idx in tr.candidates
      ensures ValuesAt(es, idx) == ValuesAt(front, idx)
    {
    }
  }

  /** After the calls `es`: the size detector has tracked the logged sizes,
      the targets detector the logged non-empty target lists (joined), and
      there is a digit detector exactly for each index ever logged, which
      has tracked the digits logged there; and the caches are consistent. */
  lemma {:induction false} ReplayDetectors(es: seq<Event>)
    ensures Explains(ReplayEvents(es), es)
  {
    if |es| > 0 {
      var front, e := es[..|es| - 1], es[|es| - 1];
      assert es == front + [e];
      ReplayDetectors(front);
      var tr := ReplayEvents(front);
      match e
      case LogMatrixEvent(info) => LogMatrixExplains(tr, front, info);
      case LogTargetsEvent(targets) => LogTargetsExplains(tr, front, targets);
      case ReadMatrix => ReadExplains(tr, front, e);
      case ReadTargets => ReadExplains(tr, front, e);
    }
  }

  // ----- the getters against the logged values -----

  /** The mode of the digits logged at row `i`, column `j`. */
  function CellReached(es: seq<Event>, i: int, j: int): Option<string>
  {
    Reached(ValuesAt(es, MatrixIndex(i, j)), DigitConfidenceThreshold)
  }

  /** The matrix the logged frames determine: none until some size has been
      logged five times; then the grid of, for each cell, the first digits
      logged there five times, provided every cell has such digits. */
  function ReferenceMatrix(es: seq<Event>): Option<Matrix>
  {
    match Reached<nat>(Sizes(es), SizeThreshold)
    case None => None
    case Some(size) =>
      if forall i, j :: 0 <= i < size && 0 <= j < size ==> CellReached(es, i, j).Some?
      then Some(seq(size, i requires 0 <= i < size =>
                  seq(size, j requires 0 <= j < size => CellReached(es, i, j).value)))
      else None
  }

  /** The target list the logs determine: the first non-empty list logged
      five times (compared joined with `|`), split back on `|`. */
  function ReferenceTargets(es: seq<Event>): Option<seq<string>>
  {
    match Reached(Joined(es), TargetsThreshold)
    case None => None
    case Some(joined) => Some(Split(joined, TargetsSeparator))
  }

  lemma CellModes(es: seq<Event>)
    ensures forall i, j :: Mode(DetectorAt(ReplayEvents(es), MatrixIndex(i, j))) == CellReached(es, i, j)
  {
    ReplayDetectors(es);
    var tr := ReplayEvents(es);
    forall i, j
      ensures Mode(DetectorAt(tr, MatrixIndex(i, j))) == CellReached(es, i, j)
    {
      var idx := MatrixIndex(i, j);
      if idx in tr.candidates {
        TrackAllMode(ValuesAt(es, idx), DigitConfidenceThreshold);
      } else {
        ValuesAtUnseen(es, idx);
      }
    }
  }

  /** The detector at `idx`, or a fresh one where there is none. */
  function DetectorAt(tr: TaskTracker, idx: MatrixIndex): ModeDetector<string>
  {
    if idx in tr.candidates then tr.candidates[idx] else Init(DigitConfidenceThreshold)
  }

  /** `bestMatrixCandidate` after any calls is the matrix the logged frames
      determine, however often and whenever it was read before. */
  lemma BestMatrixSpec(es: seq<Event>)
    ensures BestMatrix(ReplayEvents(es)).0 == ReferenceMatrix(es)
  {
    ReplayDetectors(es);
    var tr := ReplayEvents(es);
    GettersIgnoreCache(tr);
    TrackAllMode(Sizes(es), SizeThreshold);
    CellModes(es);
    if Mode(tr.sizeDetector).Some? {
      var size := Mode(tr.sizeDetector).value;
      if AllCellModes(tr, size) {
        GridOfModes(tr, es, size);
      } else {
        CellWithoutMode(tr, es, size);
      }
    }
  }

  /** With every cell's mode known, the grid of modes is the reference grid. */
  lemma GridOfModes(tr: TaskTracker, es: seq<Event>, size: nat)
    requires forall i, j :: Mode(DetectorAt(tr, MatrixIndex(i, j))) == CellReached(es, i, j)
    requires AllCellModes(tr, size)
    ensures forall i, j :: 0 <= i < size && 0 <= j < size ==> CellReached(es, i, j).Some?
    ensures ModeGrid(tr, size) == seq(size, i requires 0 <= i < size =>
      seq(size, j requires 0 <= j < size => CellReached(es, i, j).value))
  {
    var m := ModeGrid(tr, size);
    forall i, j | 0 <= i < size && 0 <= j < size
      ensures CellReached(es, i, j) == Some(m[i][j])
    {
      assert DetectorAt(tr, MatrixIndex(i, j)) == tr.candidates[MatrixIndex(i, j)];
    }
    var ref := seq(size, i requires 0 <= i < size =>
                 seq(size, j requires 0 <= j < size => CellReached(es, i, j).value));
    forall i | 0 <= i < size
      ensures ref[i] == m[i]
    {
    }
  }

  /** A cell without a mode is a cell the logs leave undecided. */
  lemma CellWithoutMode(tr: TaskTracker, es: seq<Event>, size: nat)
    requires forall i, j :: Mode(DetectorAt(tr, MatrixIndex(i, j))) == CellReached(es, i, j)
    requires !AllCellModes(tr, size)
    ensures !(forall i, j :: 0 <= i < size && 0 <= j < size ==> CellReached(es, i, j).Some?)
  {
    var i, j :| 0 <= i < size && 0 <= j < size &&
      !(MatrixIndex(i, j) in tr.candidates && Mode(tr.candidates[MatrixIndex(i, j)]).Some?);
    assert CellReached(es, i, j).None?;
  }

  /** `bestTargestCandidates` after any calls is the list the logs
      determine, however often and whenever it was read before. */
  lemma BestTargetsSpec(es: seq<Event>)
    ensures BestTargets(ReplayEvents(es)).0 == ReferenceTargets(es)
  {
    ReplayDetectors(es);
    GettersIgnoreCache(ReplayEvents(es));
    TrackAllMode(Joined(es), TargetsThreshold);
  }

  /** A matrix `bestMatrixCandidate` returns is square, its size was logged
      at least five times, and each cell holds digits logged at least five
      times at that index. */
  lemma BestMatrixEvidence(es: seq<Event>)
    requires BestMatrix(ReplayEvents(es)).0.Some?
    ensures var m := BestMatrix(ReplayEvents(es)).0.value;
      && Count(Sizes(es), |m|) >= SizeThreshold
      && (forall i :: 0 <= i < |m| ==> |m[i]| == |m|)
      && (forall i, j :: 0 <= i < |m| && 0 <= j < |m| ==>
            Count(ValuesAt(es, MatrixIndex(i, j)), m[i][j]) >= DigitConfidenceThreshold)
  {
    BestMatrixSpec(es);
    ReachedSpec(Sizes(es), SizeThreshold);
    var m := BestMatrix(ReplayEvents(es)).0.value;
    forall i, j | 0 <= i < |m| && 0 <= j < |m|
      ensures Count(ValuesAt(es, MatrixIndex(i, j)), m[i][j]) >= DigitConfidenceThreshold
    {
      ReachedSpec(ValuesAt(es, MatrixIndex(i, j)), DigitConfidenceThreshold);
    }
  }

  /** Every logged target is non-empty and free of `|`. */
  predicate PlainTargets(es: seq<Event>)
  {
    forall k, l :: 0 <= k < |es| && es[k].LogTargetsEvent? && 0 <= l < |es[k].targets| ==>
      IsPiece(es[k].targets[l], TargetsSeparator)
  }

  lemma {:induction false} JoinedFrom(es: seq<Event>, x: string)
    requires x in Joined(es)
    ensures exists k ::
      0 <= k < |es| && es[k].LogTargetsEvent? && |es[k].targets| > 0 && x == Join(es[k].targets, TargetsSeparator)
  {
    var front := es[..|es| - 1];
    if x in Joined(front) {
      JoinedFrom(front, x);
      var k :| 0 <= k < |front| && front[k].LogTargetsEvent? && |front[k].targets| > 0 &&
        x == Join(front[k].targets, TargetsSeparator);
      assert es[k] == front[k];
    } else {
      assert es[|es| - 1].LogTargetsEvent?;
    }
  }

  /** When logged targets never contain `|`, the list
      `bestTargestCandidates` returns is one of the logged lists, and it
      was logged at least five times. */
  lemma BestTargetsLogged(es: seq<Event>)
    requires PlainTargets(es)
    requires BestTargets(ReplayEvents(es)).0.Some?
    ensures var ts := BestTargets(ReplayEvents(es)).0.value;
      && |ts| > 0
      && (exists k :: 0 <= k < |es| && es[k] == LogTargetsEvent(ts))
      && Count(Joined(es), Join(ts, TargetsSeparator)) >= TargetsThreshold
  {
    BestTargetsSpec(es);
    ReachedSpec(Joined(es), TargetsThreshold);
    var joined := Reached(Joined(es), TargetsThreshold).value;
    JoinedFrom(es, joined);
    var k :| 0 <= k < |es| && es[k].LogTargetsEvent? && |es[k].targets| > 0 &&
      joined == Join(es[k].targets, TargetsSeparator);
    var ts := es[k].targets;
    forall l | 0 <= l < |ts|
      ensures IsPiece(ts[l], TargetsSeparator)
    {
    }
    SplitJoin(ts, TargetsSeparator);
    assert es[k] == LogTargetsEvent(ts);
  }

  // ----- answers once given stay -----

  lemma {:induction false} ReachedExtends<E>(xs: seq<E>, ys: seq<E>, t: int)
    requires Reached(xs, t).Some?
    ensures Reached(xs + ys, t) == Reached(xs, t)
  {
    if |ys| > 0 {
      var front := ys[..|ys| - 1];
      assert (xs + ys)[..|xs + ys| - 1] == xs + front;
      ReachedExtends(xs, front, t);
    } else {
      assert xs + ys == xs;
    }
  }

  /** Each log of a history is the logs of its two halves, concatenated. */
  lemma LogsAppend(es: seq<Event>, more: seq<Event>)
    ensures Sizes(es + more) == Sizes(es) + Sizes(more)
    ensures Joined(es + more) == Joined(es) + Joined(more)
    ensures forall idx :: ValuesAt(es + more, idx) == ValuesAt(es, idx) + ValuesAt(more, idx)
  {
    SizesAppend(es, more);
    JoinedAppend(es, more);
    forall idx
      ensures ValuesAt(es + more, idx) == ValuesAt(es, idx) + ValuesAt(more, idx)
    {
      ValuesAtAppend(es, more, idx);
    }
  }

  lemma {:induction false} SizesAppend(es: seq<Event>, more: seq<Event>)
    ensures Sizes(es + more) == Sizes(es) + Sizes(more)
    decreases |more|
  {
    if |more| == 0 {
      assert es + more == es;
    } else {
      var front := more[..|more| - 1];
      assert (es + more)[..|es + more| - 1] == es + front;
      assert (es + more)[|es + more| - 1] == more[|more| - 1];
      SizesAppend(es, front);
    }
  }

  lemma {:induction false} JoinedAppend(es: seq<Event>, more: seq<Event>)
    ensures Joined(es + more) == Joined(es) + Joined(more)
    decreases |more|
  {
    if |more| == 0 {
      assert es + more == es;
    } else {
      var front := more[..|more| - 1];
      assert (es + more)[..|es + more| - 1] == es + front;
      assert (es + more)[|es + more| - 1] == more[|more| - 1];
      JoinedAppend(es, front);
    }
  }

  lemma {:induction false} ValuesAtAppend(es: seq<Event>, more: seq<Event>, idx: MatrixIndex)
    ensures ValuesAt(es + more, idx) == ValuesAt(es, idx) + ValuesAt(more, idx)
    decreases |more|
  {
    if |more| == 0 {
      assert es + more == es;
    } else {
      var front := more[..|more| - 1];
      assert (es + more)[..|es + more| - 1] == es + front;
      assert (es + more)[|es + more| - 1] == more[|more| - 1];
      ValuesAtAppend(es, front, idx);
    }
  }

  /** Two histories with the same size mode and the same cell modes
      determine the same matrix. */
  lemma SameModesSameMatrix(es: seq<Event>, fs: seq<Event>, size: nat)
    requires Reached<nat>(Sizes(es), SizeThreshold) == Some(size)
    requires Reached<nat>(Sizes(fs), SizeThreshold) == Some(size)
    requires forall i, j :: 0 <= i < size && 0 <= j < size ==> CellReached(es, i, j) == CellReached(fs, i, j)
    ensures ReferenceMatrix(es) == ReferenceMatrix(fs)
  {
    var a, b := ReferenceMatrix(es), ReferenceMatrix(fs);
    if a.Some? {
      assert a.value == b.value by {
        forall i | 0 <= i < size
          ensures a.value[i] == b.value[i]
        {
        }
      }
    }
  }

  lemma ReferenceMatrixStable(es: seq<Event>, more: seq<Event>)
    requires ReferenceMatrix(es).Some?
    ensures ReferenceMatrix(es + more) == ReferenceMatrix(es)
  {
    LogsAppend(es, more);
    ReachedExtends(Sizes(es), Sizes(more), SizeThreshold);
    var size := Reached<nat>(Sizes(es), SizeThreshold).value;
    assert forall i, j :: 0 <= i < size && 0 <= j < size ==> CellReached(es, i, j).Some?;
    forall i, j | 0 <= i < size && 0 <= j < size
      ensures CellReached(es + more, i, j) == CellReached(es, i, j)
    {
      assert CellReached(es, i, j).Some?;
      ReachedExtends(ValuesAt(es, MatrixIndex(i, j)), ValuesAt(more, MatrixIndex(i, j)), DigitConfidenceThreshold);
    }
    SameModesSameMatrix(es + more, es, size);
  }

  /** Once `bestMatrixCandidate` has answered with a matrix, it answers
      with the same matrix after any further calls. */
  lemma BestMatrixStable(es: seq<Event>, more: seq<Event>)
    requires BestMatrix(ReplayEvents(es)).0.Some?
    ensures BestMatrix(ReplayEvents(es + more)).0 == BestMatrix(ReplayEvents(es)).0
  {
    BestMatrixSpec(es);
    BestMatrixSpec(es + more);
    ReferenceMatrixStable(es, more);
  }

  /** Once `bestTargestCandidates` has answered with a list, it answers
      with the same list after any further calls. */
  lemma BestTargetsStable(es: seq<Event>, more: seq<Event>)
    requires BestTargets(ReplayEvents(es)).0.Some?
    ensures BestTargets(ReplayEvents(es + more)).0 == BestTargets(ReplayEvents(es)).0
  {
    BestTargetsSpec(es);
    BestTargetsSpec(es + more);
    LogsAppend(es, more);
    ReachedExtends(Joined(es), Joined(more), TargetsThreshold);
  }

  // ----- reset -----

  /** `reset()` after any calls gives back a new tracker, so nothing logged
      before it affects what is reported after it. */
  lemma ResetFresh(es: seq<Event>)
    ensures Tracker.Reset(ReplayEvents(es)) == Fresh()
    ensures BestMatrix(Tracker.Reset(ReplayEvents(es))).0 == None && BestTargets(Tracker.Reset(ReplayEvents(es))).0 == None
  {
    ReplayDetectors(es);
  }
}
