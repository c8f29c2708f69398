/**
  The page reader shared by both content scripts (`startReading`,
  `continueReading`, `pauseReading`, `stopReading`). The module globals
  `reading`, `paused`, `currentNodeIndex` and `textNodes` become the fields of
  `ReadingEngine`; a text node is a segment. `None` stands for a null entry
  of `textNodes`, which the loop's `if (!node)` guard skips; the tree walker
  never collects one. A node that has since left the page is not null and is
  still spoken, since `highlightNode` hands a detached node back unchanged.

  `continueReading` is an async loop: it runs synchronously over the segments
  until it reaches one it can speak, then suspends until the utterance ends
  (`onend`) or fails (`onerror`, or `speak` throwing). `pending` records the
  index of the segment whose utterance the loop is waiting on; `Step` delivers
  that utterance's outcome, which the speech engine chooses.
 */
module Reading {
  import opened Wrappers

  /** How the utterance the loop waits on finishes. */
  datatype Outcome = End | Error

  /** The reader's globals, plus the segment the suspended loop waits on. */
  datatype Session = Session(reading: bool, paused: bool, index: nat, segments: seq<Option<string>>, pending: Option<nat>)

  const Idle := Session(false, false, 0, [], None)

  /**
    The states the reader can be in: a pause is only taken while reading, an
    idle reader is back at the start, the index stays within the segments, and
    a loop that is still reading waits on a segment at or after the index.
   */
  predicate Valid(s: Session) {
    (s.paused ==> s.reading)
    && (!s.reading ==> s.index == 0)
    && s.index <= |s.segments|
    && (s.pending.Some? && s.reading ==>
          s.index <= s.pending.value < |s.segments| && s.segments[s.pending.value].Some?)
  }

  /** The code after the loop: the reader goes idle unless it left the loop because of a pause. */
  function Exit(s: Session): (r: Session)
    ensures r.pending.None? && r.segments == s.segments && r.paused == s.paused
    ensures !s.paused ==> !r.reading && r.index == 0
    ensures s.paused ==> r.reading == s.reading && r.index == s.index
  {
    if !s.paused then s.(reading := false, index := 0, pending := None) else s.(pending := None)
  }

  /**
    The loop from iteration `i` up to its next suspension or its exit:
    null entries are skipped, a pause or a stop ends the loop.
   */
  function Advance(s: Session, i: nat): (r: Session)
    ensures r.segments == s.segments && r.paused == s.paused
    ensures r.pending.Some? ==> i <= r.pending.value < |s.segments| && s.segments[r.pending.value].Some?
                                && r.reading && !r.paused && r.index == s.index
                                && forall j :: i <= j < r.pending.value ==> s.segments[j].None?
    ensures r.pending.None? ==> r == Exit(s)
    decreases |s.segments| - i
  {
    if i < |s.segments| && s.reading then
      if s.paused then Exit(s)
      else if s.segments[i].None? then Advance(s, i + 1)
      else s.(pending := Some(i))
    else Exit(s)
  }

  /** `startReading`: resume a pause, start afresh over `collected` when idle, otherwise do nothing. */
  function StartSpec(s: Session, collected: seq<Option<string>>): Session {
    if s.paused then Advance(s.(paused := false, reading := true, pending := None), s.index)
    else if !s.reading then
      if |collected| == 0 then s.(segments := collected)
      else Advance(Session(true, false, 0, collected, None), 0)
    else s
  }

  /** `pauseReading`: only while reading; the loop sees the flag when its utterance is cancelled. */
  function PauseSpec(s: Session): Session {
    if !s.reading then s else s.(paused := true)
  }

  /** `stopReading`: only while reading; back to the start. */
  function StopSpec(s: Session): Session {
    if !s.reading then s else s.(reading := false, paused := false, index := 0)
  }

  /** The awaited utterance finishes: `onend` moves the index past it, `onerror` does not; the loop goes on with the next segment. */
  function StepSpec(s: Session, outcome: Outcome): Session {
    match s.pending
    case None => s
    case Some(i) =>
      var s1 := if outcome == End then s.(index := i + 1) else s;
      Advance(s1.(pending := None), i + 1)
  }

  // ---------------------------------------------------------------------
  // Properties
  // ---------------------------------------------------------------------

  lemma {:induction false} AdvanceKeepsValid(s: Session, i: nat)
    requires Valid(s.(pending := None)) && s.index <= i
    ensures Valid(Advance(s, i))
    decreases |s.segments| - i
  {
    if i < |s.segments| && s.reading && !s.paused && s.segments[i].None? {
      AdvanceKeepsValid(s, i + 1);
    }
  }

  /** `startReading` keeps the reader in a valid state. */
  lemma StartKeepsValid(s: Session, collected: seq<Option<string>>)
    requires Valid(s)
    ensures Valid(StartSpec(s, collected))
  {
    if s.paused {
      AdvanceKeepsValid(s.(paused := false, reading := true, pending := None), s.index);
    } else if !s.reading && |collected| > 0 {
      AdvanceKeepsValid(Session(true, false, 0, collected, None), 0);
    }
  }

  /** Pausing and stopping keep the reader in a valid state. */
  lemma PauseStopKeepValid(s: Session)
    requires Valid(s)
    ensures Valid(PauseSpec(s)) && Valid(StopSpec(s))
  {
  }

  /** The utterance's outcome keeps the reader in a valid state, whichever it is. */
  lemma StepKeepsValid(s: Session, outcome: Outcome)
    requires Valid(s)
    ensures Valid(StepSpec(s, outcome))
  {
    if s.pending.Some? {
      var i := s.pending.value;
      var s1 := (if outcome == End then s.(index := i + 1) else s).(pending := None);
      if s.reading {
        AdvanceKeepsValid(s1, i + 1);
      } else {
        assert !s1.paused && !s1.reading;
        assert Advance(s1, i + 1) == Exit(s1);
      }
      assert StepSpec(s, outcome) == Advance(s1, i + 1);
    }
  }

  /** Pausing twice is pausing once; pausing or stopping an idle reader changes nothing. */
  lemma PauseAndStopWhenIdle(s: Session)
    ensures PauseSpec(PauseSpec(s)) == PauseSpec(s)
    ensures !s.reading ==> PauseSpec(s) == s && StopSpec(s) == s
  {
  }

  /** Pausing keeps the position and the reading flag; stopping clears everything back to the start. */
  lemma PauseKeepsPlaceStopResets(s: Session)
    requires s.reading
    ensures var p := PauseSpec(s); p.paused && p.reading && p.index == s.index && p.segments == s.segments
    ensures var t := StopSpec(s); !t.reading && !t.paused && t.index == 0
  {
  }

  /**
    Resuming re-collects nothing and restarts the loop at the saved index: it
    suspends on the first non-null segment from there on, or, with
    none left, finishes and goes idle.
   */
  lemma ResumeFromSavedIndex(s: Session, collected: seq<Option<string>>)
    requires Valid(s) && s.paused
    ensures var r := StartSpec(s, collected);
      r.segments == s.segments
      && (r.pending.Some? ==> r.reading && r.index == s.index && s.index <= r.pending.value
                              && forall j :: s.index <= j < r.pending.value ==> s.segments[j].None?)
      && (r.pending.None? ==> !r.reading && r.index == 0)
  {
  }

  /** A fresh start reads `collected` from its first segment; with nothing collected the reader stays idle. */
  lemma FreshStart(s: Session, collected: seq<Option<string>>)
    requires !s.reading && !s.paused
    ensures var r := StartSpec(s, collected);
      r.segments == collected
      && (|collected| == 0 ==> !r.reading && r.index == s.index && r.pending == s.pending)
      && (|collected| > 0 ==> r.index == 0 && (r.pending.Some? ==> forall j :: 0 <= j < r.pending.value ==> collected[j].None?))
  {
  }

  /** While reading and not paused, `startReading` does nothing. */
  lemma StartWhileReadingIsNoop(s: Session, collected: seq<Option<string>>)
    requires s.reading && !s.paused
    ensures StartSpec(s, collected) == s
  {
  }

  /** The index moves only on `onend`, to just past the spoken segment (or back to 0 when the loop finishes). */
  lemma StepMovesIndexOnlyOnEnd(s: Session, outcome: Outcome)
    requires s.pending.Some?
    ensures var r := StepSpec(s, outcome);
      r.index == (if outcome == End then s.pending.value + 1 else s.index) || (r.index == 0 && !r.reading)
  {
  }

  /** Leaving the loop resets the reader to idle, unless the loop was left because of a pause. */
  lemma StepExitResetsUnlessPaused(s: Session, outcome: Outcome)
    requires s.pending.Some?
    ensures var r := StepSpec(s, outcome);
      r.pending.None? ==> (if s.paused then r.reading == s.reading else !r.reading && r.index == 0)
  {
  }

  /** Over a stretch of null entries the loop reaches the next non-null segment and suspends there at the latest. */
  lemma {:induction false} AdvanceReaches(s: Session, from: nat, to: nat)
    requires from <= to < |s.segments| && s.reading && !s.paused && s.segments[to].Some?
    ensures Advance(s, from).pending.Some? && Advance(s, from).pending.value <= to
    decreases |s.segments| - from
  {
    if from < to && s.segments[from].None? {
      AdvanceReaches(s, from + 1, to);
    }
  }

  /**
    The replay rule. Pause while segment `i` is being spoken, let the
    cancelled utterance report back, then resume. If the cancellation
    surfaced as `onerror`, the index was never moved and the loop restarts at
    `i` or earlier, so segment `i` is heard again. If it surfaced as `onend`,
    the index has moved past `i` and the segment is skipped.
   */
  lemma ResumeReplaysOnlyAfterError(s: Session, outcome: Outcome)
    requires Valid(s) && s.reading && !s.paused && s.pending.Some?
    ensures var i := s.pending.value;
      var r := StartSpec(StepSpec(PauseSpec(s), outcome), []);
      (outcome == Error ==> r.pending.Some? && r.pending.value <= i)
      && (outcome == End ==> r.pending.None? || r.pending.value > i)
  {
    var i := s.pending.value;
    var q := StepSpec(PauseSpec(s), outcome);
    assert q.paused && q.reading && q.segments == s.segments;
    if outcome == Error {
      assert q.index == s.index;
      AdvanceReaches(q.(paused := false, reading := true, pending := None), s.index, i);
    } else {
      assert q.index == i + 1;
    }
  }

  // ---------------------------------------------------------------------
  // The engine itself
  // ---------------------------------------------------------------------

  class ReadingEngine {
    var reading: bool
    var paused: bool
    var currentNodeIndex: nat
    var textNodes: seq<Option<string>>
    var pending: Option<nat>

    function State(): Session
      reads this
    {
      Session(reading, paused, currentNodeIndex, textNodes, pending)
    }

    /** The module's initial globals: idle, nothing collected. */
    constructor ()
      ensures State() == Idle
    {
      reading := false;
      paused := false;
      currentNodeIndex := 0;
      textNodes := [];
      pending := None;
    }

    /** `continueReading`, run from iteration `from` to its next suspension or its exit. */
    method ContinueReading(from: nat)
      modifies this
      ensures State() == Advance(old(State()), from)
    {
      var i := from;
      while i < |textNodes| && reading && !paused && textNodes[i].None?
        invariant State() == old(State())
        invariant Advance(State(), i) == Advance(old(State()), from)
        decreases |textNodes| - i
      {
        i := i + 1;
      }
      if i < |textNodes| && reading && !paused {
        pending := Some(i);
      } else {
        if !paused {
          reading := false;
          currentNodeIndex := 0;
        }
        pending := None;
      }
    }

    method StartReading(collected: seq<Option<string>>)
      modifies this
      ensures State() == StartSpec(old(State()), collected)
    {
      if paused {
        paused := false;
        reading := true;
        pending := None;
        ContinueReading(currentNodeIndex);
        return;
      }
      if !reading {
        textNodes := collected;
        if |textNodes| == 0 {
          return;
        }
        reading := true;
        paused := false;
        currentNodeIndex := 0;
        pending := None;
        ContinueReading(0);
      }
    }

    method PauseReading()
      modifies this
      ensures State() == PauseSpec(old(State()))
    {
      if !reading {
        return;
      }
      paused := true;
    }

    method StopReading()
      modifies this
      ensures State() == StopSpec(old(State()))
    {
      if !reading {
        return;
      }
      reading := false;
      paused := false;
      currentNodeIndex := 0;
    }

    /** The awaited utterance reports `outcome` and the loop resumes after it. */
    method Step(outcome: Outcome)
      modifies this
      ensures State() == StepSpec(old(State()), outcome)
    {
      if pending.None? {
        return;
      }
      var i := pending.value;
      if outcome == End {
        currentNodeIndex := i + 1;
      }
      pending := None;
      ContinueReading(i + 1);
    }
  }
}
