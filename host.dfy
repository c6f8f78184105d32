/**
 * The end-of-game hand-off both game components share: the `gameOver` state,
 * the `gameEndedRef` ref, and the effect that passes a finished game's score
 * to the app's `onGameEnd` handler.
 */
module Host {
  import opened Wrappers

  /** The two end-of-game flags of a component: the `gameOver` state and the `gameEndedRef` ref. */
  datatype Flags = Flags(gameOver: bool, ended: bool)

  /** The flags a component is mounted with, and the ones handleRestart puts back. */
  const Fresh: Flags := Flags(false, false)

  /** What happens to a component's flags, in the order React delivers it. */
  datatype Event =
    | Lost               // the snake crashes, or the next block does not fit
    | Effect(score: int) // the end-of-game effect runs with the current score
    | Restarted          // the restart button

  /**
   * A loss as the snake tick and mergePiece write it: unless the ref is set
   * already, the ref is set and gameOver is set with it.
   */
  function Lose(f: Flags): (r: Flags)
    ensures r.ended
    ensures !f.ended ==> r.gameOver
    ensures f.ended ==> r == f
  {
    if !f.ended then Flags(true, true) else f
  }

  /**
   * The end-of-game effect: when gameOver is set and the ref is not, it sets
   * the ref and reports `score`; otherwise it does nothing.
   */
  function EndEffect(f: Flags, score: int): (r: (Flags, Option<int>))
    ensures r.1.Some? <==> f.gameOver && !f.ended
    ensures r.1.Some? ==> r.1.value == score && r.0 == Flags(true, true)
    ensures r.1.None? ==> r.0 == f
  {
    if f.gameOver && !f.ended then (Flags(f.gameOver, true), Some(score)) else (f, None)
  }

  /** One event, as the components are written. */
  function Step(f: Flags, e: Event): (Flags, Option<int>) {
    match e
    case Lost => (Lose(f), None)
    case Effect(score) => EndEffect(f, score)
    case Restarted => (Fresh, None)
  }

  /** The scores reported to onGameEnd over a run of events, as the components are written. */
  function Reports(f: Flags, events: seq<Event>): seq<int>
    decreases |events|
  {
    if events == [] then []
    else
      var (g, report) := Step(f, events[0]);
      (if report.Some? then [report.value] else []) + Reports(g, events[1..])
  }

  /**
   * As written, no game result ever reaches onGameEnd: every write keeps the
   * ref equal to gameOver, and the effect reports only when they differ.
   */
  lemma {:induction false} NeverReported(f: Flags, events: seq<Event>)
    requires f.gameOver == f.ended
    ensures Reports(f, events) == []
    decreases |events|
  {
    if events != [] {
      var (g, report) := Step(f, events[0]);
      assert g.gameOver == g.ended && report.None?;
      NeverReported(g, events[1..]);
    }
  }

  /** A game lost and its effect run, as written: nothing is reported. */
  lemma LossNotReported(score: int)
    ensures Reports(Fresh, [Lost, Effect(score)]) == []
  {
    NeverReported(Fresh, [Lost, Effect(score)]);
  }

  /** A loss as evidently intended: it sets gameOver and leaves the ref to the effect. */
  function FixedLose(f: Flags): (r: Flags)
    ensures r.gameOver && r.ended == f.ended
  {
    f.(gameOver := true)
  }

  /** One event, with the loss as intended. */
  function FixedStep(f: Flags, e: Event): (Flags, Option<int>) {
    match e
    case Lost => (FixedLose(f), None)
    case Effect(score) => EndEffect(f, score)
    case Restarted => (Fresh, None)
  }

  /** The scores reported over a run of events, with the loss as intended. */
  function FixedReports(f: Flags, events: seq<Event>): seq<int>
    decreases |events|
  {
    if events == [] then []
    else
      var (g, report) := FixedStep(f, events[0]);
      (if report.Some? then [report.value] else []) + FixedReports(g, events[1..])
  }

  /** How many times a run of events restarts the game. */
  function Restarts(events: seq<Event>): nat
    decreases |events|
  {
    if events == [] then 0 else (if events[0].Restarted? then 1 else 0) + Restarts(events[1..])
  }

  /** With the loss as intended, the effect that follows a loss that is not yet reported reports its score. */
  lemma FixedLossReported(f: Flags, score: int)
    requires !f.ended
    ensures FixedStep(FixedStep(f, Lost).0, Effect(score)).1 == Some(score)
  {
  }

  /** With the loss as intended, a game lost and its effect run reports the score once. */
  lemma FixedLossReportedOnce(score: int)
    ensures FixedReports(Fresh, [Lost, Effect(score), Effect(score)]) == [score]
  {
    var events := [Lost, Effect(score), Effect(score)];
    var lost := Flags(true, false);
    assert events[1..] == [Effect(score), Effect(score)] && events[2..] == [Effect(score)];
    assert FixedReports(Flags(true, true), [Effect(score)]) == [];
    assert FixedReports(lost, events[1..]) == [score];
  }

  /**
   * With the loss as intended, each game is reported at most once: a run
   * reports no more results than the games it plays, one for the game in
   * progress (unless it is reported already) and one per restart.
   */
  lemma {:induction false} FixedReportsOncePerGame(f: Flags, events: seq<Event>)
    requires f.ended ==> f.gameOver
    ensures |FixedReports(f, events)| <= (if f.ended then 0 else 1) + Restarts(events)
    decreases |events|
  {
    if events != [] {
      var (g, report) := FixedStep(f, events[0]);
      assert g.ended ==> g.gameOver;
      FixedReportsOncePerGame(g, events[1..]);
    }
  }
}
