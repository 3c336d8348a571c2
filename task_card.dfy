/**
 * The swipe-to-delete behaviour of a task card. The card keeps one
 * horizontal offset; the pan gesture drags it left, and on release it
 * either animates off screen and then deletes the task, or springs back.
 *
 * Animations are modelled by their targets and their completion report:
 * while an animation runs the offset keeps its value from the release, and
 * when the animation reports it finished the offset is at the target. The
 * phase records which animation, if any, is running.
 */
module TaskCard {
  import opened Tasks

  /** The release distance at or past which a card is deleted: 30% of the
      screen width. */
  function Threshold(width: real): (t: real)
    requires width > 0.0
    ensures 0.0 < t < width
    ensures 10.0 * t == 3.0 * width
  {
    width * 0.3
  }

  /** The release decision: the translation is at or past minus the
      threshold. */
  predicate ShouldDelete(width: real, translationX: real)
    requires width > 0.0
    ensures translationX >= 0.0 ==> !ShouldDelete(width, translationX)
    ensures translationX <= -width ==> ShouldDelete(width, translationX)
  {
    translationX <= -Threshold(width)
  }

  datatype Phase =
    | Idle             // at rest, no animation running
    | Dragging         // the last pan update moved the card
    | ExitingToDelete  // released past the threshold, sliding off screen
    | Returning        // released short of the threshold, sliding back
    | Deleted          // the exit finished and the task was deleted

  datatype Card = Card(offset: real, phase: Phase)

  /** What reaches the card: pan updates and the pan release carry the
      gesture's total horizontal translation; an animation reports whether
      it reached its target or was cut short. An animation is cut short only
      by a later assignment to the offset (a moving pan update or another
      release), and its report arrives after that assignment. */
  datatype Event =
    | PanUpdate(translationX: real)
    | PanEnd(translationX: real)
    | AnimationEnd(finished: bool)

  /** The card after one event, and whether the task's delete callback ran. */
  datatype Transition = Transition(card: Card, deleteFired: bool)

  /** A freshly mounted card: offset 0, nothing running. */
  const Initial := Card(0.0, Idle)

  /** The card never sits to the right of its resting place, and a deleted
      card is a full screen width to the left. */
  predicate Placed(width: real, c: Card) {
    c.offset <= 0.0 && (c.phase == Deleted ==> c.offset == -width)
  }

  /** One event. A negative pan update moves the card there (and cuts short
      any running animation); a non-negative one is ignored. A release keeps
      the offset and starts the exit or the return animation, replacing any
      running one. A finished exit lands the card off screen and deletes the
      task; a finished return lands it at 0. The report of a cut-short
      animation belongs to an animation already replaced, so it changes
      nothing. A deleted card no longer reacts. */
  function Step(width: real, c: Card, e: Event): (t: Transition)
    requires width > 0.0
    ensures Placed(width, c) ==> Placed(width, t.card)
    ensures t.deleteFired <==> c.phase == ExitingToDelete && e == AnimationEnd(true)
    ensures t.card.phase == Deleted <==> c.phase == Deleted || t.deleteFired
    ensures e.PanUpdate? && c.phase != Deleted ==>
      t.card.offset == (if e.translationX < 0.0 then e.translationX else c.offset)
    ensures e.PanEnd? && c.phase != Deleted ==>
      t.card.offset == c.offset
      && (t.card.phase == ExitingToDelete <==> e.translationX <= -Threshold(width))
      && (t.card.phase != ExitingToDelete ==> t.card.phase == Returning)
    ensures c.phase == Deleted ==> t.card == c
    ensures e == AnimationEnd(false) ==> t == Transition(c, false)
  {
    if c.phase == Deleted then Transition(c, false)
    else match e
      case PanUpdate(tx) =>
        Transition(if tx < 0.0 then Card(tx, Dragging) else c, false)
      case PanEnd(tx) =>
        Transition(Card(c.offset, if ShouldDelete(width, tx) then ExitingToDelete else Returning), false)
      case AnimationEnd(finished) =>
        if !finished then Transition(c, false)
        else if c.phase == ExitingToDelete then Transition(Card(-width, Deleted), true)
        else if c.phase == Returning then Transition(Card(0.0, Idle), false)
        else Transition(c, false)
  }

  /** The card after a whole trace of events. */
  function Run(width: real, c: Card, es: seq<Event>): Card
    requires width > 0.0
  {
    if es == [] then c else Step(width, Run(width, c, es[..|es| - 1]), es[|es| - 1]).card
  }

  /** The event at position `k` of the trace ran the delete callback. */
  predicate FiredAt(width: real, c: Card, es: seq<Event>, k: int)
    requires width > 0.0
  {
    0 <= k < |es| && Step(width, Run(width, c, es[..k]), es[k]).deleteFired
  }

  /** How many times the trace ran the delete callback. */
  function DeleteCount(width: real, c: Card, es: seq<Event>): nat
    requires width > 0.0
  {
    if es == [] then 0
    else
      var n := |es| - 1;
      DeleteCount(width, c, es[..n]) + (if FiredAt(width, c, es, n) then 1 else 0)
  }

  /** No trace moves a card right of its resting place, from a placed
      start; in particular not from a freshly mounted card. */
  lemma {:induction false} RunKeepsPlaced(width: real, c: Card, es: seq<Event>)
    requires width > 0.0 && Placed(width, c)
    ensures Placed(width, Run(width, c, es))
    ensures Run(width, c, es).offset <= 0.0
  {
    if es != [] {
      RunKeepsPlaced(width, c, es[..|es| - 1]);
    }
  }

  /** The delete callback runs at most once, and exactly once when the
      trace takes a live card to the deleted phase; a deleted card stays
      as it is. */
  lemma {:induction false} DeleteAtMostOnce(width: real, c: Card, es: seq<Event>)
    requires width > 0.0
    ensures DeleteCount(width, c, es) == (if c.phase != Deleted && Run(width, c, es).phase == Deleted then 1 else 0)
    ensures DeleteCount(width, c, es) <= 1
    ensures c.phase == Deleted ==> Run(width, c, es) == c
  {
    if es != [] {
      var n := |es| - 1;
      DeleteAtMostOnce(width, c, es[..n]);
      assert Run(width, c, es) == Step(width, Run(width, c, es[..n]), es[n]).card;
    }
  }

  /** Event `j` released past the threshold and every later event before
      `k` was a pan update that did not move the card or the report of an
      animation already cut short: the exit animation started at `j` is
      still running at `k`. */
  predicate CommittedAt(width: real, es: seq<Event>, j: int, k: int)
    requires width > 0.0
  {
    0 <= j < k <= |es| && es[j].PanEnd? && ShouldDelete(width, es[j].translationX)
    && forall m :: j < m < k ==>
         (es[m].PanUpdate? && es[m].translationX >= 0.0) || es[m] == AnimationEnd(false)
  }

  /** A card is exiting only because of a release past the threshold that
      nothing has cut short since. */
  lemma {:induction false} ExitingHasCause(width: real, c: Card, es: seq<Event>)
    requires width > 0.0 && c.phase != ExitingToDelete
    requires Run(width, c, es).phase == ExitingToDelete
    ensures exists j :: CommittedAt(width, es, j, |es|)
  {
    var n := |es| - 1;
    var prev := Run(width, c, es[..n]);
    if es[n].PanEnd? {
      assert CommittedAt(width, es, n, |es|);
    } else {
      assert (es[n].PanUpdate? && es[n].translationX >= 0.0) || es[n] == AnimationEnd(false);
      assert prev.phase == ExitingToDelete;
      ExitingHasCause(width, c, es[..n]);
      var j :| CommittedAt(width, es[..n], j, n);
      assert CommittedAt(width, es, j, |es|);
    }
  }

  /** The delete callback runs only when an exit animation reports it
      finished, and that exit was started by a release past the threshold
      that no later drag or release cut short. */
  lemma DeleteOnlyAfterCommittedExit(width: real, c: Card, es: seq<Event>, k: int)
    requires width > 0.0 && c.phase != ExitingToDelete
    requires FiredAt(width, c, es, k)
    ensures es[k] == AnimationEnd(true)
    ensures exists j :: CommittedAt(width, es, j, k)
  {
    var prefix := es[..k];
    ExitingHasCause(width, c, prefix);
    var j :| CommittedAt(width, prefix, j, k);
    assert CommittedAt(width, es, j, k);
  }

  /** A release followed by its animation running to completion: past the
      threshold the card ends a screen width to the left, deleted, with one
      delete; short of it the card is back at 0 and nothing is deleted. The
      late report of an animation the release replaced changes nothing. */
  lemma ReleaseOutcome(width: real, c: Card, tx: real, finished: bool)
    requires width > 0.0 && c.phase != Deleted
    ensures var t := Step(width, Step(width, c, PanEnd(tx)).card, AnimationEnd(finished));
      && (finished && tx <= -Threshold(width) ==> t == Transition(Card(-width, Deleted), true))
      && (finished && tx > -Threshold(width) ==> t == Transition(Card(0.0, Idle), false))
      && (!finished ==> t == Transition(Step(width, c, PanEnd(tx)).card, false))
  {
  }

  /** A second release replaces the first one's animation, whose late
      report is ignored: the second release alone decides the outcome. */
  lemma {:induction false} SecondReleaseDecides(width: real, c: Card, tx1: real, tx2: real)
    requires width > 0.0 && c.phase != Deleted
    ensures var es := [PanEnd(tx1), PanEnd(tx2), AnimationEnd(false), AnimationEnd(true)];
      && Run(width, c, es) == (if ShouldDelete(width, tx2) then Card(-width, Deleted) else Card(0.0, Idle))
      && DeleteCount(width, c, es) == (if ShouldDelete(width, tx2) then 1 else 0)
  {
    var es := [PanEnd(tx1), PanEnd(tx2), AnimationEnd(false), AnimationEnd(true)];
    var c1 := Step(width, c, es[0]).card;
    var c2 := Step(width, c1, es[1]).card;
    var c3 := Step(width, c2, es[2]).card;
    assert Run(width, c, es[..1]) == c1 by {
      assert es[..1][..0] == [];
    }
    assert Run(width, c, es[..2]) == c2 by {
      assert es[..2][..1] == es[..1];
    }
    assert Run(width, c, es[..3]) == c3 by {
      assert es[..3][..2] == es[..2];
    }
    assert Run(width, c, es) == Step(width, c3, es[3]).card;
    DeleteAtMostOnce(width, c, es);
  }

  /** A leftward drag during an exit cuts it short: whatever the exit later
      reports, the task is not deleted and the card stays where it was
      dragged. */
  lemma DragCancelsExit(width: real, c: Card, tx: real, drag: real, finished: bool)
    requires width > 0.0 && c.phase != Deleted && drag < 0.0
    ensures var exiting := Step(width, c, PanEnd(tx)).card;
      var dragged := Step(width, exiting, PanUpdate(drag)).card;
      Step(width, dragged, AnimationEnd(finished)) == Transition(Card(drag, Dragging), false)
  {
  }

  /** The translation the card is drawn at: never right of its resting
      place, and a full screen width to the left once deleted. */
  function TranslateX(width: real, c: Card): (x: real)
    ensures Placed(width, c) ==> x <= 0.0
    ensures Placed(width, c) && c.phase == Deleted ==> x == -width
  {
    c.offset
  }

  /** The opacity the delete icon animates towards: full once the card is
      at or past the threshold, faint otherwise. */
  function DeleteOpacityTarget(width: real, offset: real): (o: real)
    requires width > 0.0
    ensures o == 1.0 || o == 0.1
    ensures offset >= 0.0 ==> o == 0.1
    ensures offset <= -width ==> o == 1.0
  {
    if offset <= -Threshold(width) then 1.0 else 0.1
  }

  /** For any live card, the icon heads for full opacity exactly when a
      release with the card where it is would delete; a card at rest shows
      the faint icon. */
  lemma OpacityMatchesRelease(width: real, c: Card)
    requires width > 0.0 && c.phase != Deleted
    ensures DeleteOpacityTarget(width, TranslateX(width, c)) == 1.0
      <==> Step(width, c, PanEnd(c.offset)).card.phase == ExitingToDelete
    ensures c.offset == 0.0 ==> DeleteOpacityTarget(width, TranslateX(width, c)) == 0.1
  {
  }

  /** The icon's full opacity is an honest cue: after a drag to `tx`, the
      icon heads for full opacity exactly when releasing there deletes. */
  lemma OpacityAnnouncesDelete(width: real, c: Card, tx: real)
    requires width > 0.0 && c.phase != Deleted && tx < 0.0
    ensures var dragged := Step(width, c, PanUpdate(tx)).card;
      DeleteOpacityTarget(width, TranslateX(width, dragged)) == 1.0
      <==> Step(width, dragged, PanEnd(tx)).card.phase == ExitingToDelete
  {
  }

  /** The text lines of a card: the title, then the description only when
      it is not empty. */
  function VisibleLines(t: Task): (lines: seq<string>)
    ensures 1 <= |lines| <= 2 && lines[0] == t.title
    ensures |lines| == 2 <==> t.description != ""
    ensures |lines| == 2 ==> lines[1] == t.description
  {
    if t.description != "" then [t.title, t.description] else [t.title]
  }

  /** A mounted card. The width is fixed at mount; the offset and the phase
      change as the gesture and the animation callbacks arrive. */
  class SwipeCard {
    const screenWidth: real
    var translationX: real
    var phase: Phase

    function State(): Card
      reads this
    {
      Card(translationX, phase)
    }

    predicate Valid()
      reads this
    {
      screenWidth > 0.0 && Placed(screenWidth, State())
    }

    constructor(width: real)
      requires width > 0.0
      ensures screenWidth == width && State() == Initial && Valid()
    {
      screenWidth := width;
      translationX := 0.0;
      phase := Idle;
    }

    /** The pan update callback: only a leftward translation is applied. */
    method OnUpdate(tx: real)
      requires Valid()
      modifies this
      ensures Valid()
      ensures State() == Step(screenWidth, old(State()), PanUpdate(tx)).card
    {
      if phase != Deleted && tx < 0.0 {
        translationX := tx;
        phase := Dragging;
      }
    }

    /** The pan release callback: start the exit or the return animation. */
    method OnEnd(tx: real)
      requires Valid()
      modifies this
      ensures Valid()
      ensures State() == Step(screenWidth, old(State()), PanEnd(tx)).card
    {
      if phase != Deleted {
        var shouldDelete := tx <= -Threshold(screenWidth);
        if shouldDelete {
          phase := ExitingToDelete;
        } else {
          phase := Returning;
        }
      }
    }

    /** The running animation reports completion; `deleteFired` tells
        whether the task's delete callback runs. */
    method OnAnimationEnd(finished: bool) returns (deleteFired: bool)
      requires Valid()
      modifies this
      ensures Valid()
      ensures Transition(State(), deleteFired) == Step(screenWidth, old(State()), AnimationEnd(finished))
    {
      deleteFired := false;
      if finished {
        if phase == ExitingToDelete {
          translationX := -screenWidth;
          phase := Deleted;
          deleteFired := true;
        } else if phase == Returning {
          translationX := 0.0;
          phase := Idle;
        }
      }
    }
  }
}
