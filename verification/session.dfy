/**
 The page over time: every user action, recognition event and service answer
 is an event, and a session is the page state together with the generation
 job in flight, if any. The trace lemmas state what holds after any sequence
 of events.
 */
module Session {
  import opened Optional
  import opened Themes
  import opened Transcript
  import opened Visualizer

  datatype Session = Session(view: State, pending: Option<Job>)

  datatype Event =
    | Heard(results: seq<RecognitionResult>)             // a recognition event
    | Click(now: int)                                    // the generate button, at clock reading `now`
    | Finish(outcome: Outcome, stamp: int, draw: Fraction) // the job in flight ends
    | Go(direction: Direction)                           // the prev or next button
    | Pick(index: int)                                   // a thumbnail
    | ClearAll                                           // the clear button
    | Expire                                             // the status line's timer runs out

  const Start: Session := Session(Initial, None)

  /** The single-flight invariant on top of the history invariant: the page
      is loading exactly when a job is in flight. */
  predicate Consistent(p: Session) {
    Valid(p.view) && (p.view.isLoading <==> p.pending.Some?)
  }

  /** One event. A click while loading hits a disabled button and does
      nothing; a finish with no job in flight and a click on a thumbnail that
      does not exist cannot happen and change nothing. */
  function Step(p: Session, e: Event): (q: Session)
    ensures e.Click? && p.view.isLoading ==> q == p
    ensures e.Pick? && !(0 <= e.index < |p.view.history|) ==> q == p
    ensures e.Pick? && 0 <= e.index < |p.view.history| ==> q.view.cursor == e.index
    ensures e.Finish? && p.pending.None? ==> q == p
    ensures q.pending.Some? && q.pending != p.pending ==> e.Click? && !p.view.isLoading
    ensures q.view.lastGenerationTime != p.view.lastGenerationTime ==>
      e.Click? && q.view.lastGenerationTime == e.now && q.pending.Some?
    ensures !e.Heard? && !e.ClearAll? ==> q.view.text == p.view.text
  {
    match e
    case Heard(results) => p.(view := OnResult(p.view, results))
    case Click(now) =>
      if p.view.isLoading then p
      else (
        match Request(p.view, now)
        case Rejected(_, v) => p.(view := v)
        case Accepted(v, job) => Session(v, Some(job)))
    case Finish(outcome, stamp, draw) =>
      if p.pending.None? then p
      else Session(Complete(p.view, p.pending.value, outcome, stamp, draw), None)
    case Go(d) => p.(view := Navigate(p.view, d))
    case Pick(i) => if 0 <= i < |p.view.history| then p.(view := Select(p.view, i)) else p
    case ClearAll => p.(view := Clear(p.view))
    case Expire => p.(view := p.view.(notice := NoNotice))
  }

  /** The events in order, the last one applied last. */
  function Run(p: Session, es: seq<Event>): Session
    decreases |es|
  {
    if es == [] then p else Step(Run(p, es[..|es| - 1]), es[|es| - 1])
  }

  lemma StepKeepsConsistent(p: Session, e: Event)
    requires Consistent(p)
    ensures Consistent(Step(p, e))
  {
  }

  lemma {:induction false} AlwaysConsistentFrom(p: Session, es: seq<Event>)
    requires Consistent(p)
    ensures Consistent(Run(p, es))
    decreases |es|
  {
    if es != [] {
      AlwaysConsistentFrom(p, es[..|es| - 1]);
      StepKeepsConsistent(Run(p, es[..|es| - 1]), es[|es| - 1]);
    }
  }

  /** From the first render on, whatever happens, the cursor stays within the
      history, is -1 exactly when the history is empty, the image on display
      is the entry under the cursor, and the page is loading exactly when one
      job is in flight. */
  lemma AlwaysConsistent(es: seq<Event>)
    ensures Consistent(Run(Start, es))
  {
    InitialIsValid();
    AlwaysConsistentFrom(Start, es);
  }

  /** All clicks of the trace come less than 60 s after the clock reading `since`
      (or before it, when the clock went back). */
  predicate ClicksWithin(es: seq<Event>, since: int) {
    forall i :: 0 <= i < |es| && es[i].Click? ==> es[i].now < since + CooldownMs
  }

  /** The cooldown holds however the first generation ended: once a request
      was accepted at time `since`, every click in the next 60 s is refused,
      whether the job succeeded, fell back, is still running, or the page was
      cleared, so the clock is not restarted and no new job is started. */
  lemma {:induction false} CooldownHolds(p: Session, es: seq<Event>)
    requires ClicksWithin(es, p.view.lastGenerationTime)
    ensures Run(p, es).view.lastGenerationTime == p.view.lastGenerationTime
    ensures Run(p, es).pending.Some? ==> Run(p, es).pending == p.pending
    decreases |es|
  {
    if es != [] {
      var before := es[..|es| - 1];
      assert ClicksWithin(before, p.view.lastGenerationTime) by {
        forall i | 0 <= i < |before| && before[i].Click?
          ensures before[i].now < p.view.lastGenerationTime + CooldownMs
        {
          assert before[i] == es[i];
        }
      }
      CooldownHolds(p, before);
    }
  }

  lemma StepExtendsHistory(p: Session, e: Event)
    requires !e.ClearAll?
    ensures |p.view.history| <= |Step(p, e).view.history|
    ensures Step(p, e).view.history[..|p.view.history|] == p.view.history
  {
  }

  /** Without the clear button the history only grows at its end. */
  lemma {:induction false} HistoryOnlyGrows(p: Session, es: seq<Event>)
    requires forall i :: 0 <= i < |es| ==> !es[i].ClearAll?
    ensures |p.view.history| <= |Run(p, es).view.history|
    ensures Run(p, es).view.history[..|p.view.history|] == p.view.history
    decreases |es|
  {
    if es != [] {
      var before := es[..|es| - 1];
      HistoryOnlyGrows(p, before);
      var q := Run(p, before);
      StepExtendsHistory(q, es[|es| - 1]);
      var h := Run(p, es).view.history;
      assert h[..|q.view.history|] == q.view.history;
      assert h[..|p.view.history|] == q.view.history[..|p.view.history|];
    }
  }

  /** The cursor sits on the newest image. */
  predicate AtNewest(s: State) {
    s.cursor == |s.history| - 1
  }

  lemma StepKeepsNewest(p: Session, e: Event)
    requires Consistent(p) && AtNewest(p.view)
    requires e != Go(Prev) && !e.Pick?
    ensures AtNewest(Step(p, e).view)
  {
  }

  /** As long as nobody steps back or picks a thumbnail, the cursor stays on
      the newest image and the newest image is the one on display, so every
      completion shows the image it just produced. */
  lemma {:induction false} NewestStaysOnDisplay(p: Session, es: seq<Event>)
    requires Consistent(p) && AtNewest(p.view)
    requires forall i :: 0 <= i < |es| ==> es[i] != Go(Prev) && !es[i].Pick?
    ensures AtNewest(Run(p, es).view)
    ensures Run(p, es).view.history != [] ==>
      Run(p, es).view.imageUrl == Run(p, es).view.history[|Run(p, es).view.history| - 1]
    decreases |es|
  {
    AlwaysConsistentFrom(p, es);
    if es != [] {
      var before := es[..|es| - 1];
      assert forall i :: 0 <= i < |before| ==> before[i] == es[i];
      NewestStaysOnDisplay(p, before);
      AlwaysConsistentFrom(p, before);
      StepKeepsNewest(Run(p, before), es[|es| - 1]);
    }
  }
}
