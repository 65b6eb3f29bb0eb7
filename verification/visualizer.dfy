/**
 The Story Visualizer page as an explicit state record with pure transitions:
 the transcript update, the guarded start of an image generation, its
 completion (service image or placeholder), the prev/next buttons, the
 thumbnail strip, the clear button, and the effect that shows the history
 entry under the cursor.
 */
module Visualizer {
  import opened Strings
  import opened Themes
  import opened RemoteErrors
  import opened Transcript

  /** The image shown before anything was generated and after a clear. */
  const Placeholder: string := "https://placehold.co/400x400"

  /** Minimum time between two accepted generation requests, in milliseconds. */
  const CooldownMs: int := 60000

  /** How many trailing characters of the story go into the prompt. */
  const ExcerptLength: nat := 200

  const PromptPreamble: string := "Generate a beautiful, artistic image based on this story excerpt: "

  /** The transient status line: a cooldown wait, or why the service failed. */
  datatype Notice = NoNotice | WaitSeconds(seconds: int) | ServiceNotice(kind: ErrorKind)

  datatype State = State(
    text: string,
    imageUrl: string,
    isLoading: bool,
    history: seq<string>,
    cursor: int,
    usingFallback: bool,
    lastGenerationTime: int,
    notice: Notice)

  /** The state when the page is first shown. */
  const Initial: State := State("", Placeholder, false, [], -1, false, 0, NoNotice)

  /** The history invariant: the cursor is -1 exactly when the history is
      empty and otherwise indexes it, and the image shown is the entry under
      the cursor, or the placeholder when there is none. */
  predicate Valid(s: State) {
    && -1 <= s.cursor < |s.history|
    && (s.cursor == -1 <==> s.history == [])
    && (s.cursor >= 0 ==> s.imageUrl == s.history[s.cursor])
    && (s.history == [] ==> s.imageUrl == Placeholder)
  }

  lemma InitialIsValid()
    ensures Valid(Initial) && !Initial.isLoading && Initial.lastGenerationTime == 0
  {
  }

  /** The effect that runs when the cursor or the history changes: an
      in-range cursor puts its entry on display; otherwise nothing changes. */
  function ShowCurrent(s: State): (r: State)
    ensures r.(imageUrl := s.imageUrl) == s
    ensures 0 <= s.cursor < |s.history| ==> r.imageUrl == s.history[s.cursor]
    ensures !(0 <= s.cursor < |s.history|) ==> r == s
  {
    if 0 <= s.cursor < |s.history| then s.(imageUrl := s.history[s.cursor]) else s
  }

  // ---------------------------------------------------------------------------
  // Speech recognition

  /** A recognition event replaces the story with the joined best transcripts. */
  function OnResult(s: State, results: seq<RecognitionResult>): (r: State)
    ensures r.text == JoinBest(results)
    ensures r.(text := s.text) == s
    ensures Valid(s) ==> Valid(r)
  {
    s.(text := JoinBest(results))
  }

  /** The story after an event does not depend on the story before it, so of
      two events in a row only the later one is visible. */
  lemma OnResultReplaces(s: State, first: seq<RecognitionResult>, second: seq<RecognitionResult>)
    ensures OnResult(OnResult(s, first), second) == OnResult(s, second)
    ensures forall t: State :: OnResult(t, second).text == OnResult(s, second).text
  {
  }

  // ---------------------------------------------------------------------------
  // Starting a generation

  function Min(a: int, b: int): int {
    if a <= b then a else b
  }

  /** `text.slice(-200)`: the last 200 characters, or all of a shorter text. */
  function Excerpt(text: string): (e: string)
    ensures |e| == Min(ExcerptLength, |text|)
    ensures text == text[..|text| - |e|] + e
  {
    text[|text| - Min(ExcerptLength, |text|)..]
  }

  /** The instruction sent to the image service. */
  function Prompt(text: string): (p: string)
    ensures |p| == |PromptPreamble| + Min(ExcerptLength, |text|)
    ensures p[..|PromptPreamble|] == PromptPreamble
    ensures p[|PromptPreamble|..] == Excerpt(text)
  {
    PromptPreamble + Excerpt(text)
  }

  /** `Math.ceil((60000 - elapsed) / 1000)`: the whole seconds still to wait,
      rounded up; within the window it is between 1 and 60. */
  function RemainingSeconds(elapsed: int): (secs: int)
    requires elapsed < CooldownMs
    ensures (secs - 1) * 1000 < CooldownMs - elapsed <= secs * 1000
    ensures 0 <= elapsed ==> 1 <= secs <= 60
  {
    (CooldownMs - elapsed + 999) / 1000
  }

  /** What an accepted request hands to the service: the story as it was when
      the button was pressed, and the prompt built from it. */
  datatype Job = Job(story: string, prompt: string)

  datatype Rejection = EmptyInput | CoolingDown(remainingSeconds: int)

  datatype RequestResult =
    | Rejected(why: Rejection, state: State)
    | Accepted(state: State, job: Job)

  /** The part of the generate handler before the service call. A blank story
      is refused with nothing changed; a request within 60 s of the last
      accepted one is refused with the seconds left; otherwise the page goes
      into loading and the cooldown clock restarts at `now`, before the outcome
      is known. The button is disabled while loading, so a request never
      starts while another is in flight. */
  function Request(s: State, now: int): (r: RequestResult)
    requires !s.isLoading
    ensures IsBlank(s.text) ==> r == Rejected(EmptyInput, s)
    ensures r.Accepted? <==> !IsBlank(s.text) && now - s.lastGenerationTime >= CooldownMs
    ensures !IsBlank(s.text) && now - s.lastGenerationTime < CooldownMs ==>
      var secs := RemainingSeconds(now - s.lastGenerationTime);
      r == Rejected(CoolingDown(secs), s.(notice := WaitSeconds(secs)))
    ensures r.Rejected? && r.why.CoolingDown? ==>
      var elapsed := now - s.lastGenerationTime;
      && elapsed < CooldownMs
      && r.why.remainingSeconds == RemainingSeconds(elapsed)
      && r.state.notice == WaitSeconds(r.why.remainingSeconds)
      && (0 <= elapsed ==> 1 <= r.why.remainingSeconds <= 60)
    ensures r.Rejected? ==>
      && r.state.(notice := s.notice) == s
      && !r.state.isLoading
    ensures r.Accepted? ==>
      && r.state.isLoading
      && r.state.lastGenerationTime == now
      && r.state.notice == NoNotice
      && r.state.(isLoading := false, lastGenerationTime := s.lastGenerationTime, notice := s.notice) == s
      && r.job.story == s.text
      && r.job.prompt == PromptPreamble + Excerpt(s.text)
  {
    if IsBlank(s.text) then
      Rejected(EmptyInput, s)
    else
      var elapsed := now - s.lastGenerationTime;
      if elapsed < CooldownMs then
        var secs := RemainingSeconds(elapsed);
        Rejected(CoolingDown(secs), s.(notice := WaitSeconds(secs)))
      else
        Accepted(s.(isLoading := true, notice := NoNotice, lastGenerationTime := now),
                 Job(s.text, Prompt(s.text)))
  }

  // ---------------------------------------------------------------------------
  // Completing a generation

  /** How the service call ended: never attempted because no API key is
      configured, an image address, or a thrown error. */
  datatype Outcome = NotConfigured | Generated(url: string) | Failed(error: RemoteError)

  /** The image a completion adds: the service's address on success, otherwise
      a placeholder for the job's story drawn at time `stamp` with random `draw`. */
  function ResultUrl(job: Job, outcome: Outcome, stamp: int, draw: Fraction): string {
    if outcome.Generated? then outcome.url else FallbackImage(job.story, stamp, draw)
  }

  /** The end of the generate handler, as written: the new image is appended,
      the cursor moves one step forward from wherever it is now, loading ends,
      the fallback flag tells which path produced the image, and a failure
      puts the classified error on the status line. */
  function Complete(s: State, job: Job, outcome: Outcome, stamp: int, draw: Fraction): (r: State)
    ensures |r.history| == |s.history| + 1
    ensures r.history[..|s.history|] == s.history
    ensures outcome.Generated? ==> r.history[|s.history|] == outcome.url
    ensures !outcome.Generated? ==>
      exists w :: w in Words(ChooseTheme(job.story).theme) && r.history[|s.history|] == FallbackUrl(stamp, w)
    ensures r.cursor == s.cursor + 1
    ensures !r.isLoading
    ensures r.usingFallback <==> !outcome.Generated?
    ensures outcome.Failed? ==> r.notice == ServiceNotice(ClassifyError(outcome.error))
    ensures !outcome.Failed? ==> r.notice == s.notice
    ensures r.text == s.text && r.lastGenerationTime == s.lastGenerationTime
    ensures Valid(s) ==> Valid(r)
  {
    var url := ResultUrl(job, outcome, stamp, draw);
    var notice := if outcome.Failed? then ServiceNotice(ClassifyError(outcome.error)) else s.notice;
    ShowCurrent(s.(imageUrl := url, history := s.history + [url], cursor := s.cursor + 1,
                   usingFallback := !outcome.Generated?, isLoading := false, notice := notice))
  }

  /** After stepping back through the history and generating again, the page
      shows the entry after the one that was on display, not the new image. */
  lemma CompleteAfterGoingBack()
    ensures
      var s := State("a dragon", "a.png", true, ["a.png", "b.png", "c.png"], 0, false, 0, NoNotice);
      var r := Complete(s, Job("a dragon", Prompt("a dragon")), Generated("d.png"), 0, 0.0);
      Valid(s) && Valid(r) && r.history[3] == "d.png" && r.imageUrl == "b.png"
  {
  }

  /** The completion the handler evidently means: it sets the displayed image
      to the new one before moving the cursor, so the cursor belongs on the new
      last entry, where the history effect keeps that image on display. */
  function CompleteAtEnd(s: State, job: Job, outcome: Outcome, stamp: int, draw: Fraction): (r: State)
    ensures r.history == s.history + [ResultUrl(job, outcome, stamp, draw)]
    ensures r.cursor == |r.history| - 1
    ensures r.imageUrl == ResultUrl(job, outcome, stamp, draw)
    ensures Valid(r)
    ensures !r.isLoading && (r.usingFallback <==> !outcome.Generated?)
  {
    var url := ResultUrl(job, outcome, stamp, draw);
    var notice := if outcome.Failed? then ServiceNotice(ClassifyError(outcome.error)) else s.notice;
    ShowCurrent(s.(imageUrl := url, history := s.history + [url], cursor := |s.history|,
                   usingFallback := !outcome.Generated?, isLoading := false, notice := notice))
  }

  /** The two completions agree whenever the newest image was on display. */
  lemma CompleteAgreesAtEnd(s: State, job: Job, outcome: Outcome, stamp: int, draw: Fraction)
    requires s.cursor == |s.history| - 1
    ensures Complete(s, job, outcome, stamp, draw) == CompleteAtEnd(s, job, outcome, stamp, draw)
  {
  }

  /** A second request less than 60 s after an accepted one is refused, whether the
      first one produced a service image or fell back, and even after a clear;
      unless the story is blank, the refusal carries the seconds left. */
  lemma SecondRequestRefused(s: State, now: int, later: int, outcome: Outcome, stamp: int,
                             draw: Fraction, cleared: bool)
    requires !s.isLoading && Request(s, now).Accepted?
    requires later < now + CooldownMs
    ensures
      var first := Request(s, now);
      var done := Complete(first.state, first.job, outcome, stamp, draw);
      var page := if cleared then Clear(done) else done;
      var second := Request(page, later);
      && second.Rejected?
      && second.state.history == page.history
      && (!IsBlank(page.text) ==> second.why == CoolingDown(RemainingSeconds(later - now)))
  {
    var first := Request(s, now);
    assert first.state.lastGenerationTime == now;
    var done := Complete(first.state, first.job, outcome, stamp, draw);
    assert done.lastGenerationTime == now && !done.isLoading;
    var page := if cleared then Clear(done) else done;
    assert page.lastGenerationTime == now && !page.isLoading;
  }

  datatype Completion = Completion(job: Job, outcome: Outcome, stamp: int, draw: Fraction)

  /** A run of completions, one after another. */
  function CompleteAll(s: State, cs: seq<Completion>): State
    decreases |cs|
  {
    if cs == [] then s
    else
      var c := cs[|cs| - 1];
      Complete(CompleteAll(s, cs[..|cs| - 1]), c.job, c.outcome, c.stamp, c.draw)
  }

  /** Every completion adds exactly one entry and one cursor step, so from a
      cleared page N completions leave N entries with the cursor on the last. */
  lemma {:induction false} CompleteAllCounts(s: State, cs: seq<Completion>)
    ensures |CompleteAll(s, cs).history| == |s.history| + |cs|
    ensures CompleteAll(s, cs).history[..|s.history|] == s.history
    ensures CompleteAll(s, cs).cursor == s.cursor + |cs|
    ensures s.history == [] && s.cursor == -1 ==>
      |CompleteAll(s, cs).history| == |cs| && CompleteAll(s, cs).cursor == |cs| - 1
    ensures Valid(s) ==> Valid(CompleteAll(s, cs))
    decreases |cs|
  {
    if cs != [] {
      CompleteAllCounts(s, cs[..|cs| - 1]);
      var before := CompleteAll(s, cs[..|cs| - 1]);
      var after := CompleteAll(s, cs);
      assert after.history[..|before.history|] == before.history;
      assert after.history[..|s.history|] == before.history[..|s.history|];
    }
  }

  // ---------------------------------------------------------------------------
  // Browsing the history

  datatype Direction = Prev | Next

  /** The prev/next buttons: a step that would leave the history is ignored;
      otherwise the cursor moves by one and its entry is shown. */
  function Navigate(s: State, d: Direction): (r: State)
    ensures r.(cursor := s.cursor, imageUrl := s.imageUrl) == s
    ensures d == Prev && s.cursor <= 0 ==> r == s
    ensures d == Next && s.cursor >= |s.history| - 1 ==> r == s
    ensures d == Prev && s.cursor > 0 ==> r.cursor == s.cursor - 1
    ensures d == Next && s.cursor < |s.history| - 1 ==> r.cursor == s.cursor + 1
    ensures Valid(s) ==> Valid(r)
  {
    if d == Prev && s.cursor > 0 then ShowCurrent(s.(cursor := s.cursor - 1))
    else if d == Next && s.cursor < |s.history| - 1 then ShowCurrent(s.(cursor := s.cursor + 1))
    else s
  }

  /** A thumbnail click: the cursor goes to the clicked entry, which is shown.
      Clicking the entry already under the cursor changes nothing. */
  function Select(s: State, index: int): (r: State)
    requires 0 <= index < |s.history|
    ensures r.cursor == index
    ensures r.(cursor := s.cursor, imageUrl := s.imageUrl) == s
    ensures index != s.cursor ==> r.imageUrl == s.history[index]
    ensures Valid(s) ==> Valid(r) && r.imageUrl == s.history[index]
  {
    if index == s.cursor then s else ShowCurrent(s.(cursor := index))
  }

  /** Stepping forward and then back returns to the same page. */
  lemma NextThenPrev(s: State)
    requires Valid(s) && 0 <= s.cursor < |s.history| - 1
    ensures Navigate(Navigate(s, Next), Prev) == s
  {
  }

  /** A step that moves is the same as clicking the neighbouring thumbnail. */
  lemma NavigateIsSelectNeighbour(s: State, d: Direction)
    requires Valid(s)
    ensures d == Prev && s.cursor > 0 ==> Navigate(s, d) == Select(s, s.cursor - 1)
    ensures d == Next && s.cursor < |s.history| - 1 ==> Navigate(s, d) == Select(s, s.cursor + 1)
  {
  }

  // ---------------------------------------------------------------------------
  // Clearing

  /** The clear button empties the story and the history and restores the
      placeholder. It leaves the loading flag and the cooldown clock alone, so
      the cooldown survives a clear and an in-flight generation still lands. */
  function Clear(s: State): (r: State)
    ensures r.text == "" && r.history == [] && r.cursor == -1 && !r.usingFallback
    ensures r.imageUrl == Placeholder
    ensures r.isLoading == s.isLoading && r.lastGenerationTime == s.lastGenerationTime
    ensures r.notice == s.notice
    ensures Valid(r)
  {
    s.(text := "", imageUrl := Placeholder, history := [], cursor := -1, usingFallback := false)
  }
}
