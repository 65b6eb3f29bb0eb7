# Story Visualizer — a Dafny model of the page logic

Story Visualizer is a single-page React application. The user dictates a story
through the browser's speech recognition and presses a button. The page then
asks an image service (DALL·E 3) for a picture of the story's last 200
characters. When no API key is configured, or the call fails, it builds a
themed placeholder address on picsum.photos instead. Every picture goes into a
history that the user can browse with prev/next buttons and a thumbnail strip.
Two generations must be at least 60 seconds apart, and a clear button resets
the story and the history.

The model replaces the component's React state hooks with one immutable
`State` record (`Visualizer.State`). Each handler becomes a pure function from
state to state:

- `strings.dfy` (`Strings`): the JavaScript string operations the component
  relies on. These are `trim` (ECMAScript white space and line terminators),
  `toLowerCase`, `includes`, and the decimal rendering of `Date.now()`.
- `themes.dfy` (`Themes`): the placeholder generator. It is a keyword cascade
  that picks a theme and a colour, a random word from the theme's list, and
  the picsum URL.
- `remote_errors.dfy` (`RemoteErrors`): the classification of a failed
  service call into billing limit, quota, rate limit or other failure.
- `transcript.dfy` (`Transcript`): the speech `onresult` handler, which joins
  the best alternatives of all results.
- `visualizer.dfy` (`Visualizer`): the page state and its transitions:
  - the rate-limited request;
  - the completion, with the service image or the placeholder;
  - prev/next and the thumbnails;
  - clear;
  - the effect that puts the history entry under the cursor on display.
- `session.dfy` (`Session`): the page over time. Every user action,
  recognition event and service answer is an event. The trace lemmas state
  what holds after any sequence of events.

Parameters stand in for everything that is not deterministic:

- the clock readings (`now`, `stamp`);
- `Math.random()`, a real in [0, 1) (`Themes.Fraction`);
- the outcome of the service call (`Visualizer.Outcome`): not configured, an
  image address, or a thrown error.

The request handler reads the story when the button is pressed. The model keeps
that story in the `Job` that is in flight, so the placeholder is themed on the
story as it was at that moment, not on later dictation.

Two behaviours of the code are easy to misread, and the model follows the code:

- The clear button does not reset the loading flag or the cooldown clock. A
  generation in flight still lands after a clear, and the cooldown survives it
  (`Visualizer.Clear`, `Visualizer.SecondRequestRefused`).
- A completion moves the cursor one step forward from where it is, not to the
  new last entry. See "## Findings".

## Model

| member | source | states |
|---|---|---|
| Strings.BlankIffAllWhitespace | src/components/StoryVisualizer2.jsx:90 | `text.trim()` is empty exactly when every character of the story is white space or a line terminator |
| Strings.Trim | src/components/StoryVisualizer2.jsx:90 | `trim()` leaves the part of the story between leading and trailing white space, which neither starts nor ends with white space |
| Strings.ToLower | src/components/StoryVisualizer2.jsx:65 | `toLowerCase()` maps every character through the lower-case table and keeps the length |
| Strings.LowerRemovesCapitals | src/components/StoryVisualizer2.jsx:65 | after lower-casing no capital A-Z is left, each capital became its lower-case letter, and other ASCII characters are kept |
| Strings.ToLowerAppend | src/components/StoryVisualizer2.jsx:65 | lower-casing a text is lower-casing its pieces and joining them |
| Strings.ContainsIffOccurs | src/components/StoryVisualizer2.jsx:66 | `includes` holds exactly when the word occurs at some position of the text |
| Strings.ToLowerIdempotent | src/components/StoryVisualizer2.jsx:65 | lower-casing twice is lower-casing once, so the cascade may be given an already lower-cased story |
| Strings.DecimalRoundTrip | src/components/StoryVisualizer2.jsx:86 | the decimal rendering of the timestamp in the URL reads back as the same integer |
| Themes.ChooseTheme | src/components/StoryVisualizer2.jsx:61-81 | the chosen colour is the chosen theme's own colour, or the default blue with the nature theme when no keyword matched |
| Themes.FirstMentionedThemeWins | src/components/StoryVisualizer2.jsx:61-81 | a theme is chosen exactly when one of its keywords occurs in the lower-cased story and no keyword of an earlier theme does; nature with the default colour exactly when no keyword occurs |
| Themes.DragonStoryIsFantasy | src/components/StoryVisualizer2.jsx:65-71 | "A dragon flew over" is lower-cased, names no nature keyword and names a dragon, so it gets the fantasy theme and its purple colour |
| Themes.DarkForestIsNature | src/components/StoryVisualizer2.jsx:61-81 | "The Dark Forest" is lower-cased before matching and names both a mystery and a nature keyword; the earlier nature test wins with its green colour |
| Themes.RandomIndex | src/components/StoryVisualizer2.jsx:83 | `floor(random * length)` is a valid index into the word list |
| Themes.FallbackImage | src/components/StoryVisualizer2.jsx:83-86 | the placeholder URL carries one of the words of the story's theme |
| Themes.FallbackUrlRoundTrip | src/components/StoryVisualizer2.jsx:86 | the timestamp and the theme word can be read back from every placeholder URL |
| Themes.WordListsDisjoint | src/components/StoryVisualizer2.jsx:53-59 | no word is in two themes' lists, so a word names its theme |
| Themes.FallbackImageShowsTheme | src/components/StoryVisualizer2.jsx:51-86 | a placeholder URL determines its timestamp and the theme the story was classified under |
| Themes.ColorNotInUrl | src/components/StoryVisualizer2.jsx:62-86 | the computed colour never reaches the URL: two stories with different colours get the same placeholder |
| RemoteErrors.ClassifyError | src/components/StoryVisualizer2.jsx:131-143 | each error kind is reported exactly when its test fires and no earlier test does: billing, then quota, then HTTP 429 or "Too Many Requests", else other |
| RemoteErrors.Status429IsRateLimited | src/components/StoryVisualizer2.jsx:131-139 | a 429 is reported as a rate limit unless the message mentions the billing limit or the quota |
| Transcript.JoinBest | src/components/StoryVisualizer2.jsx:31-33 | the joined text is exactly as long as all best transcripts together |
| Transcript.JoinBestAppend | src/components/StoryVisualizer2.jsx:31-33 | joining the results of two lists one after the other is joining each and concatenating |
| Transcript.JoinBestLayout | src/components/StoryVisualizer2.jsx:31-33 | every result's best transcript sits in the text right after the transcripts of the results before it |
| Visualizer.InitialIsValid | src/components/StoryVisualizer2.jsx:13-21 | the first render satisfies the history invariant, is not loading, and has a cooldown clock at 0 |
| Visualizer.ShowCurrent | src/components/StoryVisualizer2.jsx:183-187 | with an in-range cursor the entry under it is put on display; otherwise nothing changes |
| Visualizer.OnResult | src/components/StoryVisualizer2.jsx:30-35 | a recognition event sets the story to the joined best transcripts and changes nothing else |
| Visualizer.OnResultReplaces | src/components/StoryVisualizer2.jsx:34 | the story after an event does not depend on the story before it |
| Visualizer.Excerpt | src/components/StoryVisualizer2.jsx:117 | `slice(-200)` is the suffix of the story of length min(200, length) |
| Visualizer.Prompt | src/components/StoryVisualizer2.jsx:117 | the prompt is the fixed preamble followed by the excerpt |
| Visualizer.RemainingSeconds | src/components/StoryVisualizer2.jsx:97-101 | the wait is the time left rounded up to whole seconds, between 1 and 60 inside the window |
| Visualizer.Request | src/components/StoryVisualizer2.jsx:89-109 | a blank story is refused with nothing changed; any other request less than 60 s after the last accepted one is refused with the seconds left, which the status line shows; otherwise loading starts and the clock restarts at `now`, with a job holding the story and its prompt |
| Visualizer.Complete | src/components/StoryVisualizer2.jsx:120-160 | a completion appends the service image or a placeholder of the story's theme, moves the cursor one step, ends loading, flags the placeholder path, reports a classified failure, and keeps the history invariant |
| Visualizer.CompleteAfterGoingBack | src/components/StoryVisualizer2.jsx:123 | after stepping back to the first of three images, a new generation shows the second image, not the new one |
| Visualizer.CompleteAtEnd | src/components/StoryVisualizer2.jsx:121-123 | the corrected completion: the cursor is on the new last entry and the new image is on display |
| Visualizer.CompleteAgreesAtEnd | src/components/StoryVisualizer2.jsx:121-123 | the completion as written and the corrected one agree whenever the newest image was on display |
| Visualizer.SecondRequestRefused | src/components/StoryVisualizer2.jsx:96-109 | less than 60 s after an accepted request, a second request is refused however the first ended and even after a clear |
| Visualizer.CompleteAllCounts | src/components/StoryVisualizer2.jsx:122-123 | N completions add N entries and N cursor steps; from a cleared page the cursor ends on the last entry |
| Visualizer.Navigate | src/components/StoryVisualizer2.jsx:175-181 | prev/next moves the cursor by one when that stays within the history, and otherwise changes nothing |
| Visualizer.Select | src/components/StoryVisualizer2.jsx:328 | a thumbnail click moves the cursor to that entry and puts it on display |
| Visualizer.NextThenPrev | src/components/StoryVisualizer2.jsx:175-181 | stepping forward and back returns to the same page |
| Visualizer.NavigateIsSelectNeighbour | src/components/StoryVisualizer2.jsx:175-187 | a prev/next step is the same as clicking the neighbouring thumbnail |
| Visualizer.Clear | src/components/StoryVisualizer2.jsx:167-173 | clearing empties the story and the history and restores the placeholder, but leaves the loading flag, the cooldown clock and the status line alone |
| Session.Step | src/components/StoryVisualizer2.jsx:236-328 | a click while loading hits the disabled button and changes nothing; a click on a thumbnail outside the history changes nothing, one inside moves the cursor there; a job starts and the cooldown clock restarts only on an accepted click; only recognition and clear change the story |
| Session.StepKeepsConsistent | src/components/StoryVisualizer2.jsx:12-187 | every event keeps the history invariant and the rule that loading means exactly one job in flight |
| Session.AlwaysConsistentFrom | src/components/StoryVisualizer2.jsx:12-187 | any sequence of events from a consistent page keeps it consistent |
| Session.AlwaysConsistent | src/components/StoryVisualizer2.jsx:13-21 | from the first render on, the page is consistent after any sequence of events |
| Session.CooldownHolds | src/components/StoryVisualizer2.jsx:96-109 | clicks less than 60 s after the last accepted one never restart the clock or start a new job |
| Session.StepExtendsHistory | src/components/StoryVisualizer2.jsx:122 | every event except clear keeps the history as a prefix |
| Session.HistoryOnlyGrows | src/components/StoryVisualizer2.jsx:122 | without a clear, the history only grows at its end |
| Session.StepKeepsNewest | src/components/StoryVisualizer2.jsx:123 | without stepping back or picking a thumbnail, the cursor stays on the newest entry |
| Session.NewestStaysOnDisplay | src/components/StoryVisualizer2.jsx:123 | without stepping back or picking a thumbnail, the newest image is always the one on display |

## Findings

| source | as written | input that shows it | evidently intended | confidence | as-written member | corrected member |
|---|---|---|---|---|---|---|
| src/components/StoryVisualizer2.jsx:123 | on completion the cursor becomes the previous cursor plus one (also line 158) | history [a, b, c] with the cursor on a after two prev clicks; the service returns d. The history becomes [a, b, c, d] and the cursor moves to b. The effect at lines 183-187 then replaces the image that line 121 just set, so b is displayed | the cursor is on the new last entry, so the new image stays displayed. Line 121 sets the displayed image to the new one, and the effect at lines 183-187 would keep it only if the cursor were on it | medium, not executed | Visualizer.Complete (shown by Visualizer.CompleteAfterGoingBack) | Visualizer.CompleteAtEnd (agreement shown by Visualizer.CompleteAgreesAtEnd) |

The event model in `Session` keeps the completion as written, because that is
what the page does. `Visualizer.CompleteAgreesAtEnd` and
`Session.NewestStaysOnDisplay` show that the two completions differ only after
the user has stepped back or picked an older thumbnail.

## Left out

- Speech recognition lifecycle: starting, stopping and cleaning up the recognizer, the `isListening` toggle, and the detection of browser support for recognition (lines 23-49 and 163-165). These are browser side effects. Only the `onresult` handler is modelled.
- The image service call itself (lines 7-10 and 114-118): the model name and image size are not modelled. The API key condition at line 112 and the call's result become the `Outcome` parameter, where `NotConfigured` stands for a missing or template key.
- The 2-second artificial delay (line 153), `alert`, and the console logging. They have no effect on state.
- The status-line timers (lines 103 and 145). Expiry is an untimed `Expire` event, so the model does not tell the 3 s timer from the 5 s timer. The exact message texts become the `Notice` datatype.
- Rendering, styling and the `ui/Button`, `ui/Card` components, the older `StoryVisualizer.jsx`, and `tailwind.config.js`. Only the behaviour wired to the buttons (lines 236-239, 298-328) is modelled.
- The generate button is hidden while the story is empty (line 236), but the model allows the click anyway. The blank-story refusal then returns the page unchanged, so the result is the same.
- React's batching and scheduling of state updates: each handler is applied atomically, and the cursor effect runs right after the update that triggers it.
- Strings.ToLower: covers the ASCII letters and the Kelvin sign only. Other Unicode letters are left unchanged, which cannot affect the match against the ASCII keywords except through case mappings the model omits.
- Visualizer.Excerpt: counts characters, while JavaScript's `slice(-200)` counts UTF-16 code units. The two differ for stories with characters outside the Basic Multilingual Plane.
- Strings.Decimal: renders any integer in plain decimal. JavaScript switches to exponent notation from 10^21, which `Date.now()` never reaches.
- Themes.RandomIndex: treats `Math.random()` as an exact real in [0, 1), not a double. The floor of a double product is below the length for every double below 1, so the index bound is the same.
- RemoteErrors.ClassifyError: every error carries a message. An error thrown without one would make `error.message.includes` throw inside the catch block and leave the page loading; that path is not modelled.
