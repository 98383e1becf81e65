# Video frame extraction and slideshow: a Dafny model

This project models the page logic of a video key-frame extractor. A user
uploads a video and picks one of three ways of choosing frames:

- shot detection: a service returns shots, and the frame at the rounded
  middle of each shot is captured;
- a fixed interval: frames are captured at `interval, 2·interval, …` up to
  the end of the video;
- manual capture: the user pauses the video and clicks a camera button.

Each captured frame becomes a slide in a slideshow with one navigation dot
per slide. Dots of manual captures are blue and all others gray. Manual
captures are inserted in timestamp order, and every dot from the insertion
point on is re-bound to its new slide number.

The page keeps its state in module-level variables:

- `keyTimes`, `keyTimesIndex`, `frameNum`, `userInputFrameInterval` and
  `getFramesByUserInput`;
- the `submitting` and `submitted` flags;
- the slideshow's `slideIndex` and the two DOM containers of slides and dots.

The model gathers these into one immutable `Session` record. Each event
handler becomes a pure function from record to record. The seek, draw and
upload of one capture are a single abstract event, "the capture of the
pending shot ended" (`DisplayFrame`), with a `seeked` or an `error` outcome.

Modules:

- `Options`: the `Option` type.
- `Timestamp`: `getTimestamp` (seconds to "M:SS"), with a parser for the same
  format, used to show that the formatting loses nothing.
- `ShotSchedule`: shot objects, `Math.round`, the midpoint of a detected shot,
  and the fixed-interval target series.
- `Slideshow`: slides, dots, `showSlides`, `plusSlides`, `currentSlide`, and
  `sortImages` with its stable sort, DOM insertion and dot re-binding.
- `IntervalPrompt`: the interval prompt shown when detection finds no shot,
  both as written and corrected.
- `CaptureSession`: the session record and the handlers:
  - the upload form's submit guard and reset;
  - the detection response and `checkForShots`;
  - `createSlide` and `displayFrame`'s next-capture decision;
  - `setupManualCapture` and `captureCurrentFrame`, the latter also as
    the page runs it while a submission is in progress;
  - whole runs of captures, from submit to completion, with seek errors
    handled as intended and as written.

JavaScript object identity (what `keyTimes.indexOf(shot)` and
`keyTimes[i].dot` rely on) is modelled by a fresh `id` per shot object. A
slide or dot records the id of the shot it belongs to.

Some of the code's behaviour is easy to misread; the model follows the code:

- Clicking past the last slide goes to slide 1, and past the first goes to
  the last: the index resets to the opposite end. For steps of more than one
  this is not a wrap-around modulo the slide count
  (`Slideshow.PlusSlidesIsNotModular`).
- A manual capture lands after the shots at or before its second, not only
  after the earlier ones, because the sort is stable
  (`Slideshow.SortImagesIndex`, `Slideshow.SortIsStable`).

The slide and dot containers are never cleared. A submission resets
`keyTimes`, `keyTimesIndex` and `slideIndex` (extract-images-script.js:51-58),
but no code empties `#slideshow-container` or `#dots-container`
(`CaptureSession.Submit` keeps the view). So after a second submission the
new slides follow the old ones. Each new dot still opens the slide at its
`slideNum` or `frameNum` position (upload-slides-script.js:36-41, 80). That
position counts from the first slide of the container, so the first new dot
opens the old first slide. The model keeps this behaviour. Its statements
that the slideshow mirrors the shot list hold for a first run into an empty
slideshow.

Where the code evidently fails its own intent, the model holds both: an
as-written member that exhibits the failure, and the intended behaviour,
which the rest of the model builds on (see Findings):

- As written, Cancel in the interval prompt asks again, and a prompt that
  returns `NaN` leaves the session submitting with nothing pending
  (`IntervalPrompt.CancelRepromptsAsWritten`,
  `CaptureSession.UnansweredPromptStalls`). Intended: the submission ends
  (`CaptureSession.ShotsReceivedCorrected`).
- As written, a seek error throws before anything changes, and the run stops
  (`CaptureSession.StepsAsWritten`). Intended: the frame is captioned as an
  error and the run goes on (`CaptureSession.Steps`). The run lemmas below
  (`DetectRunProgress` to `ZeroIntervalNeverCompletes`) are about `Steps`;
  `StepsAsWrittenAgrees` shows that it equals the page as written whenever
  every seek succeeds.
- As written, the camera button stays clickable while a later submission
  runs, and a click disturbs the run
  (`CaptureSession.CaptureCurrentFrameAsWritten`). Intended: the button
  does nothing then (`CaptureSession.CameraClick`).

## Model

| member | source | states |
|---|---|---|
| Timestamp.NatToString | extract-images-script.js:406-410 | `String(n)` of a whole number is a non-empty digit string with no leading zero |
| Timestamp.JsRemainder60 | extract-images-script.js:405 | JavaScript's `%` by 60: the remainder lies in 0..59 for a non-negative dividend and in -59..0 for a negative one, and differs from the dividend by a multiple of 60 |
| Timestamp.GetTimestampShape | extract-images-script.js:403-412 | for `s >= 0` the text is the minute count `floor(s/60)`, a colon, and exactly two digits whose value is `s mod 60 < 60` |
| Timestamp.TimestampRoundTrip | extract-images-script.js:403-412 | reading "M:SS" back as `M*60+SS` recovers every non-negative second count |
| Timestamp.TimestampInjective | extract-images-script.js:403-412 | two different non-negative second counts never get the same text |
| Timestamp.TimestampPadsSeconds | extract-images-script.js:407-410 | 65 gives "1:05", 5 gives "0:05" and 125 gives "2:05" |
| Timestamp.TimestampLongMinutes | extract-images-script.js:404-406 | minutes are neither padded nor capped: 754 gives "12:34" and 3600 gives "60:00" |
| ShotSchedule.MathRound | extract-images-script.js:104 | `Math.round` gives the integer within half of x, so halves round up |
| ShotSchedule.MidpointWithinShot | extract-images-script.js:104 | for whole-second `start <= end` the rounded midpoint lies in `[start, end]` and equals `(start+end+1) div 2` |
| ShotSchedule.ShotsFromApi | extract-images-script.js:102-108 | one shot per response entry, in response order, each a new non-manual object with the next fresh id, whose timestamp is within half a second of its entry's middle (the middle rounded, halves up) |
| ShotSchedule.ShotsFromApiWithinShots | extract-images-script.js:102-108 | every shot built from an entry with start no later than end lies within half a second of the entry, and inside it when both bounds are whole seconds |
| ShotSchedule.ShotsFromApiExample | extract-images-script.js:102-108 | shots (0,4) and (10,20) give the timestamps 2 and 15 |
| ShotSchedule.IntervalTargetsClosedForm | extract-images-script.js:319-327 | the fixed-interval targets are exactly `interval·1 … interval·k` with `k = max(1, floor(duration/interval))` |
| ShotSchedule.IntervalTargetsStep | extract-images-script.js:319-327 | the first target is the interval; each later one is the previous plus the interval and lies within the duration; the one after the last would pass it |
| ShotSchedule.IntervalTargetsExample | extract-images-script.js:313-318 | interval 5 and duration 12 give the targets [5, 10] |
| Slideshow.ShowSlides | upload-slides-script.js:144-162 | the index becomes 1 above the count, the count below 1, and otherwise stays; exactly that slide is shown and every other slide hidden; exactly its dot is active, blue-active iff it is a blue dot; owners, captions and click targets are kept |
| Slideshow.ShowSlidesIdempotent | upload-slides-script.js:144-162 | calling `showSlides(slideIndex)` again changes nothing |
| Slideshow.ShowSlidesWrapsAtEnds | upload-slides-script.js:147-148 | count+1 behaves as 1 and 0 behaves as the count |
| Slideshow.ShowSlidesKeepsLayout | upload-slides-script.js:149-161 | restyling keeps slides and dots in shot order and keeps every dot opening its own slide |
| Slideshow.PlusSlides | upload-slides-script.js:127-129 | an in-range step moves the index by the increment; +1 from the last slide gives 1; -1 from slide 1 gives the count |
| Slideshow.PlusSlidesIsNotModular | upload-slides-script.js:127-129 | two steps forward from the last of three slides land on slide 1, where modular wrap-around would give 2 |
| Slideshow.CurrentSlide | upload-slides-script.js:135-137 | an in-range index becomes the current slide |
| Slideshow.ClickingDotShowsItsSlide | upload-slides-script.js:115-137 | when every dot opens its own slide, clicking dot i shows only slide i and highlights only dot i |
| Slideshow.SortByTimestamp | upload-slides-script.js:95 | the sorted list has the input's length and is non-decreasing by timestamp |
| Slideshow.SortPermutes | upload-slides-script.js:95 | the sort is a permutation of its input |
| Slideshow.SortSortedIsIdentity | upload-slides-script.js:95 | sorting a list that is already sorted by timestamp leaves it as it is |
| Slideshow.SortIsStable | upload-slides-script.js:95 | the sort is stable: for every timestamp, the shots with that timestamp keep their relative order |
| Slideshow.IndexOfId | upload-slides-script.js:98 | `indexOf` gives -1 iff the object is absent, otherwise its first position |
| Slideshow.InsertBefore | upload-slides-script.js:101-104 | `insertBefore(x, list[i])` puts x at i, or at the end when `list[i]` is undefined, and shifts the rest by one |
| Slideshow.RebindFromTargets | upload-slides-script.js:107-109 | the re-binding loop leaves dots before the start alone and makes every dot from the start on open the slide at its own position |
| Slideshow.SortImages | upload-slides-script.js:93-112 | the shot list becomes a sorted permutation; the returned index is the new shot's first position; one slide and one dot are added; the current index is untouched |
| Slideshow.SortImagesIndex | upload-slides-script.js:95-98 | for a shot appended last, the returned index is the number of other shots whose timestamp is at most its own |
| Slideshow.SortImagesKeepsOrder | upload-slides-script.js:99-104 | when the old list was sorted and slides and dots followed it, the new list is the old one with the shot spliced in at the index, and slides and dots follow the new list |
| Slideshow.SortImagesRebinds | upload-slides-script.js:106-109 | dots before the index keep their targets, and every dot at or after it opens the slide at its own position |
| Slideshow.SortImagesKeepsDotTargets | upload-slides-script.js:106-109 | if every dot opened its own slide before a manual insertion, every dot still does afterwards |
| Slideshow.RebindAsWritten | upload-slides-script.js:107-121 | as written, the re-binding loop throws exactly when a shot from the start on has no dot, since `dot.onclick` on an undefined dot fails at line 118; it never changes which dots exist, and when it does not throw it re-binds as intended |
| Slideshow.SortImagesAsWritten | upload-slides-script.js:93-121 | as written: the list becomes a sorted permutation, the index finds the new shot, one slide and one dot are added, the current index is kept, and the call throws exactly when a shot from the index on, other than the new one, has no dot |
| Slideshow.SortImagesAsWrittenAgrees | upload-slides-script.js:93-112 | whether or not it throws, `sortImages` as written sorts, finds the index and inserts the slide as `SortImages` does; when it does not throw, the two agree entirely |
| IntervalPrompt.PromptAsWritten | extract-images-script.js:155-170 | as written, a returned interval is the `parseInt` of a typed answer |
| IntervalPrompt.CancelRepromptsAsWritten | extract-images-script.js:165 | as written, Cancel never ends the prompt: it is skipped like a rejected answer |
| IntervalPrompt.FractionAcceptedAsZero | extract-images-script.js:165-169 | as written, the answer "0.5" passes the check and returns the interval 0 |
| IntervalPrompt.PromptNumberInput | extract-images-script.js:150-170 | corrected: any interval returned is at least 1 |
| IntervalPrompt.CancelReturnsNaN | extract-images-script.js:153 | corrected: Cancel returns `NaN` at once |
| IntervalPrompt.TypedAnswer | extract-images-script.js:164-169 | corrected: a typed answer whose `parseInt` is at least 1 is returned, and any other is re-asked |
| IntervalPrompt.PromptAgreesOnWholeNumerals | extract-images-script.js:155-170 | on whole-number answers the corrected prompt gives what the code gives |
| CaptureSession.Initial | extract-images-script.js:17-31 | the loaded page is valid, neither submitting nor submitted, on slide 1 |
| CaptureSession.Submit | extract-images-script.js:38-73 | without a file, or while submitting, nothing changes; otherwise the state is reset with the containers kept, and then detection waits, an interval run starts with the interval as its first target, or manual capture is set up |
| CaptureSession.StartIntervalCapture | extract-images-script.js:173-190 | the first target is the interval itself, listed and issued whatever the duration, in interval mode |
| CaptureSession.ManualSetupWaits | extract-images-script.js:349-358 | after a submission for manual capture nothing is listed or pending and `submitted` is set; the camera button then captures the current frame, and the next submission is accepted |
| CaptureSession.CheckForShots | extract-images-script.js:114-148 | with shots, the first listed shot is issued; with none, a `NaN` answer leaves interval mode off with nothing issued, and an interval answer starts an interval run |
| CaptureSession.ShotsReceived | extract-images-script.js:97-110 | one non-manual shot per response entry is appended in order, then `checkForShots` decides; the session stays valid |
| CaptureSession.CountCapture | upload-slides-script.js:35-41 | exactly one of the two counters grows, by one, and it is the one `Counter` reads: `frameNum` in interval mode, `keyTimesIndex` otherwise; every other field is kept |
| CaptureSession.AppendSlide | upload-slides-script.js:77-84 | a non-manual shot's slide and a gray dot opening the counter's slide number are appended at the end, and the returned index is the list's length |
| CaptureSession.InsertManualSlide | upload-slides-script.js:49-76 | a manual shot goes through `sortImages`: the list is a sorted permutation and the index finds the shot itself; its slide is inserted at the index (at the end when the index is past the slides) with the others kept in order around it, and its dot there is blue and not highlighted; nothing else changes |
| CaptureSession.CreateSlide | upload-slides-script.js:32-85 | one counter advances; a non-manual shot is appended with a gray dot opening the new counter value; a manual one is inserted at its sorted position with a blue dot, the other slides keeping their order; nothing else changes |
| CaptureSession.ShowSlidesKeepsEntries | upload-slides-script.js:149-161 | `showSlides` keeps what each position lists: slide and dot owners, captions and click targets |
| CaptureSession.NextCapture | extract-images-script.js:319-345 | in interval mode `t + interval` is issued iff it does not pass the duration; in detection mode the next shot is issued iff one is left; otherwise the session completes with one slide shown and one dot active |
| CaptureSession.DisplayFrame | extract-images-script.js:291-346 | a completed capture advances exactly the counter of its mode and keeps the mode |
| CaptureSession.DisplayFrameAppendsSlide | extract-images-script.js:296-308 | the shot's slide is appended, captioned "Timestamp: " or "Error capturing frame at " plus its M:SS time, with a dot opening the counter's new value |
| CaptureSession.DisplayFrameIssuesTarget | extract-images-script.js:319-327 | in interval mode a target within the duration is listed and issued next |
| CaptureSession.DisplayFrameIssuesShot | extract-images-script.js:330-332 | in detection mode the next listed shot is issued when one is left |
| CaptureSession.DisplayFrameCompletes | extract-images-script.js:334-345 | with no next capture the session completes: not submitting, submitted, one slide shown, one dot active |
| CaptureSession.CaptureEndedAsWritten | extract-images-script.js:210-238 | as written, the end of a capture keeps the session valid |
| CaptureSession.ErrorEventStallsAsWritten | extract-images-script.js:236-238 | as written, a seek error adds no slide, leaves the session submitting with the failed shot pending, and every later submit is refused |
| CaptureSession.ErrorEventContinues | extract-images-script.js:302-305 | handled as intended, a seek error adds a slide captioned "Error capturing frame at M:SS", and the next listed shot is issued |
| CaptureSession.CaptureCurrentFrame | extract-images-script.js:361-395 | a manual capture with no submission running keeps the session valid and not submitting |
| CaptureSession.ShowCreated | extract-images-script.js:388-392 | `slideIndex = index + 1; showSlides(slideIndex)` shows the created slide and only it, and keeps the slideshow's entries and dot colours |
| CaptureSession.ManualCaptureKeepsLayout | extract-images-script.js:361-392 | in a sorted slideshow a capture at second t lands after every shot at or before t; it is shown, captioned with the camera icon and time; its dot is blue and blue-active; slides and dots follow the list, each dot opening its own slide |
| CaptureSession.CaptureCurrentFrameInserts | extract-images-script.js:371-392 | a manual capture lists one more shot (a permutation of old list plus the shot), keeps the list sorted, adds one slide, and shows exactly one slide with one active dot |
| CaptureSession.CaptureCurrentFrameSorts | extract-images-script.js:376-392 | the manual capture is `sortImages` of the new shot appended last, followed by showing the slide at the returned index |
| CaptureSession.CaptureCurrentFrameAsWritten | extract-images-script.js:361-395 | as written, also while a submission runs: the manual shot joins a sorted permutation of the list, the counter of the current mode advances by one, one slide and dot are added, nothing else changes, and the capture throws, leaving the slide unshown, exactly when a shot after the new one has no dot |
| CaptureSession.CaptureAsWrittenPlaces | extract-images-script.js:376-388 | on a sorted list the capture as written places the shot after every shot at or before its second, whether or not it throws |
| CaptureSession.IdleCaptureAgrees | extract-images-script.js:361-392 | with no submission running and every listed shot on the slideshow, the capture as written completes and does what `CaptureCurrentFrame` models |
| CaptureSession.LateClickSkipsShot | upload-slides-script.js:36-41 | as written, in detection mode a click at or after every listed shot completes and lists the shot last, but advances `keyTimesIndex` by one while the pending shot stays pending |
| CaptureSession.EarlyClickThrows | upload-slides-script.js:107-118 | as written, a click before every listed shot, when some listed shot has no dot, puts the shot first and throws: the slide is added but not shown, and the counter has advanced |
| CaptureSession.ClickDuringDetectRunSkipsShot | video-file-script.js:44-60 | as written, during a detection run with shot j pending, a click after every listed shot leaves shot j pending but moves the run's count to j+1, past shot j+1 |
| CaptureSession.ClickDuringDetectRunThrows | upload-slides-script.js:107-121 | as written, during a detection run a click before every listed shot throws in the re-binding loop at the pending shot, which has no dot yet; the slide is not shown, and the run's count has advanced |
| CaptureSession.CameraClick | extract-images-script.js:361-395 | corrected: the camera button does nothing while a submission runs and captures the current frame otherwise |
| CaptureSession.ClickDuringRunKeepsRun | extract-images-script.js:330-336 | corrected: a click in the middle of a detection run changes nothing, and the run captures every listed shot in order and completes as if there had been no click |
| CaptureSession.Steps | extract-images-script.js:199-239 | every sequence of capture completions, seek errors handled as intended, keeps the session valid |
| CaptureSession.FirstError | extract-images-script.js:236-238 | the position of the first failed seek: every seek before it succeeded, and the one at it failed unless all succeeded |
| CaptureSession.StepsAsWritten | extract-images-script.js:210-238 | a run as written keeps the session valid |
| CaptureSession.StepsAsWrittenAgrees | extract-images-script.js:210-238 | when every seek succeeds, the run as written and the intended `Steps` coincide |
| CaptureSession.FailedSeekFreezesRun | extract-images-script.js:236-238 | as written, the first failed seek's error event changes nothing: the state stays the one the captures before it reached, whatever outcomes follow |
| CaptureSession.DetectRunAsWritten | extract-images-script.js:330-336 | as written, a detection run captures the listed shots up to the first failed seek; after a failure it stays submitting with that shot pending and refuses every submit; with none it completes |
| CaptureSession.DetectRunProgress | extract-images-script.js:330-336 | with `Steps`: in detection mode, after j completions shot j is pending, and after the last one the session completes |
| CaptureSession.DetectRunEntries | extract-images-script.js:291-332 | with `Steps`: in detection mode each listed shot gets one slide, in list order, with its timestamp caption and a dot opening slide k+1 |
| CaptureSession.IntervalStep | extract-images-script.js:319-336 | with `Steps`: one interval completion issues target j+2 when j+1 is below the capture count, and completes the session otherwise |
| CaptureSession.IntervalRunProgress | extract-images-script.js:319-336 | with `Steps`: an interval run captures `interval·1 … interval·k` one after the other and completes after exactly `k = max(1, floor(duration/interval))` captures |
| CaptureSession.IntervalRunCapturesTargets | extract-images-script.js:319-327 | with `Steps`: a completed interval run listed exactly the target series |
| CaptureSession.IntervalRunEntries | extract-images-script.js:291-327 | with `Steps`: in interval mode each target gets one slide, in capture order, with its timestamp caption and a dot opening slide j |
| CaptureSession.SubmitIntervalStarts | extract-images-script.js:65-66 | submitting a file with a positive interval starts an interval run |
| CaptureSession.DetectResponseStarts | extract-images-script.js:63-64 | submitting for detection and receiving shots starts a detection run over exactly those shots |
| CaptureSession.PromptedIntervalStarts | extract-images-script.js:115-129 | no shot detected plus a positive prompted interval starts an interval run |
| CaptureSession.UnansweredPromptStalls | extract-images-script.js:115-119 | as written, no shot detected plus a `NaN` answer leaves the session submitting with nothing pending; no capture ever completes and every later submit is refused; the answer ".5", accepted because its `Number` is positive, returns `NaN` |
| CaptureSession.ShotsReceivedCorrected | extract-images-script.js:139-148 | corrected: when detection found no shot and the prompt gave `NaN`, the submission ends with nothing listed or pending and the slideshow untouched; every other response is handled as written |
| CaptureSession.CancelledPromptAllowsResubmit | extract-images-script.js:156-159 | corrected: after a `NaN` answer the page is idle, every new submission changes the state, and a detection submission starts afresh |
| CaptureSession.DetectRunLayout | upload-slides-script.js:77-84 | with `Steps`: a detection run into an empty slideshow leaves slides and dots following the shots, each dot opening its own slide |
| CaptureSession.IntervalRunLayout | upload-slides-script.js:36-41 | with `Steps`: an interval run into an empty slideshow does the same, the dot targets coming from `frameNum` |
| CaptureSession.ZeroIntervalNeverCompletes | extract-images-script.js:319-327 | with `Steps`: with interval 0 every completion issues another capture at second 0 and adds a slide, so the run never completes |
| CaptureSession.FractionalAnswerNeverCompletes | extract-images-script.js:139-170 | as written, answering "0.5" after detection found nothing starts a run that is still submitting, with a capture pending, after any number of completions |
| CaptureSession.CorrectedPromptRunCompletes | extract-images-script.js:139-148 | with the corrected prompt and response handling, Cancel ends the submission so that every new submission is taken, and any other answer starts an interval run with an interval of at least 1 that completes after its capture count |

## Left out

- Network and I/O are left out: the shot-detection `fetch`, the image upload
  form and its ajax handler, `canvas.toBlob`, and `postFrame`. The detection
  response is an input sequence of `(startTime, endTime)` pairs.
- Video loading, seeking and canvas drawing in `captureFrame` are reduced to
  one completion event per pending capture, with a `seeked` or `error` outcome.
- Floating point is not modelled. API times are exact reals. `video.duration`
  is a whole number, which is enough because every target it is compared
  with is a whole number of seconds. `Math.floor(video.currentTime)` is an
  input natural number.
- The interval prompt's dialog is user I/O. Each answer is given with its
  `Number` and `parseInt` values, so JavaScript's string-to-number
  conversions ("1e3", ".5", "Infinity", whitespace) are inputs rather than
  modelled. `getInterval` reads a form field the page has already validated,
  so its `parseInt` result is an input integer.
- Promises and `await` are left out. `setOnclickFunction` resolves at once,
  so it is a plain assignment, and every handler runs to completion. A
  `TypeError` inside its executor rejects the promise and `await` rethrows
  it; `RebindAsWritten` records that as a throw that ends the handler.
- Cosmetic code is not modelled: the dot margin above 36 slides, loader and
  message texts, and the visibility of the arrows and of the other buttons.
- script.js and video-file-script.js are not part of this model, apart from
  the camera button's visibility rule (video-file-script.js:44-60). They hold
  show/hide toggles and file-input handling.
- Timestamp.NatToString: gives plain decimal digits for every natural
  number. JavaScript's `String(n)` switches to exponent notation from 10^21
  on, so timestamps of that many seconds are not modelled as printed.
- The image element of a slide is not modelled. A slide is its owner, caption
  and display style.
- CaptureSession.CaptureCurrentFrame: requires that no submission is in
  progress: it is the capture as evidently intended. As written, the camera
  button stays visible during a later submission, because `hideVideo` hides
  it only when `submitted` is set and a submission clears `submitted` first.
  That case is `CaptureCurrentFrameAsWritten`.
- CaptureSession.ClickDuringDetectRunSkipsShot: ends at the click. A manual
  shot listed during a submission breaks the model's invariant that a running
  submission lists no manual shot, so `DisplayFrame` is not applied after it.
  The skip follows from the count it proves and from `createSlide` and
  `displayFrame` reading `keyTimes[keyTimesIndex]` (extract-images-script.js:330-331).
- CaptureSession.CaptureCurrentFrame: its own contract states only validity.
  What it does to the list and the slideshow is stated by
  `CaptureCurrentFrameInserts`, `CaptureCurrentFrameSorts` and
  `ManualCaptureKeepsLayout`.
- Slideshow.SortImages: for arbitrary input it states where the new slide and
  dot go and that the others keep their order, not that slides and dots
  follow the sorted list. That is stated by `SortImagesKeepsOrder` and
  `SortImagesRebinds` when slides and dots followed a sorted list before, as
  after a first run into an empty slideshow. A second submission keeps the
  old slides while it empties the list (extract-images-script.js:51-58), so
  after it the condition does not hold.

## Findings

| source | as written | input that shows it | evidently intended | confidence | as-written member | corrected member |
|---|---|---|---|---|---|---|
| extract-images-script.js:165-169 | the loop rejects answers whose `Number` is not positive, then returns `parseInt`, which truncates | after detection finds no shot, answering "0.5": `Number` is 0.5 > 0, so it is accepted, and `parseInt` gives 0; each next target `t + 0` never passes the duration, so capture never ends | only whole intervals of at least one second are returned | high; not executed | CaptureSession.FractionalAnswerNeverCompletes | CaptureSession.CorrectedPromptRunCompletes |
| extract-images-script.js:165 | `input <= 0` is also evaluated for Cancel, and `null <= 0` is true | pressing Cancel: the prompt is shown again, so the documented "NaN if cancelled" return never happens | Cancel ends the prompt and returns `NaN` | high; not executed | IntervalPrompt.CancelRepromptsAsWritten | IntervalPrompt.CancelReturnsNaN |
| video-file-script.js:44-46 | `hideVideo` hides the camera button only when `submitted` is set, but a submission clears `submitted` before hiding it, so a button shown by an earlier manual-capture submission stays clickable while the next submission runs; the click's `createSlide` advances `keyTimesIndex` | a detection run over shots at 10, 20 and 30 s, the camera clicked at 40 s while the 20 s shot is captured: `keyTimesIndex` moves to 2 and the manual shot is listed last; after the 20 s capture the index is 3, so the run captures the manual shot and never the 30 s one | the camera button does nothing while a submission runs | medium; not executed | CaptureSession.ClickDuringDetectRunSkipsShot | CaptureSession.ClickDuringRunKeepsRun |
| upload-slides-script.js:107-118 | during a run, the re-binding loop of a manual capture reaches listed shots whose dot does not exist yet, and `dot.onclick` on `undefined` throws | the same run, camera clicked at 5 s while the 20 s shot is captured: the manual shot sorts first, the loop reaches the 20 s shot, and a `TypeError` rejects the capture; its slide is inserted but not shown, and `keyTimesIndex` has advanced | no capture while a submission runs; an idle capture, whose listed shots all have dots, completes | medium; not executed | CaptureSession.ClickDuringDetectRunThrows | CaptureSession.IdleCaptureAgrees |
| extract-images-script.js:115-119 | when detection found no shot and the prompt returns `NaN`, `checkForShots` returns with `submitting` still set and nothing pending | answering ".5": `Number(".5")` is 0.5, so the loop accepts it, and `parseInt(".5")` is `NaN`; no capture starts, and every later submission is refused | the submission ends, so that another file can be submitted as the prompt's message says | high; not executed | CaptureSession.UnansweredPromptStalls | CaptureSession.CancelledPromptAllowsResubmit |
| extract-images-script.js:236-238 | `onerror` calls `displayFrame(undefined, event)`, which reads `undefined.timestamp` at line 296 | a shot whose seek fails: a `TypeError` is thrown, no slide is added, and the session stays submitting for good | the error caption "Error capturing frame at M:SS" that `displayFrame` builds at lines 302-305 is shown, and the run goes on | high; not executed | CaptureSession.ErrorEventStallsAsWritten | CaptureSession.ErrorEventContinues |
