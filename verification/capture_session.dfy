/** The capture session of extract-images-script.js: the module-level state
    (`keyTimes`, `keyTimesIndex`, `userInputFrameInterval`,
    `getFramesByUserInput`, `frameNum`, `submitting`, `submitted`, and the
    slideshow's `slideIndex`) as one record, and each handler as a function
    from record to record. The seek, draw and upload of `captureFrame` are one
    abstract event: "the capture of the pending shot completed". */
module CaptureSession {
  import opened Options
  import opened Timestamp
  import opened ShotSchedule
  import opened Slideshow
  import opened IntervalPrompt

  datatype Session = Session(
    keyTimes: seq<Shot>,
    keyTimesIndex: int,
    frameInterval: int,    // userInputFrameInterval; -1 when unused
    byUserInput: bool,     // getFramesByUserInput
    frameNum: int,
    submitting: bool,
    submitted: bool,
    view: View,
    pending: Option<Shot>, // the shot `captureFrame` was last called with, until its capture completes
    nextId: nat)           // identity of the next shot object to be created

  /** What every reachable state satisfies: slides and dots come in pairs,
      shot objects are distinct and older than `nextId`, a pending capture is
      of a listed shot, no capture is pending outside a submission, and no
      shot of a submission in progress was captured by hand (the camera
      button is offered only once a submission has finished). */
  predicate Valid(s: Session) {
    && |s.view.dots| == |s.view.slides|
    && s.keyTimesIndex >= 0 && s.frameNum >= 0
    && (forall i :: 0 <= i < |s.keyTimes| ==> s.keyTimes[i].id < s.nextId)
    && DistinctIds(s.keyTimes)
    && (s.pending.Some? ==> s.pending.value in s.keyTimes)
    && (!s.submitting ==> s.pending.None?)
    && (s.submitting ==> forall i :: 0 <= i < |s.keyTimes| ==> !s.keyTimes[i].manual)
  }

  /** The state when the page has loaded. */
  function Initial(): (s: Session)
    ensures Valid(s) && !s.submitting && !s.submitted && s.view.slideIndex == 1
  {
    Session([], 0, -1, false, 0, false, false, View([], [], 1), None, 0)
  }

  /** What the slideshow lists at one position: the shot the slide belongs
      to, its caption, the shot the dot belongs to, and the slide number the
      dot opens. */
  datatype Entry = Entry(slideOwner: nat, caption: string, dotOwner: nat, target: Option<int>)

  function Entries(v: View): (r: seq<Entry>)
    requires |v.dots| == |v.slides|
    ensures |r| == |v.slides|
    ensures forall i :: 0 <= i < |r| ==>
      r[i] == Entry(v.slides[i].owner, v.slides[i].caption, v.dots[i].owner, v.dots[i].onclick)
  {
    seq(|v.slides|, i requires 0 <= i < |v.slides| =>
      Entry(v.slides[i].owner, v.slides[i].caption, v.dots[i].owner, v.dots[i].onclick))
  }

  /** `showSlides` only restyles: what the slideshow lists stays. */
  lemma ShowSlidesKeepsEntries(v: View, n: int)
    requires 1 <= |v.slides| == |v.dots|
    ensures |ShowSlides(v, n).dots| == |ShowSlides(v, n).slides|
    ensures Entries(ShowSlides(v, n)) == Entries(v)
  {
  }

  /** Appending a slide and a dot appends one entry. */
  lemma AppendedEntry(v: View, slide: Slide, dot: Dot)
    requires |v.dots| == |v.slides|
    ensures Entries(v.(slides := v.slides + [slide], dots := v.dots + [dot]))
      == Entries(v) + [Entry(slide.owner, slide.caption, dot.owner, dot.onclick)]
  {
    assert Entries(v.(slides := v.slides + [slide], dots := v.dots + [dot]))
      == Entries(v) + [Entry(slide.owner, slide.caption, dot.owner, dot.onclick)];
  }

  // ---------------------------------------------------------------------
  // Submitting a video
  // ---------------------------------------------------------------------

  /** The radio choice of `getShotsOption`; `IntervalOption` carries the
      `parseInt` of the interval field, `ManualOption` also stands for no
      choice at all. */
  datatype ShotsOption = DetectOption | IntervalOption(interval: int) | ManualOption

  /** The re-initialisation at the start of a submission. The slide and dot
      containers are not cleared. */
  function Reset(s: Session): Session {
    s.(keyTimes := [], keyTimesIndex := 0, frameInterval := -1, byUserInput := false,
       frameNum := 0, view := s.view.(slideIndex := 1), submitting := true, submitted := false)
  }

  /** `getInterval` and the interval branch of `checkForShots`: the first
      target is the interval itself, captured whatever the video's length. */
  function StartIntervalCapture(s: Session, interval: int): (r: Session)
    requires Valid(s) && s.submitting
    ensures Valid(r)
    ensures r == s.(byUserInput := true, frameInterval := interval, pending := r.pending,
                    keyTimes := r.keyTimes, nextId := s.nextId + 1)
    ensures r.keyTimes == s.keyTimes + [Shot(s.nextId, interval, false)]
    ensures r.pending == Some(Shot(s.nextId, interval, false))
  {
    var first := Shot(s.nextId, interval, false);
    AppendFreshShots(s.keyTimes, [first], s.nextId);
    s.(byUserInput := true, frameInterval := interval, keyTimes := s.keyTimes + [first],
       pending := Some(first), nextId := s.nextId + 1)
  }

  /** `setupManualCapture`. */
  function SetupManualCapture(s: Session): (r: Session)
    ensures !r.submitting && r.submitted
    ensures r.keyTimes == s.keyTimes && r.view == s.view && r.pending == s.pending
  {
    s.(submitting := false, submitted := true)
  }

  /** The submit handler of the upload form. Without a chosen file, or while
      a submission is in progress, nothing changes. */
  function Submit(s: Session, fileSelected: bool, option: ShotsOption): (r: Session)
    requires Valid(s)
    ensures Valid(r)
    ensures !fileSelected || s.submitting ==> r == s
    ensures fileSelected && !s.submitting ==>
      && r.keyTimesIndex == 0 && r.frameNum == 0 && r.view.slideIndex == 1
      && r.view.slides == s.view.slides && r.view.dots == s.view.dots
      && (option.DetectOption? ==>
            && r.keyTimes == [] && r.frameInterval == -1 && !r.byUserInput
            && r.submitting && !r.submitted && r.pending.None?)
      && (option.IntervalOption? ==>
            && r.keyTimes == [Shot(s.nextId, option.interval, false)] && r.pending == Some(r.keyTimes[0])
            && r.frameInterval == option.interval && r.byUserInput && r.submitting && !r.submitted)
      && (option.ManualOption? ==>
            && r.keyTimes == [] && r.frameInterval == -1 && !r.byUserInput
            && !r.submitting && r.submitted && r.pending.None?)
  {
    if !fileSelected || s.submitting then s
    else
      var t := Reset(s);
      match option
      case DetectOption => t
      case IntervalOption(i) => StartIntervalCapture(t, i)
      case ManualOption => SetupManualCapture(t)
  }

  /** `checkForShots`: with a non-empty shot list the first listed shot is
      captured; with none, the user is asked for an interval, and
      `promptAnswer` is what `promptNumberInput` returned (`None` for `NaN`,
      after which nothing more happens). */
  function CheckForShots(s: Session, promptAnswer: Option<int>): (r: Session)
    requires Valid(s) && s.submitting && s.keyTimesIndex == 0 && s.pending.None?
    ensures Valid(r) && r.submitting && r.submitted == s.submitted
    ensures r.keyTimesIndex == 0 && r.frameNum == s.frameNum && r.view == s.view
    ensures |s.keyTimes| > 0 ==> r == s.(pending := Some(s.keyTimes[0]))
    ensures |s.keyTimes| == 0 && promptAnswer.None? ==>
      r == s.(frameInterval := -1, byUserInput := false)
    ensures |s.keyTimes| == 0 && promptAnswer.Some? ==>
      && r.keyTimes == [Shot(s.nextId, promptAnswer.value, false)] && r.pending == Some(r.keyTimes[0])
      && r.byUserInput && r.frameInterval == promptAnswer.value
  {
    if |s.keyTimes| == 0 then
      match promptAnswer
      case None => s.(frameInterval := -1, byUserInput := false)
      case Some(i) => StartIntervalCapture(s, i)
    else s.(pending := Some(s.keyTimes[s.keyTimesIndex]))
  }

  /** The response of the shot-detection service (`getShots`): one shot per
      entry is listed, then `checkForShots` runs. */
  function ShotsReceived(s: Session, response: seq<ApiShot>, promptAnswer: Option<int>): (r: Session)
    requires Valid(s) && s.submitting && s.keyTimesIndex == 0 && s.pending.None?
    ensures Valid(r)
    ensures |s.keyTimes| + |response| > 0 ==>
      && r.keyTimes == s.keyTimes + ShotsFromApi(response, s.nextId)
      && r.pending == Some(r.keyTimes[0]) && r.byUserInput == s.byUserInput
      && r.frameInterval == s.frameInterval
    ensures |s.keyTimes| + |response| == 0 && promptAnswer.None? ==>
      r.keyTimes == [] && r.pending.None? && !r.byUserInput && r.frameInterval == -1
    ensures |s.keyTimes| + |response| == 0 && promptAnswer.Some? ==>
      && r.keyTimes == [Shot(s.nextId, promptAnswer.value, false)] && r.pending == Some(r.keyTimes[0])
      && r.byUserInput && r.frameInterval == promptAnswer.value
    ensures r.keyTimesIndex == 0 && r.frameNum == s.frameNum && r.view == s.view
    ensures r.submitting && r.submitted == s.submitted
  {
    var received := ShotsFromApi(response, s.nextId);
    AppendFreshShots(s.keyTimes, received, s.nextId);
    var listed := s.(keyTimes := s.keyTimes + received, nextId := s.nextId + |response|);
    assert Valid(listed);
    var r := CheckForShots(listed, promptAnswer);
    assert Valid(r);
    r
  }

  /** Appending shot objects created after every listed one keeps the
      identities distinct. */
  lemma AppendFreshShots(a: seq<Shot>, added: seq<Shot>, bound: nat)
    requires DistinctIds(a) && forall i :: 0 <= i < |a| ==> a[i].id < bound
    requires forall i :: 0 <= i < |added| ==> added[i].id == bound + i
    ensures DistinctIds(a + added)
    ensures forall i :: 0 <= i < |a + added| ==> (a + added)[i].id < bound + |added|
  {
    var c := a + added;
    forall i, j | 0 <= i < j < |c|
      ensures c[i].id != c[j].id
    {
      if j >= |a| {
        assert c[j] == added[j - |a|];
        if i >= |a| {
          assert c[i] == added[i - |a|];
        }
      }
    }
  }

  // ---------------------------------------------------------------------
  // createSlide and displayFrame
  // ---------------------------------------------------------------------

  datatype Created = Created(session: Session, index: int)

  /** The counter `createSlide` advances: `frameNum` in interval mode,
      `keyTimesIndex` otherwise. Exactly one of the two counters moves, by
      one, and it is the one `Counter` reads in the session's mode. */
  function CountCapture(s: Session): (r: Session)
    ensures Valid(s) ==> Valid(r)
    ensures r.(frameNum := s.frameNum, keyTimesIndex := s.keyTimesIndex) == s
    ensures r.frameNum >= s.frameNum && r.keyTimesIndex >= s.keyTimesIndex
    ensures (r.frameNum - s.frameNum) + (r.keyTimesIndex - s.keyTimesIndex) == 1
    ensures Counter(r) == Counter(s) + 1
  {
    if s.byUserInput then s.(frameNum := s.frameNum + 1) else s.(keyTimesIndex := s.keyTimesIndex + 1)
  }

  /** The counter value after `CountCapture`, which an appended dot opens. */
  function Counter(s: Session): int {
    if s.byUserInput then s.frameNum else s.keyTimesIndex
  }

  /** `createSlide` for a shot that was not captured by hand: the slide and
      a gray dot opening slide `Counter(s)` are appended, and the returned
      index is the length of `keyTimes`. */
  function AppendSlide(s: Session, shot: Shot, caption: string): (r: Created)
    requires Valid(s) && !shot.manual
    ensures Valid(r.session)
    ensures r.index == |s.keyTimes|
    ensures r.session == s.(view := r.session.view)
    ensures r.session.view.slideIndex == s.view.slideIndex
    ensures r.session.view.slides == s.view.slides + [Slide(shot.id, caption, Unstyled)]
    ensures r.session.view.dots == s.view.dots + [Dot(shot.id, GrayDot, None, Some(Counter(s)))]
    ensures Entries(r.session.view) == Entries(s.view) + [Entry(shot.id, caption, shot.id, Some(Counter(s)))]
  {
    AppendedEntry(s.view, Slide(shot.id, caption, Unstyled), Dot(shot.id, GrayDot, None, Some(Counter(s))));
    var v := s.view.(slides := s.view.slides + [Slide(shot.id, caption, Unstyled)],
                     dots := s.view.dots + [Dot(shot.id, GrayDot, None, Some(Counter(s)))]);
    Created(s.(view := v), |s.keyTimes|)
  }

  /** `createSlide` for a manual capture: `sortImages` reorders `keyTimes`
      and inserts the slide and a blue dot at the shot's new position. */
  function InsertManualSlide(s: Session, shot: Shot, caption: string): (r: Created)
    requires Valid(s) && shot in s.keyTimes && shot.manual
    ensures Valid(r.session)
    ensures r.session == s.(keyTimes := r.session.keyTimes, view := r.session.view)
    ensures multiset(r.session.keyTimes) == multiset(s.keyTimes)
    ensures SortedByTimestamp(r.session.keyTimes)
    ensures 0 <= r.index < |r.session.keyTimes| && r.session.keyTimes[r.index] == shot
    ensures |r.session.view.slides| == |s.view.slides| + 1
    ensures r.session.view.slideIndex == s.view.slideIndex
    ensures var k := if r.index < |s.view.slides| then r.index else |s.view.slides|;
      && r.session.view.slides[k] == Slide(shot.id, caption, Unstyled)
      && (forall j :: 0 <= j < k ==> r.session.view.slides[j] == s.view.slides[j])
      && (forall j :: k < j < |r.session.view.slides| ==> r.session.view.slides[j] == s.view.slides[j - 1])
      && r.session.view.dots[k].owner == shot.id && r.session.view.dots[k].colour == BlueDot
      && r.session.view.dots[k].active.None?
  {
    var ins := SortImages(s.keyTimes, s.view, shot, Slide(shot.id, caption, Unstyled),
                          Dot(shot.id, BlueDot, None, None));
    ReorderedShotsStayValid(s.keyTimes, ins.keyTimes, ins.index, shot, s.nextId);
    Created(s.(keyTimes := ins.keyTimes, view := ins.view), ins.index)
  }

  /** `createSlide(shot)`: advances the counter of the mode, then inserts a
      manual capture through `sortImages` and appends any other shot with its
      dot opening the new counter value. Returns what `createSlide` returns. */
  function CreateSlide(s: Session, shot: Shot, caption: string): (r: Created)
    requires Valid(s) && shot in s.keyTimes
    ensures Valid(r.session)
    ensures s.byUserInput ==> r.session.frameNum == s.frameNum + 1 && r.session.keyTimesIndex == s.keyTimesIndex
    ensures !s.byUserInput ==> r.session.keyTimesIndex == s.keyTimesIndex + 1 && r.session.frameNum == s.frameNum
    ensures r.session.(keyTimes := s.keyTimes, view := s.view, frameNum := s.frameNum,
                       keyTimesIndex := s.keyTimesIndex) == s
    ensures r.session.view.slideIndex == s.view.slideIndex
    ensures |r.session.view.slides| == |s.view.slides| + 1
    ensures multiset(r.session.keyTimes) == multiset(s.keyTimes)
    ensures !shot.manual ==>
      var counter := if s.byUserInput then r.session.frameNum else r.session.keyTimesIndex;
      && r.index == |s.keyTimes|
      && r.session.keyTimes == s.keyTimes
      && r.session.view.slides == s.view.slides + [Slide(shot.id, caption, Unstyled)]
      && r.session.view.dots == s.view.dots + [Dot(shot.id, GrayDot, None, Some(counter))]
    ensures shot.manual ==>
      var k := if r.index < |s.view.slides| then r.index else |s.view.slides|;
      && SortedByTimestamp(r.session.keyTimes)
      && 0 <= r.index < |r.session.keyTimes| && r.session.keyTimes[r.index] == shot
      && r.session.view.slides[k] == Slide(shot.id, caption, Unstyled)
      && (forall j :: 0 <= j < k ==> r.session.view.slides[j] == s.view.slides[j])
      && (forall j :: k < j < |r.session.view.slides| ==> r.session.view.slides[j] == s.view.slides[j - 1])
      && r.session.view.dots[k].owner == shot.id && r.session.view.dots[k].colour == BlueDot
  {
    var counted := CountCapture(s);
    if shot.manual then InsertManualSlide(counted, shot, caption)
    else AppendSlide(counted, shot, caption)
  }

  /** A list with distinct shot identities holds a shot object at one place
      only, so the entry with the shot's identity is the shot. */
  lemma SameIdSameShot(s: seq<Shot>, i: int, x: Shot)
    requires DistinctIds(s) && x in s && 0 <= i < |s| && s[i].id == x.id
    ensures s[i] == x
  {
    var k :| 0 <= k < |s| && s[k] == x;
    assert s[k].id == s[i].id;
  }

  /** After `sortImages`, the shot found by its identity is the captured
      shot object itself, and the shot list is still valid. */
  lemma ReorderedShotsStayValid(a: seq<Shot>, b: seq<Shot>, index: int, x: Shot, bound: nat)
    requires multiset(a) == multiset(b) && DistinctIds(a) && x in a
    requires forall i :: 0 <= i < |a| ==> a[i].id < bound
    requires 0 <= index < |b| && b[index].id == x.id
    ensures DistinctIds(b) && forall i :: 0 <= i < |b| ==> b[i].id < bound
    ensures b[index] == x
  {
    DistinctAfterPermutation(a, b, bound);
    assert x in multiset(a);
    SameIdSameShot(b, index, x);
  }

  /** In a list of distinct shot objects each object occurs once. */
  lemma DistinctOccursOnce(a: seq<Shot>, k: int)
    requires DistinctIds(a) && 0 <= k < |a|
    ensures multiset(a)[a[k]] == 1
  {
    assert a == a[..k] + [a[k]] + a[k + 1..];
    assert a[k] !in a[..k];
    assert a[k] !in a[k + 1..];
  }

  /** An object occurring once in a list is found at one index only. */
  lemma OnceAtOneIndex(b: seq<Shot>, i: int, j: int)
    requires 0 <= i < j < |b| && multiset(b)[b[i]] == 1
    ensures b[i] != b[j]
  {
    assert b == b[..i] + [b[i]] + b[i + 1..j] + [b[j]] + b[j + 1..];
  }

  /** Reordering a list of distinct shot objects older than `bound` keeps
      them distinct and older than `bound`. */
  lemma DistinctAfterPermutation(a: seq<Shot>, b: seq<Shot>, bound: nat)
    requires multiset(a) == multiset(b) && DistinctIds(a)
    requires forall i :: 0 <= i < |a| ==> a[i].id < bound
    ensures DistinctIds(b) && forall i :: 0 <= i < |b| ==> b[i].id < bound
  {
    forall i | 0 <= i < |b|
      ensures b[i].id < bound
    {
      assert b[i] in multiset(a);
    }
    forall i, j | 0 <= i < j < |b|
      ensures b[i].id != b[j].id
    {
      assert b[i] in multiset(a) && b[j] in multiset(a);
      var i' :| 0 <= i' < |a| && a[i'] == b[i];
      var j' :| 0 <= j' < |a| && a[j'] == b[j];
      DistinctOccursOnce(a, i');
      OnceAtOneIndex(b, i, j);
      assert i' != j';
    }
  }

  /** The caption `displayFrame` gives a frame: "Timestamp: " after a
      `seeked` event, "Error capturing frame at " after an `error` event. The
      timestamp is whole, so `Math.round` leaves it as it is. */
  function FrameCaption(seeked: bool, secs: int): string {
    (if seeked then "Timestamp: " else "Error capturing frame at ") + GetTimestamp(secs)
  }

  /** What `displayFrame` adds to the slideshow for a captured `shot`: its
      slide, captioned with its timestamp, and its dot, opening slide
      `slideNum`. */
  function FrameEntry(shot: Shot, seeked: bool, slideNum: int): Entry {
    Entry(shot.id, FrameCaption(seeked, shot.timestamp), shot.id, Some(slideNum))
  }

  /** The decision at the end of `displayFrame`, once the slide of the shot
      at `secs` exists: in interval mode the target `secs + interval` is
      issued when it does not pass the duration; in detection mode the next
      listed shot is issued when one is left; otherwise the session
      completes and the current slide is shown. */
  function NextCapture(c: Session, secs: int, duration: int): (r: Session)
    requires Valid(c) && c.submitting && c.pending.None? && c.view.slides != []
    ensures Valid(r)
    ensures Entries(r.view) == Entries(c.view)
    ensures r.(keyTimes := c.keyTimes, pending := None, nextId := c.nextId, submitting := c.submitting,
               submitted := c.submitted, view := c.view) == c
    ensures c.byUserInput && secs + c.frameInterval <= duration ==>
      && r.keyTimes == c.keyTimes + [Shot(c.nextId, secs + c.frameInterval, false)]
      && r.pending == Some(Shot(c.nextId, secs + c.frameInterval, false))
      && r.submitting == c.submitting && r.submitted == c.submitted
    ensures !c.byUserInput && c.keyTimesIndex < |c.keyTimes| ==>
      && r.keyTimes == c.keyTimes
      && r.pending == Some(c.keyTimes[c.keyTimesIndex])
      && r.submitting == c.submitting && r.submitted == c.submitted
    ensures (if c.byUserInput then secs + c.frameInterval > duration else c.keyTimesIndex >= |c.keyTimes|) ==>
      && r.keyTimes == c.keyTimes
      && r.pending.None? && !r.submitting && r.submitted
      && 1 <= r.view.slideIndex <= |r.view.slides|
      && (forall i :: 0 <= i < |r.view.slides| ==>
            (r.view.slides[i].display == Shown <==> i == r.view.slideIndex - 1))
      && (forall i :: 0 <= i < |r.view.dots| ==>
            (r.view.dots[i].active.Some? <==> i == r.view.slideIndex - 1))
  {
    if c.byUserInput && secs + c.frameInterval <= duration then
      var next := Shot(c.nextId, secs + c.frameInterval, false);
      AppendFreshShots(c.keyTimes, [next], c.nextId);
      c.(keyTimes := c.keyTimes + [next], pending := Some(next), nextId := c.nextId + 1)
    else if !c.byUserInput && c.keyTimesIndex < |c.keyTimes| then
      c.(pending := Some(c.keyTimes[c.keyTimesIndex]))
    else
      ShowSlidesKeepsEntries(c.view, c.view.slideIndex);
      c.(submitting := false, submitted := true, view := ShowSlides(c.view, c.view.slideIndex))
  }

  /** `displayFrame(shot, event)`: the capture of the pending shot ended,
      with a `seeked` event or an `error` event; its slide is created and the
      next capture is decided. The shots of a submission are never manual
      captures, so `createSlide` takes its appending branch. */
  function DisplayFrame(s: Session, duration: int, seeked: bool): (r: Session)
    requires Valid(s) && s.pending.Some?
    ensures Valid(r)
    ensures s.byUserInput ==> r.frameNum == s.frameNum + 1 && r.keyTimesIndex == s.keyTimesIndex
    ensures !s.byUserInput ==> r.keyTimesIndex == s.keyTimesIndex + 1 && r.frameNum == s.frameNum
    ensures r.byUserInput == s.byUserInput && r.frameInterval == s.frameInterval
  {
    var shot := s.pending.value;
    var c := AppendSlide(CountCapture(s.(pending := None)), shot, FrameCaption(seeked, shot.timestamp)).session;
    NextCapture(c, shot.timestamp, duration)
  }

  /** The slide of a detected or interval shot is appended, captioned with
      its timestamp, and its dot opens the slide number the counter of the
      mode has reached. */
  lemma DisplayFrameAppendsSlide(s: Session, duration: int, seeked: bool)
    requires Valid(s) && s.pending.Some?
    ensures var r := DisplayFrame(s, duration, seeked); var shot := s.pending.value;
      Entries(r.view) == Entries(s.view) + [FrameEntry(shot, seeked, if s.byUserInput then s.frameNum + 1 else s.keyTimesIndex + 1)]
  {
    var shot := s.pending.value;
    var c0 := CountCapture(s.(pending := None));
    var c := AppendSlide(c0, shot, FrameCaption(seeked, shot.timestamp)).session;
    var e := FrameEntry(shot, seeked, Counter(c0));
    assert c0.view == s.view;
    assert Entries(c.view) == Entries(s.view) + [e];
    assert Counter(c0) == if s.byUserInput then s.frameNum + 1 else s.keyTimesIndex + 1;
    var r := NextCapture(c, shot.timestamp, duration);
    assert Entries(r.view) == Entries(c.view);
    assert DisplayFrame(s, duration, seeked) == r;
  }

  /** `DisplayFrame` as the slide creation followed by `NextCapture`. */
  lemma DisplayFrameUnfolds(s: Session, duration: int, seeked: bool)
    requires Valid(s) && s.pending.Some?
    ensures var shot := s.pending.value;
      var c := AppendSlide(CountCapture(s.(pending := None)), shot, FrameCaption(seeked, shot.timestamp)).session;
      && DisplayFrame(s, duration, seeked) == NextCapture(c, shot.timestamp, duration)
      && c.keyTimes == s.keyTimes && c.nextId == s.nextId && c.submitting && c.submitted == s.submitted
      && c.byUserInput == s.byUserInput && c.frameInterval == s.frameInterval
      && (!s.byUserInput ==> c.keyTimesIndex == s.keyTimesIndex + 1)
  {
  }

  /** In interval mode, after the shot at `t` the target `t + interval` is
      issued when it does not pass the duration. */
  lemma DisplayFrameIssuesTarget(s: Session, duration: int, seeked: bool)
    requires Valid(s) && s.pending.Some? && s.byUserInput
    requires s.pending.value.timestamp + s.frameInterval <= duration
    ensures var r := DisplayFrame(s, duration, seeked);
      var next := Shot(s.nextId, s.pending.value.timestamp + s.frameInterval, false);
      && r.keyTimes == s.keyTimes + [next] && r.pending == Some(next)
      && r.submitting && r.submitted == s.submitted
  {
    DisplayFrameUnfolds(s, duration, seeked);
  }

  /** In detection mode, after a listed shot the next listed shot is issued
      when one is left. */
  lemma DisplayFrameIssuesShot(s: Session, duration: int, seeked: bool)
    requires Valid(s) && s.pending.Some? && !s.byUserInput && s.keyTimesIndex + 1 < |s.keyTimes|
    ensures var r := DisplayFrame(s, duration, seeked);
      && r.keyTimes == s.keyTimes && r.pending == Some(s.keyTimes[s.keyTimesIndex + 1])
      && r.submitting && r.submitted == s.submitted
  {
    DisplayFrameUnfolds(s, duration, seeked);
  }

  /** When the next interval target would pass the duration, or no listed
      shot is left, the session completes with exactly one slide shown and
      one dot active. Together with the two lemmas above: the session goes
      on exactly when there is a next capture. */
  lemma DisplayFrameCompletes(s: Session, duration: int, seeked: bool)
    requires Valid(s) && s.pending.Some?
    requires if s.byUserInput then s.pending.value.timestamp + s.frameInterval > duration
             else s.keyTimesIndex + 1 >= |s.keyTimes|
    ensures var r := DisplayFrame(s, duration, seeked);
      && r.keyTimes == s.keyTimes
      && r.pending.None? && !r.submitting && r.submitted
      && 1 <= r.view.slideIndex <= |r.view.slides|
      && (forall i :: 0 <= i < |r.view.slides| ==>
            (r.view.slides[i].display == Shown <==> i == r.view.slideIndex - 1))
      && (forall i :: 0 <= i < |r.view.dots| ==>
            (r.view.dots[i].active.Some? <==> i == r.view.slideIndex - 1))
  {
    DisplayFrameUnfolds(s, duration, seeked);
  }

  /** The end of a capture as the page wires it: `onseeked` calls
      `displayFrame(shot, event)`, but `onerror` calls
      `displayFrame(undefined, event)`, which throws a `TypeError` reading
      `undefined.timestamp` before it changes anything. */
  function CaptureEndedAsWritten(s: Session, duration: int, seeked: bool): (r: Session)
    requires Valid(s) && s.pending.Some?
    ensures Valid(r)
  {
    if seeked then DisplayFrame(s, duration, true) else s
  }

  /** As written, a failed seek ends the run: no slide is added, the
      failed capture stays pending with nothing left to complete it, the
      session stays submitting, and every later submit is refused. */
  lemma ErrorEventStallsAsWritten(s: Session, duration: int)
    requires Valid(s) && s.pending.Some? && s.submitting
    ensures var r := CaptureEndedAsWritten(s, duration, false);
      && r.submitting && r.pending == s.pending && r.view.slides == s.view.slides
      && (forall fileSelected, option :: Submit(r, fileSelected, option) == r)
  {
  }

  /** Handled as intended, a failed seek adds a slide with the caption
      "Error capturing frame at M:SS" and the run goes on with the next
      shot. */
  lemma ErrorEventContinues(s: Session, duration: int)
    requires Valid(s) && s.pending.Some? && s.submitting
    ensures var r := DisplayFrame(s, duration, false); var shot := s.pending.value;
      && |r.view.slides| == |s.view.slides| + 1
      && r.view.slides[|s.view.slides|].caption == "Error capturing frame at " + GetTimestamp(shot.timestamp)
      && (!s.byUserInput && s.keyTimesIndex + 1 < |s.keyTimes| ==>
            r.submitting && r.pending == Some(s.keyTimes[s.keyTimesIndex + 1]))
  {
    var r := DisplayFrame(s, duration, false);
    DisplayFrameAppendsSlide(s, duration, false);
    assert Entries(r.view)[|s.view.slides|].caption == r.view.slides[|s.view.slides|].caption;
    if !s.byUserInput && s.keyTimesIndex + 1 < |s.keyTimes| {
      DisplayFrameIssuesShot(s, duration, false);
    }
  }

  // ---------------------------------------------------------------------
  // captureCurrentFrame
  // ---------------------------------------------------------------------

  const CameraIcon: string := "<i class=\"fa fa-camera\"></i>"

  /** `captureCurrentFrame`: a manual shot at `second` (the
      `Math.floor(video.currentTime)` of the paused video) is listed, its
      slide is inserted by `sortImages`, and the slideshow shows slide
      `index + 1`. */
  function CaptureCurrentFrame(s: Session, second: nat): (r: Session)
    requires Valid(s) && !s.submitting
    ensures Valid(r) && !r.submitting && r.submitted == s.submitted
  {
    var shot := Shot(s.nextId, second, true);
    var listed := s.(keyTimes := s.keyTimes + [shot], nextId := s.nextId + 1);
    ManualShotListed(s, second);
    ShowCreated(CreateSlide(listed, shot, CameraIcon + " Timestamp: " + GetTimestamp(second)))
  }

  /** The list with a new manual shot appended is valid, and `createSlide`
      on it leaves a valid, idle session with one more slide. */
  lemma ManualShotListed(s: Session, second: nat)
    requires Valid(s) && !s.submitting
    ensures var shot := Shot(s.nextId, second, true);
      var listed := s.(keyTimes := s.keyTimes + [shot], nextId := s.nextId + 1);
      && Valid(listed) && shot in listed.keyTimes
      && var c := CreateSlide(listed, shot, CameraIcon + " Timestamp: " + GetTimestamp(second));
      && Valid(c.session) && !c.session.submitting && c.session.submitted == s.submitted
      && |c.session.view.slides| == |s.view.slides| + 1
  {
    var shot := Shot(s.nextId, second, true);
    AppendFreshShots(s.keyTimes, [shot], s.nextId);
    var listed := s.(keyTimes := s.keyTimes + [shot], nextId := s.nextId + 1);
    assert shot == listed.keyTimes[|s.keyTimes|];
  }

  /** `slideIndex = index + 1; showSlides(slideIndex)` after `createSlide`
      returned `index`. */
  function ShowCreated(c: Created): (r: Session)
    requires 1 <= |c.session.view.slides| == |c.session.view.dots|
    ensures r == c.session.(view := r.view)
    ensures |r.view.dots| == |r.view.slides| && Entries(r.view) == Entries(c.session.view)
    ensures forall i :: 0 <= i < |r.view.dots| ==> r.view.dots[i].colour == c.session.view.dots[i].colour
    ensures 0 <= c.index < |c.session.view.slides| ==> r.view.slideIndex == c.index + 1
    ensures 1 <= r.view.slideIndex <= |r.view.slides|
    ensures forall i :: 0 <= i < |r.view.slides| ==>
      (r.view.slides[i].display == Shown <==> i == r.view.slideIndex - 1)
    ensures forall i :: 0 <= i < |r.view.dots| ==>
      (r.view.dots[i].active.Some? <==> i == r.view.slideIndex - 1)
  {
    ShowSlidesKeepsEntries(c.session.view, c.index + 1);
    c.session.(view := ShowSlides(c.session.view, c.index + 1))
  }

  /** When the slideshow follows a sorted shot list, a manual capture at
      `second` lands after every shot at or before `second`: the slideshow
      then shows the new slide, captioned with the camera icon and the
      time, and slides and dots still follow the list, each dot opening its
      own slide. */
  lemma ManualCaptureKeepsLayout(s: Session, second: nat)
    requires Valid(s) && !s.submitting
    requires SortedByTimestamp(s.keyTimes) && Mirrors(s.keyTimes, s.view) && DotsOpenOwnSlide(s.view.dots)
    ensures var r := CaptureCurrentFrame(s, second);
      var p := CountAtMost(s.keyTimes, second); var shot := Shot(s.nextId, second, true);
      && p <= |s.keyTimes|
      && r.keyTimes == s.keyTimes[..p] + [shot] + s.keyTimes[p..]
      && r.view.slideIndex == p + 1
      && r.view.slides[p].owner == shot.id && r.view.slides[p].display == Shown
      && r.view.slides[p].caption == CameraIcon + " Timestamp: " + GetTimestamp(second)
      && r.view.dots[p].colour == BlueDot && r.view.dots[p].active == Some(BlueActive)
      && Mirrors(r.keyTimes, r.view) && DotsOpenOwnSlide(r.view.dots)
  {
    var shot := Shot(s.nextId, second, true);
    var caption := CameraIcon + " Timestamp: " + GetTimestamp(second);
    var slide := Slide(shot.id, caption, Unstyled);
    var dot := Dot(shot.id, BlueDot, None, None);
    assert forall j :: 0 <= j < |s.keyTimes| ==> s.keyTimes[j].id != shot.id;
    SortImagesKeepsOrder(s.keyTimes, s.view, shot, slide, dot);
    SortImagesKeepsDotTargets(s.keyTimes, s.view, shot, slide, dot);
    SortImagesRebinds(s.keyTimes, s.view, shot, slide, dot);
    var ins := SortImages(s.keyTimes + [shot], s.view, shot, slide, dot);
    var im := CaptureCurrentFrameSorts(s, second);
    assert im.session.keyTimes == ins.keyTimes && im.session.view == ins.view && im.index == ins.index;
    var r := ShowCreated(im);
    EntriesKeepLayout(ins.keyTimes, ins.view, r.view);
    assert Entries(r.view)[ins.index] == Entries(ins.view)[ins.index];
  }

  /** Views listing the same entries follow the same shot list. */
  lemma EntriesKeepLayout(keyTimes: seq<Shot>, v: View, w: View)
    requires |v.dots| == |v.slides| && |w.dots| == |w.slides| && Entries(v) == Entries(w)
    requires Mirrors(keyTimes, v) && DotsOpenOwnSlide(v.dots)
    ensures Mirrors(keyTimes, w) && DotsOpenOwnSlide(w.dots)
  {
    forall i | 0 <= i < |w.slides|
      ensures w.slides[i].owner == v.slides[i].owner && w.dots[i].owner == v.dots[i].owner
      ensures w.dots[i].onclick == v.dots[i].onclick
    {
      assert Entries(v)[i] == Entries(w)[i];
    }
    assert SlideOwners(w.slides) == SlideOwners(v.slides);
    assert DotOwners(w.dots) == DotOwners(v.dots);
  }

  /** A manual capture lists one more shot, keeps the list sorted, adds one
      slide, and shows exactly one slide and highlights its dot. */
  lemma CaptureCurrentFrameInserts(s: Session, second: nat)
    requires Valid(s) && !s.submitting
    ensures var r := CaptureCurrentFrame(s, second); var shot := Shot(s.nextId, second, true);
      && multiset(r.keyTimes) == multiset(s.keyTimes + [shot])
      && SortedByTimestamp(r.keyTimes)
      && |r.view.slides| == |s.view.slides| + 1
      && 1 <= r.view.slideIndex <= |r.view.slides|
      && (forall i :: 0 <= i < |r.view.slides| ==>
            (r.view.slides[i].display == Shown <==> i == r.view.slideIndex - 1))
      && (forall i :: 0 <= i < |r.view.dots| ==>
            (r.view.dots[i].active.Some? <==> i == r.view.slideIndex - 1))
  {
    var im := CaptureCurrentFrameSorts(s, second);
    var r := ShowCreated(im);
  }

  /** `captureCurrentFrame` is `createSlide` of a new manual shot followed
      by `showSlides(index + 1)`; the creation goes through `sortImages`. */
  lemma CaptureCurrentFrameSorts(s: Session, second: nat) returns (im: Created)
    requires Valid(s) && !s.submitting
    ensures var shot := Shot(s.nextId, second, true);
      var caption := CameraIcon + " Timestamp: " + GetTimestamp(second);
      && shot in s.keyTimes + [shot]
      && var ins := SortImages(s.keyTimes + [shot], s.view, shot, Slide(shot.id, caption, Unstyled),
                               Dot(shot.id, BlueDot, None, None));
      && im.session.keyTimes == ins.keyTimes && im.session.view == ins.view && im.index == ins.index
      && im.session == CountCapture(s.(keyTimes := s.keyTimes + [shot], nextId := s.nextId + 1))
                         .(keyTimes := ins.keyTimes, view := ins.view)
      && multiset(im.session.keyTimes) == multiset(s.keyTimes + [shot])
      && 1 <= |im.session.view.slides| == |im.session.view.dots| == |s.view.slides| + 1
      && CaptureCurrentFrame(s, second) == ShowCreated(im)
  {
    var shot := Shot(s.nextId, second, true);
    AppendFreshShots(s.keyTimes, [shot], s.nextId);
    var listed := s.(keyTimes := s.keyTimes + [shot], nextId := s.nextId + 1);
    assert shot == listed.keyTimes[|s.keyTimes|];
    var caption := CameraIcon + " Timestamp: " + GetTimestamp(second);
    var c0 := CountCapture(listed);
    assert c0.view == s.view && c0.keyTimes == s.keyTimes + [shot];
    var ins := SortImages(s.keyTimes + [shot], s.view, shot, Slide(shot.id, caption, Unstyled),
                          Dot(shot.id, BlueDot, None, None));
    im := InsertManualSlide(c0, shot, caption);
    assert im.session.keyTimes == ins.keyTimes && im.session.view == ins.view && im.index == ins.index;
    assert im.session == c0.(keyTimes := ins.keyTimes, view := ins.view);
    assert CreateSlide(listed, shot, caption) == im;
    assert CaptureCurrentFrame(s, second) == ShowCreated(im);
  }

  // ---------------------------------------------------------------------
  // The camera button during a submission
  // ---------------------------------------------------------------------

  /** What `captureCurrentFrame` leaves behind: the state, the index
      `createSlide` resolved to, and whether it threw before showing the
      new slide. */
  datatype Attempt = Attempt(session: Session, index: int, threw: bool)

  /** `captureCurrentFrame` as the page wires it, also while a submission
      runs: `hideVideo` hides the camera button only when `submitted` is
      set (video-file-script.js:44-46), and a submission clears `submitted`
      before calling it, so a button shown after an earlier submission stays
      clickable. The manual shot joins `keyTimes`, the counter of the
      current mode advances, and `sortImages` runs as written; when its
      re-binding loop throws, the new slide is not shown. The capture
      completes exactly when every shot after the new one has a dot. */
  function CaptureCurrentFrameAsWritten(s: Session, second: nat): (r: Attempt)
    requires Valid(s)
    ensures var shot := Shot(s.nextId, second, true);
      && multiset(r.session.keyTimes) == multiset(s.keyTimes + [shot])
      && SortedByTimestamp(r.session.keyTimes) && DistinctIds(r.session.keyTimes)
      && 0 <= r.index < |r.session.keyTimes| && r.session.keyTimes[r.index] == shot
      && Counter(r.session) == Counter(s) + 1
      && r.session.(keyTimes := s.keyTimes, frameNum := s.frameNum, keyTimesIndex := s.keyTimesIndex,
                    view := s.view, nextId := s.nextId) == s
      && |r.session.view.slides| == |r.session.view.dots| == |s.view.slides| + 1
      && (!r.threw <==> forall i :: r.index < i < |r.session.keyTimes| ==>
                          r.session.keyTimes[i].id in DotOwners(s.view.dots))
      && (r.threw ==> r.session.view.slideIndex == s.view.slideIndex)
  {
    var shot := Shot(s.nextId, second, true);
    var caption := CameraIcon + " Timestamp: " + GetTimestamp(second);
    ManualSortAsWritten(s.keyTimes, s.view, shot, caption);
    var a := SortImagesAsWritten(s.keyTimes + [shot], s.view, shot, Slide(shot.id, caption, Unstyled),
                                 Dot(shot.id, BlueDot, None, None));
    var listed := s.(keyTimes := s.keyTimes + [shot], nextId := s.nextId + 1);
    var c := Created(CountCapture(listed).(keyTimes := a.ins.keyTimes, view := a.ins.view), a.ins.index);
    if a.threw then Attempt(c.session, c.index, true) else Attempt(ShowCreated(c), c.index, false)
  }

  /** `sortImages` as written on the list with a new manual shot, created
      after every listed one, appended: the list stays distinct, the index
      finds the shot itself, and the loop throws exactly when a shot after
      it has no dot. */
  lemma ManualSortAsWritten(keyTimes: seq<Shot>, v: View, shot: Shot, caption: string)
    requires DistinctIds(keyTimes) && forall i :: 0 <= i < |keyTimes| ==> keyTimes[i].id < shot.id
    ensures shot in keyTimes + [shot]
    ensures var r := SortImagesAsWritten(keyTimes + [shot], v, shot, Slide(shot.id, caption, Unstyled),
                                         Dot(shot.id, BlueDot, None, None));
      && DistinctIds(r.ins.keyTimes)
      && (forall i :: 0 <= i < |r.ins.keyTimes| ==> r.ins.keyTimes[i].id < shot.id + 1)
      && r.ins.keyTimes[r.ins.index] == shot
      && (!r.threw <==> forall i :: r.ins.index < i < |r.ins.keyTimes| ==>
                          r.ins.keyTimes[i].id in DotOwners(v.dots))
  {
    var listed := keyTimes + [shot];
    AppendFreshShots(keyTimes, [shot], shot.id);
    assert shot == listed[|keyTimes|];
    var r := SortImagesAsWritten(listed, v, shot, Slide(shot.id, caption, Unstyled), Dot(shot.id, BlueDot, None, None));
    ReorderedShotsStayValid(listed, r.ins.keyTimes, r.ins.index, shot, shot.id + 1);
    OthersAfter(r.ins.keyTimes, r.ins.index, DotOwners(v.dots));
  }

  /** On a sorted shot list, the page as written places the manual shot
      as `CaptureCurrentFrame` does: after every shot at or before
      `second`, whether or not the capture then throws. */
  lemma CaptureAsWrittenPlaces(s: Session, second: nat)
    requires Valid(s) && SortedByTimestamp(s.keyTimes)
    ensures var r := CaptureCurrentFrameAsWritten(s, second);
      var p := CountAtMost(s.keyTimes, second); var shot := Shot(s.nextId, second, true);
      && p <= |s.keyTimes| && r.index == p
      && r.session.keyTimes == s.keyTimes[..p] + [shot] + s.keyTimes[p..]
  {
    var shot := Shot(s.nextId, second, true);
    var caption := CameraIcon + " Timestamp: " + GetTimestamp(second);
    var slide := Slide(shot.id, caption, Unstyled);
    var dot := Dot(shot.id, BlueDot, None, None);
    ManualSortAsWritten(s.keyTimes, s.view, shot, caption);
    SortImagesAsWrittenAgrees(s.keyTimes + [shot], s.view, shot, slide, dot);
    assert forall j :: 0 <= j < |s.keyTimes| ==> s.keyTimes[j].id != shot.id;
    SortImagesIndex(s.keyTimes, s.view, shot, slide, dot);
    SortAppended(s.keyTimes, shot);
    SortSortedIsIdentity(s.keyTimes);
  }

  /** In a list of distinct shots, the shots after position `index` are
      other than the one at it. */
  lemma OthersAfter(shots: seq<Shot>, index: int, owners: seq<nat>)
    requires DistinctIds(shots) && 0 <= index < |shots|
    ensures (forall i :: index <= i < |shots| ==> shots[i].id == shots[index].id || shots[i].id in owners)
      <==> (forall i :: index < i < |shots| ==> shots[i].id in owners)
  {
  }

  /** With no submission running and every listed shot already on the
      slideshow, the page as written completes the capture and does what
      `CaptureCurrentFrame` models. */
  lemma IdleCaptureAgrees(s: Session, second: nat)
    requires Valid(s) && !s.submitting
    requires forall i :: 0 <= i < |s.keyTimes| ==> s.keyTimes[i].id in DotOwners(s.view.dots)
    ensures var r := CaptureCurrentFrameAsWritten(s, second);
      !r.threw && r.session == CaptureCurrentFrame(s, second)
  {
    var shot := Shot(s.nextId, second, true);
    var caption := CameraIcon + " Timestamp: " + GetTimestamp(second);
    var slide := Slide(shot.id, caption, Unstyled);
    var dot := Dot(shot.id, BlueDot, None, None);
    ManualSortAsWritten(s.keyTimes, s.view, shot, caption);
    var a := SortImagesAsWritten(s.keyTimes + [shot], s.view, shot, slide, dot);
    SortImagesAsWrittenAgrees(s.keyTimes + [shot], s.view, shot, slide, dot);
    OthersListed(a.ins.keyTimes, s.keyTimes, shot, a.ins.index, DotOwners(s.view.dots));
    var im := CaptureCurrentFrameSorts(s, second);
    assert a.ins == SortImages(s.keyTimes + [shot], s.view, shot, slide, dot);
    var c := Created(CountCapture(s.(keyTimes := s.keyTimes + [shot], nextId := s.nextId + 1))
                       .(keyTimes := a.ins.keyTimes, view := a.ins.view), a.ins.index);
    assert im == c;
  }

  /** After sorting a list with `shot` appended, every shot other than
      `shot` is a shot of the list, so it has what every listed shot has. */
  lemma OthersListed(sorted: seq<Shot>, keyTimes: seq<Shot>, shot: Shot, index: int, owners: seq<nat>)
    requires multiset(sorted) == multiset(keyTimes + [shot]) && DistinctIds(sorted)
    requires 0 <= index < |sorted| && sorted[index] == shot
    requires forall i :: 0 <= i < |keyTimes| ==> keyTimes[i].id in owners
    ensures forall i :: index < i < |sorted| ==> sorted[i].id in owners
  {
    forall i | index < i < |sorted|
      ensures sorted[i].id in owners
    {
      var x := sorted[i];
      assert x in multiset(keyTimes + [shot]);
      assert x.id != shot.id;
      assert x in keyTimes;
    }
  }

  /** A camera click at or after every listed shot, while a detection run
      captures: the capture completes and lists the manual shot last, but
      it advances `keyTimesIndex`, the run's count of captures, although
      the run captured nothing. The shot the run would capture next is
      never captured, since the index now passes over it. */
  lemma LateClickSkipsShot(s: Session, second: nat)
    requires Valid(s) && SortedByTimestamp(s.keyTimes) && !s.byUserInput
    requires forall i :: 0 <= i < |s.keyTimes| ==> s.keyTimes[i].timestamp <= second
    ensures var r := CaptureCurrentFrameAsWritten(s, second);
      && !r.threw
      && r.session.keyTimes == s.keyTimes + [Shot(s.nextId, second, true)]
      && r.session.keyTimesIndex == s.keyTimesIndex + 1
      && r.session.pending == s.pending && r.session.submitting == s.submitting
  {
    LeadingAll(s.keyTimes, second);
    SortedLeadingIsCount(s.keyTimes, second);
    CaptureAsWrittenPlaces(s, second);
    SplitAtEnds(s.keyTimes, Shot(s.nextId, second, true));
  }

  /** A camera click before every listed shot, when some listed shot has
      no dot yet (as the shots a run has not reached): `sortImages` puts the
      manual shot first, and its re-binding loop reaches the shot without a
      dot and throws. The slide is inserted but not shown, and the counter
      of the current mode has still advanced. */
  lemma EarlyClickThrows(s: Session, second: nat, j: nat)
    requires Valid(s) && SortedByTimestamp(s.keyTimes)
    requires forall i :: 0 <= i < |s.keyTimes| ==> second < s.keyTimes[i].timestamp
    requires j < |s.keyTimes| && s.keyTimes[j].id !in DotOwners(s.view.dots)
    ensures var r := CaptureCurrentFrameAsWritten(s, second);
      && r.threw && r.index == 0
      && r.session.keyTimes == [Shot(s.nextId, second, true)] + s.keyTimes
      && |r.session.view.slides| == |s.view.slides| + 1
      && r.session.view.slideIndex == s.view.slideIndex
      && Counter(r.session) == Counter(s) + 1
  {
    SortedLeadingIsCount(s.keyTimes, second);
    CaptureAsWrittenPlaces(s, second);
    SplitAtEnds(s.keyTimes, Shot(s.nextId, second, true));
    var r := CaptureCurrentFrameAsWritten(s, second);
    assert r.session.keyTimes[j + 1] == s.keyTimes[j];
  }

  /** Inserting at either end of a list. */
  lemma SplitAtEnds(xs: seq<Shot>, x: Shot)
    ensures xs[..|xs|] + [x] + xs[|xs|..] == xs + [x]
    ensures xs[..0] + [x] + xs[0..] == [x] + xs
  {
    assert xs[..|xs|] == xs && xs[|xs|..] == [] && xs[..0] == [] && xs[0..] == xs;
  }

  /** A detection run whose shots `0..j-1` have their slides and whose
      shot `j` is being captured, when the camera is clicked at or after
      every listed shot and a shot is left after `j`: the run's count of
      captures moves past shot `j + 1` while shot `j` is still pending.
      When shot `j` completes, `createSlide` raises the count to `j + 2`
      and `displayFrame` issues the shot at that position next, so shot
      `j + 1` is never captured. */
  lemma ClickDuringDetectRunSkipsShot(s0: Session, duration: int, pre: seq<bool>, second: nat)
    requires DetectStart(s0) && SortedByTimestamp(s0.keyTimes) && |pre| + 1 < |s0.keyTimes|
    requires forall i :: 0 <= i < |s0.keyTimes| ==> s0.keyTimes[i].timestamp <= second
    ensures var j := |pre|; var mid := Steps(s0, duration, pre);
      var a := CaptureCurrentFrameAsWritten(mid, second);
      && mid.submitting && mid.keyTimesIndex == j && mid.pending == Some(s0.keyTimes[j])
      && !a.threw && a.session.submitting
      && a.session.keyTimes == s0.keyTimes + [Shot(mid.nextId, second, true)]
      && a.session.pending == Some(s0.keyTimes[j])
      && a.session.keyTimesIndex == j + 1
  {
    DetectRunProgress(s0, duration, pre);
    LateClickSkipsShot(Steps(s0, duration, pre), second);
  }

  /** The same run, when the camera is clicked before every listed shot
      and shot `j` had no dot before the run: the manual shot sorts first,
      the re-binding loop reaches shot `j`, whose slide does not exist yet,
      and `setOnclickFunction(undefined, ...)` throws a `TypeError`. The
      slide is inserted but not shown, and the run's count of captures has
      still advanced. */
  lemma ClickDuringDetectRunThrows(s0: Session, duration: int, pre: seq<bool>, second: nat)
    requires DetectStart(s0) && SortedByTimestamp(s0.keyTimes) && |pre| < |s0.keyTimes|
    requires forall i :: 0 <= i < |s0.keyTimes| ==> second < s0.keyTimes[i].timestamp
    requires s0.keyTimes[|pre|].id !in DotOwners(s0.view.dots)
    ensures var j := |pre|; var mid := Steps(s0, duration, pre);
      var a := CaptureCurrentFrameAsWritten(mid, second);
      && mid.submitting && mid.pending == Some(s0.keyTimes[j])
      && a.threw && a.index == 0
      && a.session.keyTimes == [Shot(mid.nextId, second, true)] + s0.keyTimes
      && |a.session.view.slides| == |mid.view.slides| + 1
      && a.session.view.slideIndex == mid.view.slideIndex
      && a.session.keyTimesIndex == j + 1
  {
    var mid := Steps(s0, duration, pre);
    DetectRunProgress(s0, duration, pre);
    PendingHasNoDot(s0, duration, pre);
    EarlyClickThrows(mid, second, |pre|);
  }

  /** The shot a detection run captures has no dot yet, when it had none
      before the run. */
  lemma PendingHasNoDot(s0: Session, duration: int, pre: seq<bool>)
    requires DetectStart(s0) && |pre| < |s0.keyTimes|
    requires s0.keyTimes[|pre|].id !in DotOwners(s0.view.dots)
    ensures s0.keyTimes[|pre|].id !in DotOwners(Steps(s0, duration, pre).view.dots)
  {
    var v := Steps(s0, duration, pre).view;
    var n := |s0.view.dots|;
    var id := s0.keyTimes[|pre|].id;
    DetectRunEntries(s0, duration, pre);
    DetectRunProgress(s0, duration, pre);
    forall i | 0 <= i < |v.dots|
      ensures v.dots[i].owner != id
    {
      assert Entries(v)[i].dotOwner == v.dots[i].owner;
      if i < n {
        assert Entries(s0.view)[i].dotOwner == s0.view.dots[i].owner;
        assert DotOwners(s0.view.dots)[i] == s0.view.dots[i].owner;
      } else {
        assert RunEntries(s0.keyTimes, pre)[i - n].dotOwner == s0.keyTimes[i - n].id;
      }
    }
  }

  /** The camera button as evidently intended: it does nothing while a
      submission runs, and captures the current frame otherwise. */
  function CameraClick(s: Session, second: nat): (r: Session)
    requires Valid(s)
    ensures Valid(r) && r.submitting == s.submitting
    ensures s.submitting ==> r == s
    ensures !s.submitting ==> r == CaptureCurrentFrame(s, second)
  {
    if s.submitting then s else CaptureCurrentFrame(s, second)
  }

  /** After a submission for manual capture the page waits for the user:
      nothing is listed or pending, the camera button captures the current
      frame, and the next submission is accepted. */
  lemma ManualSetupWaits(s: Session, second: nat)
    requires Valid(s) && !s.submitting
    ensures var r := Submit(s, true, ManualOption);
      && r == SetupManualCapture(Reset(s))
      && r.keyTimes == [] && r.pending.None? && r.submitted
      && CameraClick(r, second) == CaptureCurrentFrame(r, second)
      && |CaptureCurrentFrame(r, second).keyTimes| == 1
      && Submit(r, true, DetectOption).submitting
  {
    var r := Submit(s, true, ManualOption);
    CaptureCurrentFrameInserts(r, second);
  }

  /** Running the completions of a run in two parts is running them all. */
  lemma {:induction false} StepsCompose(s: Session, duration: int, pre: seq<bool>, post: seq<bool>)
    requires Valid(s)
    ensures Steps(Steps(s, duration, pre), duration, post) == Steps(s, duration, pre + post)
    decreases |post|
  {
    if |post| == 0 {
      assert pre + post == pre;
    } else {
      var all := pre + post;
      var mid := Steps(s, duration, pre);
      StepsCompose(s, duration, pre, post[..|post| - 1]);
      assert all[..|all| - 1] == pre + post[..|post| - 1];
      assert all[|all| - 1] == post[|post| - 1];
      StepsUnfold(s, duration, all);
      StepsUnfold(mid, duration, post);
    }
  }

  /** One more completion of a run. */
  lemma StepsUnfold(s: Session, duration: int, seeks: seq<bool>)
    requires Valid(s) && |seeks| > 0
    ensures var p := Steps(s, duration, seeks[..|seeks| - 1]);
      Steps(s, duration, seeks) == if p.pending.None? then p else DisplayFrame(p, duration, seeks[|seeks| - 1])
  {
  }

  /** With the button inert during a run, a click in the middle of a
      detection run changes nothing: the run goes on as if there had been
      no click and captures every listed shot, in order. */
  lemma ClickDuringRunKeepsRun(s0: Session, duration: int, pre: seq<bool>, post: seq<bool>, second: nat)
    requires DetectStart(s0) && |pre| < |s0.keyTimes| && |pre| + |post| == |s0.keyTimes|
    ensures var mid := Steps(s0, duration, pre);
      && CameraClick(mid, second) == mid && mid.pending == Some(s0.keyTimes[|pre|])
      && var s := Steps(CameraClick(mid, second), duration, post);
      && s == Steps(s0, duration, pre + post)
      && s.keyTimes == s0.keyTimes && s.keyTimesIndex == |s0.keyTimes| && !s.submitting
      && Entries(s.view) == Entries(s0.view) + RunEntries(s0.keyTimes, pre + post)
  {
    DetectRunProgress(s0, duration, pre);
    StepsCompose(s0, duration, pre, post);
    DetectRunProgress(s0, duration, pre + post);
    DetectRunEntries(s0, duration, pre + post);
  }

  // ---------------------------------------------------------------------
  // Whole runs
  // ---------------------------------------------------------------------

  /** The state after the pending captures have ended, one after the
      other, with the given outcomes (`true` for a `seeked` event); once
      nothing is pending, nothing more happens. */
  function Steps(s: Session, duration: int, seeks: seq<bool>): (r: Session)
    requires Valid(s)
    ensures Valid(r)
    decreases |seeks|
  {
    if |seeks| == 0 then s
    else
      var p := Steps(s, duration, seeks[..|seeks| - 1]);
      if p.pending.None? then p else DisplayFrame(p, duration, seeks[|seeks| - 1])
  }

  /** The last completion of a run. */
  lemma StepsLast(s0: Session, duration: int, seeks: seq<bool>)
    requires Valid(s0) && |seeks| > 0
    ensures var p := Steps(s0, duration, seeks[..|seeks| - 1]);
      p.pending.Some? ==> Steps(s0, duration, seeks) == DisplayFrame(p, duration, seeks[|seeks| - 1])
  {
  }

  /** The position of the first failed seek among the outcomes, or their
      number when every seek succeeded. */
  function FirstError(seeks: seq<bool>): (r: nat)
    ensures r <= |seeks|
    ensures forall j :: 0 <= j < r ==> seeks[j]
    ensures r < |seeks| ==> !seeks[r]
    decreases |seeks|
  {
    if |seeks| == 0 || !seeks[0] then 0 else 1 + FirstError(seeks[1..])
  }

  /** A run as the page wires it: the captures before the first failed
      seek complete as in `Steps`; the failed one calls
      `displayFrame(undefined, event)`, which throws before changing
      anything, and no capture is started after it, so the outcomes that
      follow never happen. */
  function StepsAsWritten(s: Session, duration: int, seeks: seq<bool>): (r: Session)
    requires Valid(s)
    ensures Valid(r)
  {
    Steps(s, duration, seeks[..FirstError(seeks)])
  }

  /** When every seek succeeds, the page as written and the model of
      `Steps` agree. */
  lemma StepsAsWrittenAgrees(s: Session, duration: int, seeks: seq<bool>)
    requires Valid(s) && forall j :: 0 <= j < |seeks| ==> seeks[j]
    ensures StepsAsWritten(s, duration, seeks) == Steps(s, duration, seeks)
  {
    assert FirstError(seeks) == |seeks|;
    assert seeks[..|seeks|] == seeks;
  }

  /** As written, the first failed seek freezes the run: the failing
      capture's error event leaves the state as it was, the state is the one
      the successful captures before it reached, and the outcomes after it
      change nothing. */
  lemma FailedSeekFreezesRun(s: Session, duration: int, seeks: seq<bool>, more: seq<bool>)
    requires Valid(s) && FirstError(seeks) < |seeks|
    ensures var p := Steps(s, duration, seeks[..FirstError(seeks)]);
      && StepsAsWritten(s, duration, seeks) == p
      && StepsAsWritten(s, duration, seeks + more) == p
      && (p.pending.Some? ==> CaptureEndedAsWritten(p, duration, seeks[FirstError(seeks)]) == p)
  {
    var e := FirstError(seeks);
    FirstErrorExtends(seeks, more);
    assert (seeks + more)[..e] == seeks[..e];
  }

  /** Outcomes appended after a failed seek do not move the first failure. */
  lemma {:induction false} FirstErrorExtends(seeks: seq<bool>, more: seq<bool>)
    requires FirstError(seeks) < |seeks|
    ensures FirstError(seeks + more) == FirstError(seeks)
    decreases |seeks|
  {
    if seeks[0] {
      assert (seeks + more)[1..] == seeks[1..] + more;
      FirstErrorExtends(seeks[1..], more);
    }
  }

  /** As written, a detection run captures the listed shots up to the
      first failed seek and stops there for good: `keyTimesIndex` counts the
      successful captures, and when a seek failed the session stays
      submitting with that shot pending, refusing every later submit. */
  lemma DetectRunAsWritten(s0: Session, duration: int, seeks: seq<bool>)
    requires DetectStart(s0) && |seeks| <= |s0.keyTimes|
    ensures var s := StepsAsWritten(s0, duration, seeks); var e := FirstError(seeks);
      && s.keyTimes == s0.keyTimes && s.keyTimesIndex == e
      && (e < |seeks| ==>
            && s.submitting && s.pending == Some(s0.keyTimes[e])
            && forall fileSelected, option :: Submit(s, fileSelected, option) == s)
      && (e == |s0.keyTimes| ==> !s.submitting && s.submitted)
  {
    var e := FirstError(seeks);
    DetectRunProgress(s0, duration, seeks[..e]);
  }

  /** The entries a run appends when it captures `shots[0..j)` with
      outcomes `seeks` (`j = |seeks|`): each shot's slide, captioned with its
      timestamp, and its dot, opening slides `1..j`. */
  function RunEntries(shots: seq<Shot>, seeks: seq<bool>): (r: seq<Entry>)
    requires |seeks| <= |shots|
    ensures |r| == |seeks|
    ensures forall k :: 0 <= k < |seeks| ==>
      r[k] == FrameEntry(shots[k], seeks[k], k + 1)
  {
    seq(|seeks|, k requires 0 <= k < |seeks| =>
      FrameEntry(shots[k], seeks[k], k + 1))
  }

  lemma RunEntriesStep(shots: seq<Shot>, seeks: seq<bool>)
    requires 0 < |seeks| <= |shots|
    ensures var j := |seeks|;
      RunEntries(shots, seeks) == RunEntries(shots, seeks[..j - 1])
        + [FrameEntry(shots[j - 1], seeks[j - 1], j)]
  {
    var j := |seeks|;
    var pre := seeks[..j - 1];
    var e := FrameEntry(shots[j - 1], seeks[j - 1], j);
    var a := RunEntries(shots, seeks);
    var b := RunEntries(shots, pre);
    forall k | 0 <= k < |b|
      ensures a[k] == b[k]
    {
      assert pre[k] == seeks[k];
    }
    AppendOne(a, b, e);
  }

  /** A session whose detection response has just arrived with shots. */
  predicate DetectStart(s: Session) {
    && Valid(s) && s.submitting && !s.byUserInput && s.keyTimesIndex == 0
    && |s.keyTimes| > 0 && s.pending == Some(s.keyTimes[0])
  }

  /** In detection mode the listed shots are captured one after the other:
      after `j` completed captures the list is unchanged, `keyTimesIndex` is
      `j`, the shot at position `j` is pending, and after the last one the
      session completes. */
  lemma {:induction false} DetectRunProgress(s0: Session, duration: int, seeks: seq<bool>)
    requires DetectStart(s0) && |seeks| <= |s0.keyTimes|
    ensures var s := Steps(s0, duration, seeks); var j := |seeks|;
      && s.keyTimes == s0.keyTimes && s.keyTimesIndex == j && !s.byUserInput
      && (j < |s0.keyTimes| ==> s.pending == Some(s0.keyTimes[j]) && s.submitting)
      && (j == |s0.keyTimes| ==> s.pending.None? && !s.submitting && s.submitted)
    decreases |seeks|
  {
    var j := |seeks|;
    if j > 0 {
      var pre := seeks[..j - 1];
      DetectRunProgress(s0, duration, pre);
      StepsLast(s0, duration, seeks);
      var p := Steps(s0, duration, pre);
      if j < |s0.keyTimes| {
        DisplayFrameIssuesShot(p, duration, seeks[j - 1]);
      } else {
        DisplayFrameCompletes(p, duration, seeks[j - 1]);
      }
    }
  }

  /** In detection mode each listed shot gets one slide, in list order:
      after `j` completed captures one entry per shot `0..j-1` was appended,
      captioned with the shot's timestamp, with a dot opening slide `k + 1`
      for the `k`-th. */
  lemma {:induction false} DetectRunEntries(s0: Session, duration: int, seeks: seq<bool>)
    requires DetectStart(s0) && |seeks| <= |s0.keyTimes|
    ensures Entries(Steps(s0, duration, seeks).view) == Entries(s0.view) + RunEntries(s0.keyTimes, seeks)
    decreases |seeks|
  {
    var j := |seeks|;
    if j == 0 {
      assert RunEntries(s0.keyTimes, seeks) == [];
    } else {
      var pre := seeks[..j - 1];
      DetectRunEntries(s0, duration, pre);
      DetectRunProgress(s0, duration, pre);
      var p := Steps(s0, duration, pre);
      StepsLast(s0, duration, seeks);
      DetectEntryAppended(p, duration, seeks[j - 1]);
      RunEntriesStep(s0.keyTimes, seeks);
      ChainAppend(Entries(Steps(s0, duration, seeks).view), Entries(p.view), Entries(s0.view),
                  RunEntries(s0.keyTimes, pre), RunEntries(s0.keyTimes, seeks),
                  FrameEntry(s0.keyTimes[j - 1], seeks[j - 1], j));
    }
  }

  /** A completed capture in detection mode appends the entry of the
      pending shot, whose dot opens the slide numbered by the captures so
      far. */
  lemma DetectEntryAppended(p: Session, duration: int, seeked: bool)
    requires Valid(p) && p.pending.Some? && !p.byUserInput
    ensures Entries(DisplayFrame(p, duration, seeked).view)
      == Entries(p.view) + [FrameEntry(p.pending.value, seeked, p.keyTimesIndex + 1)]
  {
    DisplayFrameAppendsSlide(p, duration, seeked);
  }

  /** A session whose fixed-interval capture has just begun: the interval
      is positive and its first target is listed and pending. */
  predicate IntervalStart(s: Session) {
    && Valid(s) && s.submitting && s.byUserInput && s.frameInterval > 0 && s.frameNum == 0
    && |s.keyTimes| == 1 && s.keyTimes[0].timestamp == s.frameInterval && s.pending == Some(s.keyTimes[0])
  }

  /** A fixed-interval session after `j` completed captures, `j` below the
      number of targets `k`: the targets `interval·1 … interval·(j+1)` are
      listed and the last of them is pending. */
  predicate IntervalAt(s: Session, interval: int, j: nat) {
    && Valid(s) && s.submitting && s.byUserInput && s.frameInterval == interval && s.frameNum == j
    && |s.keyTimes| == j + 1 && s.pending == Some(s.keyTimes[j])
    && forall i :: 0 <= i <= j ==> s.keyTimes[i].timestamp == interval * (i + 1)
  }

  /** One completed capture in fixed-interval mode: target `j + 1` is
      issued if it lies within the video, otherwise the session completes. */
  lemma IntervalStep(s: Session, duration: int, seeked: bool, interval: int, j: nat)
    requires interval > 0 && IntervalAt(s, interval, j)
    ensures var r := DisplayFrame(s, duration, seeked);
      && (j + 1 < IntervalCount(interval, duration) ==>
            IntervalAt(r, interval, j + 1) && r.keyTimes == s.keyTimes + [Shot(s.nextId, interval * (j + 2), false)])
      && (j + 1 >= IntervalCount(interval, duration) ==>
            r.keyTimes == s.keyTimes && r.frameNum == j + 1 && r.pending.None? && !r.submitting && r.submitted)
  {
    MulStep(interval, j + 1);
    MultipleBelow(j + 2, interval, duration);
    if j + 1 < IntervalCount(interval, duration) {
      DisplayFrameIssuesTarget(s, duration, seeked);
      IntervalAtNext(s, DisplayFrame(s, duration, seeked), interval, j);
    } else {
      DisplayFrameCompletes(s, duration, seeked);
    }
  }

  /** Listing and issuing target `j + 2` after target `j + 1` keeps the
      shape of an interval run. */
  lemma IntervalAtNext(s: Session, r: Session, interval: int, j: nat)
    requires IntervalAt(s, interval, j) && Valid(r) && r.submitting
    requires r.byUserInput && r.frameInterval == interval && r.frameNum == j + 1
    requires r.keyTimes == s.keyTimes + [Shot(s.nextId, interval * (j + 2), false)]
    requires r.pending == Some(Shot(s.nextId, interval * (j + 2), false))
    ensures IntervalAt(r, interval, j + 1)
  {
    assert r.keyTimes[j + 1] == Shot(s.nextId, interval * (j + 2), false);
    forall i | 0 <= i <= j + 1
      ensures r.keyTimes[i].timestamp == interval * (i + 1)
    {
      if i <= j {
        assert r.keyTimes[i] == s.keyTimes[i];
      }
    }
  }

  /** In fixed-interval mode the session captures exactly the targets
      `interval·1, …, interval·k`, `k = max(1, floor(duration / interval))`,
      one after the other: after `j < k` completed captures the first
      `j + 1` targets are listed and target `j + 1` is pending, and after
      `k` captures the session completes. */
  lemma {:induction false} IntervalRunProgress(s0: Session, duration: int, seeks: seq<bool>)
    requires IntervalStart(s0) && |seeks| <= IntervalCount(s0.frameInterval, duration)
    ensures var s := Steps(s0, duration, seeks); var j := |seeks|;
      && (j < IntervalCount(s0.frameInterval, duration) ==> IntervalAt(s, s0.frameInterval, j))
      && (j == IntervalCount(s0.frameInterval, duration) ==>
            && |s.keyTimes| == j && s.frameNum == j
            && (forall i :: 0 <= i < j ==> s.keyTimes[i].timestamp == s0.frameInterval * (i + 1))
            && s.pending.None? && !s.submitting && s.submitted)
    decreases |seeks|
  {
    var j := |seeks|;
    if j > 0 {
      var pre := seeks[..j - 1];
      IntervalRunProgress(s0, duration, pre);
      StepsLast(s0, duration, seeks);
      IntervalStep(Steps(s0, duration, pre), duration, seeks[j - 1], s0.frameInterval, j - 1);
    }
  }

  function Timestamps(shots: seq<Shot>): (r: seq<int>)
    ensures |r| == |shots| && forall k :: 0 <= k < |shots| ==> r[k] == shots[k].timestamp
  {
    seq(|shots|, k requires 0 <= k < |shots| => shots[k].timestamp)
  }

  lemma TimestampsAreMultiples(ks: seq<Shot>, interval: int)
    requires forall i :: 0 <= i < |ks| ==> ks[i].timestamp == interval * (i + 1)
    ensures Timestamps(ks) == seq(|ks|, j => interval * (j + 1))
  {
  }

  /** A completed fixed-interval run captured exactly the schedule
      `IntervalTargets`. */
  lemma IntervalRunCapturesTargets(s0: Session, duration: int, seeks: seq<bool>)
    requires IntervalStart(s0) && |seeks| == IntervalCount(s0.frameInterval, duration)
    ensures Timestamps(Steps(s0, duration, seeks).keyTimes) == IntervalTargets(s0.frameInterval, duration)
  {
    IntervalRunProgress(s0, duration, seeks);
    IntervalTargetsClosedForm(s0.frameInterval, duration);
    TimestampsAreMultiples(Steps(s0, duration, seeks).keyTimes, s0.frameInterval);
  }

  /** The entries a run lists depend only on the shots it captured. */
  lemma RunEntriesPrefix(a: seq<Shot>, b: seq<Shot>, seeks: seq<bool>)
    requires |seeks| <= |a| <= |b| && b[..|a|] == a
    ensures RunEntries(a, seeks) == RunEntries(b, seeks)
  {
    forall k | 0 <= k < |seeks|
      ensures a[k] == b[k]
    {
      assert a[k] == b[..|a|][k];
    }
  }

  /** In fixed-interval mode each target gets one slide, in capture order,
      captioned with its timestamp, with a dot opening slide `j` for the
      `j`-th capture. */
  lemma {:induction false} IntervalRunEntries(s0: Session, duration: int, seeks: seq<bool>)
    requires IntervalStart(s0) && |seeks| <= IntervalCount(s0.frameInterval, duration)
    ensures var s := Steps(s0, duration, seeks);
      |seeks| <= |s.keyTimes| && Entries(s.view) == Entries(s0.view) + RunEntries(s.keyTimes, seeks)
    decreases |seeks|
  {
    var j := |seeks|;
    if j == 0 {
      assert Steps(s0, duration, seeks) == s0;
      assert RunEntries(s0.keyTimes, seeks) == [];
    } else {
      var pre := seeks[..j - 1];
      IntervalRunEntries(s0, duration, pre);
      IntervalRunProgress(s0, duration, pre);
      var p := Steps(s0, duration, pre);
      StepsLast(s0, duration, seeks);
      assert Steps(s0, duration, seeks) == DisplayFrame(p, duration, seeks[j - 1]);
      SplitLast(seeks);
      IntervalEntriesStep(p, duration, seeks[j - 1], s0.frameInterval, pre, Entries(s0.view));
    }
  }

  /** One completed capture in fixed-interval mode appends the entry of
      the pending target to what the run has listed so far. */
  lemma IntervalEntriesStep(p: Session, duration: int, seeked: bool, interval: int, pre: seq<bool>, base: seq<Entry>)
    requires interval > 0 && IntervalAt(p, interval, |pre|)
    requires Entries(p.view) == base + RunEntries(p.keyTimes, pre)
    ensures var s := DisplayFrame(p, duration, seeked);
      |pre| + 1 <= |s.keyTimes| && Entries(s.view) == base + RunEntries(s.keyTimes, pre + [seeked])
  {
    var j := |pre| + 1;
    var seeks := pre + [seeked];
    var s := DisplayFrame(p, duration, seeked);
    IntervalPrefix(p, duration, seeked, interval, j - 1);
    DisplayFrameAppendsSlide(p, duration, seeked);
    assert seeks[..j - 1] == pre;
    RunEntriesPrefix(p.keyTimes, s.keyTimes, pre);
    RunEntriesStep(s.keyTimes, seeks);
    ChainAppend(Entries(s.view), Entries(p.view), base,
                RunEntries(s.keyTimes, pre), RunEntries(s.keyTimes, seeks),
                FrameEntry(s.keyTimes[j - 1], seeked, j));
  }

  /** A capture in fixed-interval mode keeps the listed shots in place. */
  lemma IntervalPrefix(s: Session, duration: int, seeked: bool, interval: int, j: nat)
    requires interval > 0 && IntervalAt(s, interval, j)
    ensures var r := DisplayFrame(s, duration, seeked);
      j + 1 <= |r.keyTimes| && r.keyTimes[..j + 1] == s.keyTimes && r.keyTimes[j] == s.pending.value
  {
    IntervalStep(s, duration, seeked, interval, j);
    var r := DisplayFrame(s, duration, seeked);
    if j + 1 < IntervalCount(interval, duration) {
      assert r.keyTimes == s.keyTimes + [Shot(s.nextId, interval * (j + 2), false)];
    } else {
      assert r.keyTimes == s.keyTimes;
    }
  }

  // ---------------------------------------------------------------------
  // From the submit button to a run
  // ---------------------------------------------------------------------

  /** Submitting a file with a positive interval starts a fixed-interval run. */
  lemma SubmitIntervalStarts(s: Session, interval: int)
    requires Valid(s) && !s.submitting && interval > 0
    ensures IntervalStart(Submit(s, true, IntervalOption(interval)))
  {
  }

  /** Submitting a file for shot detection, then receiving a non-empty
      response, starts a detection run over the response's shots. */
  lemma DetectResponseStarts(s: Session, response: seq<ApiShot>, promptAnswer: Option<int>)
    requires Valid(s) && !s.submitting && |response| > 0
    ensures var t := Submit(s, true, DetectOption);
      var r := ShotsReceived(t, response, promptAnswer);
      DetectStart(r) && r.keyTimes == ShotsFromApi(response, s.nextId)
  {
    var t := Submit(s, true, DetectOption);
    assert t.keyTimes == [];
    assert [] + ShotsFromApi(response, s.nextId) == ShotsFromApi(response, s.nextId);
  }

  /** With no shot detected and a positive interval entered at the prompt,
      a fixed-interval run starts. */
  lemma PromptedIntervalStarts(s: Session, interval: int)
    requires Valid(s) && !s.submitting && interval > 0
    ensures IntervalStart(ShotsReceived(Submit(s, true, DetectOption), [], Some(interval)))
  {
  }

  /** A session waiting with nothing pending. */
  predicate Stalled(s: Session) {
    Valid(s) && s.submitting && s.pending.None?
  }

  /** Nothing pending: no capture can complete, so nothing happens. */
  lemma {:induction false} StepsIdle(s: Session, duration: int, seeks: seq<bool>)
    requires Valid(s) && s.pending.None?
    ensures Steps(s, duration, seeks) == s
    decreases |seeks|
  {
    if |seeks| > 0 {
      StepsIdle(s, duration, seeks[..|seeks| - 1]);
    }
  }

  /** With no shot detected and the prompt answered with `NaN` (as
      written, the answer ".5": its `Number` is 0.5, so the loop lets it
      through, and its `parseInt` is `NaN`), the session stays in its
      submitting state with nothing pending: no capture ever completes and
      every later submit is refused, although the prompt offers Cancel "to
      submit another file". */
  lemma UnansweredPromptStalls(s: Session)
    requires Valid(s) && !s.submitting
    ensures PromptAsWritten([Typed(Some(0.5), None)]) == Returned(None)
    ensures var r := ShotsReceived(Submit(s, true, DetectOption), [], None);
      && Stalled(r) && r.keyTimes == [] && !r.byUserInput
      && (forall duration, seeks :: Steps(r, duration, seeks) == r)
      && (forall fileSelected, option :: Submit(r, fileSelected, option) == r)
  {
    var r := ShotsReceived(Submit(s, true, DetectOption), [], None);
    forall duration, seeks
      ensures Steps(r, duration, seeks) == r
    {
      StepsIdle(r, duration, seeks);
    }
  }

  /** The response handling as the prompt's message promises ("click
      Cancel to submit another file"): when no shot was detected and no
      interval was given, the submission ends, so that another file can be
      submitted. Every other case is handled as the page handles it. */
  function ShotsReceivedCorrected(s: Session, response: seq<ApiShot>, promptAnswer: Option<int>): (r: Session)
    requires Valid(s) && s.submitting && s.keyTimesIndex == 0 && s.pending.None?
    ensures Valid(r)
    ensures |s.keyTimes| + |response| == 0 && promptAnswer.None? ==>
      && !r.submitting && r.pending.None? && r.keyTimes == [] && r.view == s.view
    ensures !(|s.keyTimes| + |response| == 0 && promptAnswer.None?) ==>
      r == ShotsReceived(s, response, promptAnswer)
  {
    var r := ShotsReceived(s, response, promptAnswer);
    if |s.keyTimes| + |response| == 0 && promptAnswer.None? then r.(submitting := false) else r
  }

  /** Corrected, a `NaN` answer after detection found no shot ends the
      submission: the next submit of a file is accepted, whatever option it
      chooses, where the page as written refuses it. */
  lemma CancelledPromptAllowsResubmit(s: Session)
    requires Valid(s) && !s.submitting
    ensures var r := ShotsReceivedCorrected(Submit(s, true, DetectOption), [], None);
      && !r.submitting && r.pending.None? && r.keyTimes == []
      && (forall option :: Submit(r, true, option) != r)
      && Submit(r, true, DetectOption).submitting && Submit(r, true, DetectOption).keyTimes == []
  {
  }

  /** A run's entries lay the slideshow out along the captured shots: slide
      and dot `k` belong to shot `k`, and dot `k` opens slide `k + 1`. */
  lemma RunLayout(v: View, shots: seq<Shot>, seeks: seq<bool>)
    requires |v.dots| == |v.slides| && |seeks| == |shots|
    requires Entries(v) == RunEntries(shots, seeks)
    ensures Mirrors(shots, v) && DotsOpenOwnSlide(v.dots)
  {
    forall k | 0 <= k < |shots|
      ensures v.slides[k].owner == shots[k].id && v.dots[k].owner == shots[k].id
      ensures v.dots[k].onclick == Some(k + 1)
    {
      assert Entries(v)[k] == RunEntries(shots, seeks)[k];
    }
    assert SlideOwners(v.slides) == Ids(shots);
    assert DotOwners(v.dots) == Ids(shots);
  }

  /** A detection run into an empty slideshow ends with the slides and
      dots following the detected shots, each dot opening its own slide. */
  lemma DetectRunLayout(s0: Session, duration: int, seeks: seq<bool>)
    requires DetectStart(s0) && s0.view.slides == [] && |seeks| == |s0.keyTimes|
    ensures var s := Steps(s0, duration, seeks);
      Mirrors(s.keyTimes, s.view) && DotsOpenOwnSlide(s.view.dots) && !s.submitting
  {
    DetectRunEntries(s0, duration, seeks);
    DetectRunProgress(s0, duration, seeks);
    var s := Steps(s0, duration, seeks);
    assert Entries(s0.view) == [];
    EmptyBase(Entries(s.view), Entries(s0.view), RunEntries(s0.keyTimes, seeks));
    RunLayout(s.view, s.keyTimes, seeks);
  }

  /** The same for a fixed-interval run. */
  lemma IntervalRunLayout(s0: Session, duration: int, seeks: seq<bool>)
    requires IntervalStart(s0) && s0.view.slides == [] && |seeks| == IntervalCount(s0.frameInterval, duration)
    ensures var s := Steps(s0, duration, seeks);
      Mirrors(s.keyTimes, s.view) && DotsOpenOwnSlide(s.view.dots) && !s.submitting
  {
    IntervalRunEntries(s0, duration, seeks);
    IntervalRunProgress(s0, duration, seeks);
    var s := Steps(s0, duration, seeks);
    var shots := s.keyTimes;
    assert |shots| == |seeks|;
    assert Entries(s0.view) == [];
    EmptyBase(Entries(s.view), Entries(s0.view), RunEntries(shots, seeks));
    RunLayout(s.view, shots, seeks);
  }

  // ---------------------------------------------------------------------
  // An interval of zero
  // ---------------------------------------------------------------------

  /** A fixed-interval session whose interval is zero, capturing at second 0. */
  predicate ZeroIntervalRun(s: Session) {
    && Valid(s) && s.submitting && s.byUserInput && s.frameInterval == 0
    && s.pending.Some? && s.pending.value.timestamp == 0
  }

  /** With an interval of zero the next target `0 + 0` never passes the
      duration: every completed capture issues another one at second 0 and
      appends one more slide, and the session never completes. */
  lemma {:induction false} ZeroIntervalNeverCompletes(s0: Session, duration: int, seeks: seq<bool>)
    requires ZeroIntervalRun(s0) && duration >= 0
    ensures var s := Steps(s0, duration, seeks);
      ZeroIntervalRun(s) && |s.view.slides| == |s0.view.slides| + |seeks|
    decreases |seeks|
  {
    if |seeks| > 0 {
      var pre := seeks[..|seeks| - 1];
      ZeroIntervalNeverCompletes(s0, duration, pre);
      var p := Steps(s0, duration, pre);
      StepsLast(s0, duration, seeks);
      DisplayFrameIssuesTarget(p, duration, seeks[|seeks| - 1]);
      DisplayFrameAppendsSlide(p, duration, seeks[|seeks| - 1]);
    }
  }

  /** As written, answering the interval prompt with "0.5" after detection
      found no shot starts a capture at interval zero, which never ends,
      whether or not some seek fails. */
  lemma FractionalAnswerNeverCompletes(s: Session, duration: int, seeks: seq<bool>)
    requires Valid(s) && !s.submitting && duration >= 0
    ensures var answer := PromptAsWritten([Typed(Some(0.5), Some(0))]);
      && answer == Returned(Some(0))
      && var r := StepsAsWritten(ShotsReceived(Submit(s, true, DetectOption), [], answer.interval), duration, seeks);
      && r.submitting && r.pending.Some?
  {
    var r0 := ShotsReceived(Submit(s, true, DetectOption), [], Some(0));
    assert ZeroIntervalRun(r0);
    ZeroIntervalNeverCompletes(r0, duration, seeks[..FirstError(seeks)]);
  }

  /** With the corrected prompt and the corrected response handling,
      detection finding no shot leads either to the end of the submission
      (Cancel), after which another file can be submitted, or to a
      fixed-interval run with an interval of at least one, which completes
      after `IntervalCount` captures. */
  lemma CorrectedPromptRunCompletes(s: Session, answers: seq<Answer>, duration: int, seeks: seq<bool>)
    requires Valid(s) && !s.submitting && PromptNumberInput(answers).Returned?
    ensures var answer := PromptNumberInput(answers).interval;
      var r0 := ShotsReceivedCorrected(Submit(s, true, DetectOption), [], answer);
      && (answer.None? ==> !r0.submitting && forall option :: Submit(r0, true, option) != r0)
      && (answer.Some? ==>
            && answer.value >= 1 && IntervalStart(r0)
            && (|seeks| == IntervalCount(answer.value, duration) ==> !Steps(r0, duration, seeks).submitting))
  {
    var answer := PromptNumberInput(answers).interval;
    if answer.Some? {
      PromptedIntervalStarts(s, answer.value);
      var r0 := ShotsReceived(Submit(s, true, DetectOption), [], answer);
      if |seeks| == IntervalCount(answer.value, duration) {
        IntervalRunProgress(r0, duration, seeks);
      }
    }
  }

  lemma EmptyBase<T>(x: seq<T>, base: seq<T>, y: seq<T>)
    requires x == base + y && base == []
    ensures x == y
  {
  }

  lemma SplitLast<T>(s: seq<T>)
    requires |s| > 0
    ensures s[..|s| - 1] + [s[|s| - 1]] == s
  {
  }

  lemma AppendOne<T>(a: seq<T>, b: seq<T>, e: T)
    requires |a| == |b| + 1 && a[|b|] == e
    requires forall k :: 0 <= k < |b| ==> a[k] == b[k]
    ensures a == b + [e]
  {
  }

  lemma ChainAppend<T>(x: seq<T>, y: seq<T>, base: seq<T>, pre: seq<T>, full: seq<T>, e: T)
    requires y == base + pre && x == y + [e] && full == pre + [e]
    ensures x == base + full
  {
  }
}
