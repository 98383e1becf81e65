/** The slideshow of captured frames (upload-slides-script.js): one slide and
    one navigation dot per displayed shot, the 1-based current-slide index,
    and the sorted insertion of manually captured frames. The two DOM
    containers are sequences of records, in document order. */
module Slideshow {
  import opened Options
  import opened ShotSchedule

  /** The inline `style.display` of a slide: never set, "none" or "block". */
  datatype Display = Unstyled | Hidden | Shown

  /** A dot's colour class: "blue-dot" for manual captures, "gray-dot" otherwise. */
  datatype DotColour = BlueDot | GrayDot

  /** The active class `showSlides` adds to one dot: " blue-active" or " gray-active". */
  datatype Highlight = BlueActive | GrayActive

  /** A slide element; `owner` is the shot object whose `slide` it is. */
  datatype Slide = Slide(owner: nat, caption: string, display: Display)

  /** A dot element; `onclick` is the slide number its click handler passes to
      `currentSlide`, `None` before a handler is bound. */
  datatype Dot = Dot(owner: nat, colour: DotColour, active: Option<Highlight>, onclick: Option<int>)

  /** The slideshow container, the dots container and the global `slideIndex`. */
  datatype View = View(slides: seq<Slide>, dots: seq<Dot>, slideIndex: int)

  function Ids(shots: seq<Shot>): (r: seq<nat>)
    ensures |r| == |shots| && forall i :: 0 <= i < |shots| ==> r[i] == shots[i].id
  {
    seq(|shots|, i requires 0 <= i < |shots| => shots[i].id)
  }

  function SlideOwners(slides: seq<Slide>): (r: seq<nat>)
    ensures |r| == |slides| && forall i :: 0 <= i < |slides| ==> r[i] == slides[i].owner
  {
    seq(|slides|, i requires 0 <= i < |slides| => slides[i].owner)
  }

  /** The same projection as `SlideOwners`, over dots: the two containers
      are kept separately in the page, so each has its own owner list. */
  function DotOwners(dots: seq<Dot>): (r: seq<nat>)
    ensures |r| == |dots| && forall i :: 0 <= i < |dots| ==> r[i] == dots[i].owner
  {
    seq(|dots|, i requires 0 <= i < |dots| => dots[i].owner)
  }

  /** Slide order and dot order both follow the shot list. */
  predicate Mirrors(keyTimes: seq<Shot>, v: View) {
    SlideOwners(v.slides) == Ids(keyTimes) && DotOwners(v.dots) == Ids(keyTimes)
  }

  /** Every dot opens the slide at its own position. */
  predicate DotsOpenOwnSlide(dots: seq<Dot>) {
    forall i :: 0 <= i < |dots| ==> dots[i].onclick == Some(i + 1)
  }

  predicate SortedByTimestamp(s: seq<Shot>) {
    forall i, j :: 0 <= i < j < |s| ==> s[i].timestamp <= s[j].timestamp
  }

  /** No shot object occurs twice. */
  predicate DistinctIds(s: seq<Shot>) {
    forall i, j :: 0 <= i < j < |s| ==> s[i].id != s[j].id
  }

  // ---------------------------------------------------------------------
  // showSlides, plusSlides, currentSlide
  // ---------------------------------------------------------------------

  function HighlightFor(c: DotColour): Highlight {
    if c == BlueDot then BlueActive else GrayActive
  }

  /** `slideIndex = n; showSlides(slideIndex)`: an index above the slide count
      becomes 1, one below 1 becomes the count; every slide is hidden and
      every dot loses its active class, then the chosen slide is shown and its
      dot gets the active class matching its colour. */
  function ShowSlides(v: View, n: int): (r: View)
    requires 1 <= |v.slides| <= |v.dots|
    ensures 1 <= r.slideIndex <= |v.slides|
    ensures n > |v.slides| ==> r.slideIndex == 1
    ensures n < 1 ==> r.slideIndex == |v.slides|
    ensures 1 <= n <= |v.slides| ==> r.slideIndex == n
    ensures |r.slides| == |v.slides| && |r.dots| == |v.dots|
    ensures forall i :: 0 <= i < |r.slides| ==>
      r.slides[i].owner == v.slides[i].owner && r.slides[i].caption == v.slides[i].caption
    ensures forall i :: 0 <= i < |r.slides| ==>
      (r.slides[i].display == Shown <==> i == r.slideIndex - 1) && r.slides[i].display != Unstyled
    ensures forall i :: 0 <= i < |r.dots| ==> r.dots[i] == v.dots[i].(active := r.dots[i].active)
    ensures forall i :: 0 <= i < |r.dots| ==> (r.dots[i].active.Some? <==> i == r.slideIndex - 1)
    ensures r.dots[r.slideIndex - 1].active == Some(BlueActive)
            <==> v.dots[r.slideIndex - 1].colour == BlueDot
  {
    var count := |v.slides|;
    var afterHigh := if n > count then 1 else n;
    var index := if n < 1 then count else afterHigh;
    View(
      seq(|v.slides|, i requires 0 <= i < |v.slides| =>
        v.slides[i].(display := if i == index - 1 then Shown else Hidden)),
      seq(|v.dots|, i requires 0 <= i < |v.dots| =>
        v.dots[i].(active := if i == index - 1 then Some(HighlightFor(v.dots[i].colour)) else None)),
      index)
  }

  /** Calling `showSlides(slideIndex)` again changes nothing. */
  lemma ShowSlidesIdempotent(v: View, n: int)
    requires 1 <= |v.slides| <= |v.dots|
    ensures var r := ShowSlides(v, n); ShowSlides(r, r.slideIndex) == r
  {
  }

  /** One past the last slide shows the first; zero shows the last. */
  lemma ShowSlidesWrapsAtEnds(v: View)
    requires 1 <= |v.slides| <= |v.dots|
    ensures ShowSlides(v, |v.slides| + 1) == ShowSlides(v, 1)
    ensures ShowSlides(v, 0) == ShowSlides(v, |v.slides|)
  {
  }

  /** `showSlides` restyles only: slide and dot order and the dots' click
      targets stay. */
  lemma ShowSlidesKeepsLayout(keyTimes: seq<Shot>, v: View, n: int)
    requires 1 <= |v.slides| <= |v.dots|
    requires Mirrors(keyTimes, v) && DotsOpenOwnSlide(v.dots)
    ensures Mirrors(keyTimes, ShowSlides(v, n)) && DotsOpenOwnSlide(ShowSlides(v, n).dots)
  {
    var r := ShowSlides(v, n);
    assert SlideOwners(r.slides) == SlideOwners(v.slides);
    assert DotOwners(r.dots) == DotOwners(v.dots);
  }

  /** `plusSlides(increment)`. */
  function PlusSlides(v: View, increment: int): (r: View)
    requires 1 <= |v.slides| <= |v.dots|
    ensures 1 <= v.slideIndex + increment <= |v.slides| ==> r.slideIndex == v.slideIndex + increment
    ensures v.slideIndex == |v.slides| && increment == 1 ==> r.slideIndex == 1
    ensures v.slideIndex == 1 && increment == -1 ==> r.slideIndex == |v.slides|
  {
    ShowSlides(v, v.slideIndex + increment)
  }

  /** Stepping past either end does not wrap modulo the count: two steps
      forward from the last of three slides land on the first, not the second. */
  lemma PlusSlidesIsNotModular()
    ensures var v := View([Slide(0, "", Unstyled), Slide(1, "", Unstyled), Slide(2, "", Unstyled)],
                          [Dot(0, GrayDot, None, None), Dot(1, GrayDot, None, None), Dot(2, GrayDot, None, None)],
                          3);
      PlusSlides(v, 2).slideIndex == 1 && ((v.slideIndex - 1 + 2) % 3) + 1 == 2
  {
  }

  /** `currentSlide(index)`, the click handler of a dot. */
  function CurrentSlide(v: View, index: int): (r: View)
    requires 1 <= |v.slides| <= |v.dots|
    ensures 1 <= index <= |v.slides| ==> r.slideIndex == index
  {
    ShowSlides(v, index)
  }

  /** When every dot opens its own slide, clicking the dot at position `i`
      shows exactly slide `i` and highlights exactly dot `i`. */
  lemma ClickingDotShowsItsSlide(v: View, i: int)
    requires 1 <= |v.slides| == |v.dots|
    requires DotsOpenOwnSlide(v.dots)
    requires 0 <= i < |v.dots|
    ensures var r := CurrentSlide(v, v.dots[i].onclick.value);
      && r.slideIndex == i + 1
      && (forall j :: 0 <= j < |r.slides| ==> (r.slides[j].display == Shown <==> j == i))
      && (forall j :: 0 <= j < |r.dots| ==> (r.dots[j].active.Some? <==> j == i))
  {
  }

  // ---------------------------------------------------------------------
  // sortImages: stable sort by timestamp, DOM insertion, dot re-binding
  // ---------------------------------------------------------------------

  /** Inserts `x` after the leading run of shots whose timestamp is at most
      its own: one step of a stable insertion sort. */
  function InsertShot(s: seq<Shot>, x: Shot): (r: seq<Shot>)
    ensures |r| == |s| + 1
    decreases |s|
  {
    if |s| == 0 then [x]
    else if s[0].timestamp <= x.timestamp then [s[0]] + InsertShot(s[1..], x)
    else [x] + s
  }

  /** `keyTimes.sort((a, b) => a.timestamp - b.timestamp)`. The sort of
      ECMA-262 (section 22.1.3.27 of the 10th edition) is stable, and a stable
      sort's result is unique, so a stable insertion sort stands for it. */
  function SortByTimestamp(s: seq<Shot>): (r: seq<Shot>)
    ensures |r| == |s| && SortedByTimestamp(r)
    decreases |s|
  {
    if |s| == 0 then []
    else
      InsertShotSorted(SortByTimestamp(s[..|s| - 1]), s[|s| - 1]);
      InsertShot(SortByTimestamp(s[..|s| - 1]), s[|s| - 1])
  }

  /** `Array.prototype.indexOf` on object identity: the first position of the
      shot object, or -1. */
  function IndexOfId(s: seq<Shot>, id: nat): (r: int)
    ensures -1 <= r < |s|
    ensures r == -1 <==> forall j :: 0 <= j < |s| ==> s[j].id != id
    ensures r >= 0 ==> s[r].id == id && forall j :: 0 <= j < r ==> s[j].id != id
    decreases |s|
  {
    if |s| == 0 then -1
    else if s[0].id == id then 0
    else
      var k := IndexOfId(s[1..], id);
      if k < 0 then -1 else k + 1
  }

  /** `container.insertBefore(x, list[i])`: before the element at `i`, or at
      the end when `list[i]` is undefined. */
  function InsertBefore<T>(s: seq<T>, i: int, x: T): (r: seq<T>)
    ensures |r| == |s| + 1
    ensures var k := if 0 <= i < |s| then i else |s|;
      && r[k] == x
      && (forall j :: 0 <= j < k ==> r[j] == s[j])
      && (forall j :: k < j < |r| ==> r[j] == s[j - 1])
  {
    if 0 <= i < |s| then s[..i] + [x] + s[i..] else s + [x]
  }

  /** `dot.onclick = () => currentSlide(slideNum)` on the dot of the shot
      object `owner`. */
  function SetOnclick(dots: seq<Dot>, owner: nat, slideNum: int): (r: seq<Dot>)
    ensures |r| == |dots| && DotOwners(r) == DotOwners(dots)
    ensures forall i :: 0 <= i < |dots| ==>
      r[i] == if dots[i].owner == owner then dots[i].(onclick := Some(slideNum)) else dots[i]
  {
    seq(|dots|, i requires 0 <= i < |dots| =>
      if dots[i].owner == owner then dots[i].(onclick := Some(slideNum)) else dots[i])
  }

  /** The loop of `sortImages` that re-binds `keyTimes[i].dot` to slide
      `i + 1` for every `i` from `from` on. */
  function RebindFrom(dots: seq<Dot>, keyTimes: seq<Shot>, from: nat): (r: seq<Dot>)
    ensures |r| == |dots| && DotOwners(r) == DotOwners(dots)
    ensures forall i :: 0 <= i < |r| ==> r[i] == dots[i].(onclick := r[i].onclick)
    decreases |keyTimes| - from
  {
    if from >= |keyTimes| then dots
    else RebindFrom(SetOnclick(dots, keyTimes[from].id, from + 1), keyTimes, from + 1)
  }

  /** The dots after the re-binding loop, and whether the loop threw. */
  datatype Rebound = Rebound(dots: seq<Dot>, threw: bool)

  /** The re-binding loop as the page runs it: `keyTimes[i].dot` is the dot
      `createSlide` attached to shot `i`, which a shot whose slide was not
      yet created does not have; `setOnclickFunction(undefined, i + 1)` then
      throws a `TypeError` assigning `undefined.onclick`, which rejects its
      promise and ends the loop. The loop completes exactly when every shot
      from `from` on has a dot, and then re-binds as `RebindFrom` does. */
  function RebindAsWritten(dots: seq<Dot>, keyTimes: seq<Shot>, from: nat): (r: Rebound)
    ensures |r.dots| == |dots| && DotOwners(r.dots) == DotOwners(dots)
    ensures !r.threw <==> forall i :: from <= i < |keyTimes| ==> keyTimes[i].id in DotOwners(dots)
    ensures !r.threw ==> r.dots == RebindFrom(dots, keyTimes, from)
    decreases |keyTimes| - from
  {
    if from >= |keyTimes| then Rebound(dots, false)
    else if keyTimes[from].id !in DotOwners(dots) then Rebound(dots, true)
    else RebindAsWritten(SetOnclick(dots, keyTimes[from].id, from + 1), keyTimes, from + 1)
  }

  datatype Insertion = Insertion(keyTimes: seq<Shot>, view: View, index: int)

  /** `sortImages(shot)`: sorts the shot list, finds the new shot's position,
      inserts its slide and dot before the element at that position, and
      re-binds every dot from that position on. */
  function SortImages(keyTimes: seq<Shot>, v: View, shot: Shot, slide: Slide, dot: Dot): (r: Insertion)
    requires shot in keyTimes
    ensures multiset(r.keyTimes) == multiset(keyTimes) && SortedByTimestamp(r.keyTimes)
    ensures 0 <= r.index < |r.keyTimes| && r.keyTimes[r.index].id == shot.id
    ensures forall j :: 0 <= j < r.index ==> r.keyTimes[j].id != shot.id
    ensures |r.view.slides| == |v.slides| + 1 && |r.view.dots| == |v.dots| + 1
    ensures r.view.slideIndex == v.slideIndex
    ensures var k := if r.index < |v.slides| then r.index else |v.slides|;
      && r.view.slides[k] == slide
      && (forall j :: 0 <= j < k ==> r.view.slides[j] == v.slides[j])
      && (forall j :: k < j < |r.view.slides| ==> r.view.slides[j] == v.slides[j - 1])
    ensures var k := if r.index < |v.dots| then r.index else |v.dots|;
      && r.view.dots[k] == dot.(onclick := r.view.dots[k].onclick)
      && (forall j :: 0 <= j < k ==> r.view.dots[j] == v.dots[j].(onclick := r.view.dots[j].onclick))
      && (forall j :: k < j < |r.view.dots| ==> r.view.dots[j] == v.dots[j - 1].(onclick := r.view.dots[j].onclick))
  {
    var sorted := SortByTimestamp(keyTimes);
    SortPermutes(keyTimes);
    assert shot in multiset(sorted);
    var index := IndexOfId(sorted, shot.id);
    var slides := InsertBefore(v.slides, index, slide);
    var dots := InsertBefore(v.dots, index, dot);
    Insertion(sorted, View(slides, RebindFrom(dots, sorted, index), v.slideIndex), index)
  }

  /** What `sortImages` leaves behind as the page runs it, and whether its
      re-binding loop threw. */
  datatype SortAttempt = SortAttempt(ins: Insertion, threw: bool)

  /** `sortImages(shot)` as the page runs it: sorting, placing and
      inserting as `SortImages` does, then the re-binding loop as written,
      which throws exactly when some shot from the new one's position on has
      no dot, not counting the inserted one. */
  function SortImagesAsWritten(keyTimes: seq<Shot>, v: View, shot: Shot, slide: Slide, dot: Dot): (r: SortAttempt)
    requires shot in keyTimes
    ensures multiset(r.ins.keyTimes) == multiset(keyTimes) && SortedByTimestamp(r.ins.keyTimes)
    ensures 0 <= r.ins.index < |r.ins.keyTimes| && r.ins.keyTimes[r.ins.index].id == shot.id
    ensures |r.ins.view.slides| == |v.slides| + 1 && |r.ins.view.dots| == |v.dots| + 1
    ensures r.ins.view.slideIndex == v.slideIndex
    ensures !r.threw <==> forall i :: r.ins.index <= i < |r.ins.keyTimes| ==>
      r.ins.keyTimes[i].id == dot.owner || r.ins.keyTimes[i].id in DotOwners(v.dots)
  {
    var sorted := SortByTimestamp(keyTimes);
    SortPermutes(keyTimes);
    assert shot in multiset(sorted);
    var index := IndexOfId(sorted, shot.id);
    var slides := InsertBefore(v.slides, index, slide);
    var dots := InsertBefore(v.dots, index, dot);
    DotOwnersInsertBefore(v.dots, index, dot);
    var rb := RebindAsWritten(dots, sorted, index);
    SortAttempt(Insertion(sorted, View(slides, rb.dots, v.slideIndex), index), rb.threw)
  }

  /** Whether or not its loop throws, `sortImages` as written sorts,
      places and inserts as `SortImages` does; when the loop completes, the
      two agree entirely. */
  lemma SortImagesAsWrittenAgrees(keyTimes: seq<Shot>, v: View, shot: Shot, slide: Slide, dot: Dot)
    requires shot in keyTimes
    ensures var a := SortImagesAsWritten(keyTimes, v, shot, slide, dot);
      var ins := SortImages(keyTimes, v, shot, slide, dot);
      && a.ins.keyTimes == ins.keyTimes && a.ins.index == ins.index
      && a.ins.view.slides == ins.view.slides
      && (!a.threw ==> a.ins == ins)
  {
  }

  /** The owners after inserting a dot are the old ones and the new dot's. */
  lemma DotOwnersInsertBefore(dots: seq<Dot>, p: int, d: Dot)
    ensures forall x :: x in DotOwners(InsertBefore(dots, p, d)) <==> x == d.owner || x in DotOwners(dots)
  {
    var r := InsertBefore(dots, p, d);
    var k := if 0 <= p < |dots| then p else |dots|;
    assert DotOwners(r)[k] == d.owner;
    forall x
      ensures x in DotOwners(r) <==> x == d.owner || x in DotOwners(dots)
    {
      if x in DotOwners(dots) {
        var j :| 0 <= j < |dots| && dots[j].owner == x;
        if j < k {
          assert DotOwners(r)[j] == x;
        } else {
          assert DotOwners(r)[j + 1] == x;
        }
      }
      if x in DotOwners(r) && x != d.owner {
        var j :| 0 <= j < |r| && r[j].owner == x;
        if j < k {
          assert DotOwners(dots)[j] == x;
        } else {
          assert DotOwners(dots)[j - 1] == x;
        }
      }
    }
  }

  // ---------------------------------------------------------------------
  // Lemmas about sortImages
  // ---------------------------------------------------------------------

  /** Number of shots with timestamp at most `t`. */
  function CountAtMost(s: seq<Shot>, t: int): nat
    decreases |s|
  {
    if |s| == 0 then 0
    else (if s[0].timestamp <= t then 1 else 0) + CountAtMost(s[1..], t)
  }

  /** Length of the leading run of shots with timestamp at most `t`. */
  function LeadingAtMost(s: seq<Shot>, t: int): nat
    decreases |s|
  {
    if |s| == 0 || s[0].timestamp > t then 0 else 1 + LeadingAtMost(s[1..], t)
  }

  lemma {:induction false} CountAtMostAppend(a: seq<Shot>, b: seq<Shot>, t: int)
    ensures CountAtMost(a + b, t) == CountAtMost(a, t) + CountAtMost(b, t)
    decreases |a|
  {
    if |a| > 0 {
      assert (a + b)[1..] == a[1..] + b;
      CountAtMostAppend(a[1..], b, t);
    } else {
      assert a + b == b;
    }
  }

  lemma {:induction false} InsertShotAt(s: seq<Shot>, x: Shot)
    ensures var p := LeadingAtMost(s, x.timestamp);
      p <= |s| && InsertShot(s, x) == s[..p] + [x] + s[p..]
    decreases |s|
  {
    if |s| > 0 && s[0].timestamp <= x.timestamp {
      InsertShotAt(s[1..], x);
      var p := LeadingAtMost(s, x.timestamp);
      assert s[..p] == [s[0]] + s[1..][..p - 1];
      assert s[p..] == s[1..][p - 1..];
    }
  }

  lemma {:induction false} CountAtMostInsert(s: seq<Shot>, x: Shot, t: int)
    ensures CountAtMost(InsertShot(s, x), t) == CountAtMost(s, t) + CountAtMost([x], t)
  {
    InsertShotAt(s, x);
    var p := LeadingAtMost(s, x.timestamp);
    assert s == s[..p] + s[p..];
    CountAtMostAppend(s[..p], s[p..], t);
    CountAtMostAppend(s[..p] + [x], s[p..], t);
    CountAtMostAppend(s[..p], [x], t);
  }

  /** Sorting does not change how many shots lie at or before a time. */
  lemma {:induction false} CountAtMostSort(s: seq<Shot>, t: int)
    ensures CountAtMost(SortByTimestamp(s), t) == CountAtMost(s, t)
    decreases |s|
  {
    if |s| > 0 {
      var init := s[..|s| - 1];
      CountAtMostSort(init, t);
      CountAtMostInsert(SortByTimestamp(init), s[|s| - 1], t);
      assert s == init + [s[|s| - 1]];
      CountAtMostAppend(init, [s[|s| - 1]], t);
    }
  }

  /** In a sorted list the leading run at or before `t` is all of them. */
  lemma {:induction false} SortedLeadingIsCount(s: seq<Shot>, t: int)
    requires SortedByTimestamp(s)
    ensures LeadingAtMost(s, t) == CountAtMost(s, t)
    ensures forall j :: LeadingAtMost(s, t) <= j < |s| ==> s[j].timestamp > t
    decreases |s|
  {
    if |s| > 0 {
      SortedLeadingIsCount(s[1..], t);
      if s[0].timestamp > t {
        assert forall j :: 0 < j < |s| ==> s[j].timestamp >= s[0].timestamp;
        assert CountAtMost(s[1..], t) == LeadingAtMost(s[1..], t) == 0;
      }
    }
  }

  /** Inserting into a sorted list keeps it sorted. */
  lemma InsertShotSorted(s: seq<Shot>, x: Shot)
    requires SortedByTimestamp(s)
    ensures SortedByTimestamp(InsertShot(s, x))
  {
    InsertShotAt(s, x);
    SortedLeadingIsCount(s, x.timestamp);
    var p := LeadingAtMost(s, x.timestamp);
    LeadingRunAtMost(s, x.timestamp);
    var r := InsertShot(s, x);
    forall i, j | 0 <= i < j < |r|
      ensures r[i].timestamp <= r[j].timestamp
    {
      if j < p {
        assert r[i] == s[i] && r[j] == s[j];
      } else if j == p {
        assert r[i] == s[i];
      } else if i < p {
        assert r[i] == s[i] && r[j] == s[j - 1];
      } else if i == p {
        assert r[j] == s[j - 1];
      } else {
        assert r[i] == s[i - 1] && r[j] == s[j - 1];
      }
    }
  }

  lemma {:induction false} LeadingRunAtMost(s: seq<Shot>, t: int)
    ensures LeadingAtMost(s, t) <= |s|
    ensures forall j :: 0 <= j < LeadingAtMost(s, t) ==> s[j].timestamp <= t
    decreases |s|
  {
    if |s| > 0 && s[0].timestamp <= t {
      LeadingRunAtMost(s[1..], t);
    }
  }

  lemma {:induction false} LeadingAll(s: seq<Shot>, t: int)
    requires forall j :: 0 <= j < |s| ==> s[j].timestamp <= t
    ensures LeadingAtMost(s, t) == |s|
    decreases |s|
  {
    if |s| > 0 {
      LeadingAll(s[1..], t);
    }
  }

  lemma SortedSplitLast(s: seq<Shot>)
    requires SortedByTimestamp(s) && |s| > 0
    ensures SortedByTimestamp(s[..|s| - 1])
    ensures forall j :: 0 <= j < |s| - 1 ==> s[j].timestamp <= s[|s| - 1].timestamp
  {
  }

  /** Sorting a list that is already sorted leaves it as it is (stability). */
  lemma {:induction false} SortSortedIsIdentity(s: seq<Shot>)
    requires SortedByTimestamp(s)
    ensures SortByTimestamp(s) == s
    decreases |s|
  {
    if |s| > 0 {
      var init := s[..|s| - 1];
      var x := s[|s| - 1];
      SortedSplitLast(s);
      SortSortedIsIdentity(init);
      InsertShotAt(init, x);
      LeadingAll(init, x.timestamp);
      assert SortByTimestamp(s) == InsertShot(init, x);
      assert init[..|init|] == init && init[|init|..] == [];
    }
  }

  /** The shots whose timestamp is exactly `t`, in list order. */
  function AtTime(s: seq<Shot>, t: int): seq<Shot>
    decreases |s|
  {
    if |s| == 0 then [] else (if s[0].timestamp == t then [s[0]] else []) + AtTime(s[1..], t)
  }

  lemma {:induction false} AtTimeAppend(a: seq<Shot>, b: seq<Shot>, t: int)
    ensures AtTime(a + b, t) == AtTime(a, t) + AtTime(b, t)
    decreases |a|
  {
    if |a| > 0 {
      assert (a + b)[1..] == a[1..] + b;
      AtTimeAppend(a[1..], b, t);
    } else {
      assert a + b == b;
    }
  }

  lemma {:induction false} AtTimeNone(s: seq<Shot>, t: int)
    requires forall j :: 0 <= j < |s| ==> s[j].timestamp > t
    ensures AtTime(s, t) == []
    decreases |s|
  {
    if |s| > 0 {
      AtTimeNone(s[1..], t);
    }
  }

  /** Inserting into a sorted list puts the new shot after every shot with
      the same timestamp. */
  lemma InsertShotAtTime(s: seq<Shot>, x: Shot, t: int)
    requires SortedByTimestamp(s)
    ensures AtTime(InsertShot(s, x), t) == AtTime(s, t) + AtTime([x], t)
  {
    InsertShotAt(s, x);
    SortedLeadingIsCount(s, x.timestamp);
    var p := LeadingAtMost(s, x.timestamp);
    assert s == s[..p] + s[p..];
    AtTimeAppend(s[..p], s[p..], t);
    AtTimeAppend(s[..p] + [x], s[p..], t);
    AtTimeAppend(s[..p], [x], t);
    assert AtTime([x], t) == (if x.timestamp == t then [x] else []) + AtTime([], t);
    if x.timestamp == t {
      AtTimeNone(s[p..], t);
    } else {
      assert AtTime([x], t) == [];
    }
  }

  /** The sort is stable: for every timestamp, the shots at that timestamp
      keep their relative order. */
  lemma {:induction false} SortIsStable(s: seq<Shot>, t: int)
    ensures AtTime(SortByTimestamp(s), t) == AtTime(s, t)
    decreases |s|
  {
    if |s| > 0 {
      var init := s[..|s| - 1];
      var x := s[|s| - 1];
      SortIsStable(init, t);
      InsertShotAtTime(SortByTimestamp(init), x, t);
      assert s == init + [x];
      AtTimeAppend(init, [x], t);
    }
  }

  lemma InsertShotPermutes(s: seq<Shot>, x: Shot)
    ensures multiset(InsertShot(s, x)) == multiset(s) + multiset{x}
  {
    InsertShotAt(s, x);
    var p := LeadingAtMost(s, x.timestamp);
    assert s == s[..p] + s[p..];
  }

  /** The sort only reorders: the result is a permutation of its input. */
  lemma {:induction false} SortPermutes(s: seq<Shot>)
    ensures multiset(SortByTimestamp(s)) == multiset(s)
    decreases |s|
  {
    if |s| > 0 {
      var init := s[..|s| - 1];
      assert s == init + [s[|s| - 1]];
      SortPermutes(init);
      InsertShotPermutes(SortByTimestamp(init), s[|s| - 1]);
    }
  }

  lemma IdNotInSorted(s: seq<Shot>, id: nat)
    requires forall j :: 0 <= j < |s| ==> s[j].id != id
    ensures forall j :: 0 <= j < |SortByTimestamp(s)| ==> SortByTimestamp(s)[j].id != id
  {
    var r := SortByTimestamp(s);
    SortPermutes(s);
    forall j | 0 <= j < |r|
      ensures r[j].id != id
    {
      assert r[j] in multiset(s);
    }
  }

  lemma IndexOfInserted(a: seq<Shot>, x: Shot, p: nat)
    requires p <= |a|
    requires forall j :: 0 <= j < |a| ==> a[j].id != x.id
    ensures IndexOfId(a[..p] + [x] + a[p..], x.id) == p
  {
    var r := a[..p] + [x] + a[p..];
    assert r[p] == x;
    assert forall j :: 0 <= j < p ==> r[j] == a[j];
  }

  /** Sorting a shot list that ends with `shot` is the same as inserting
      `shot` into the sorted rest, after its leading run of earlier-or-equal
      timestamps. */
  lemma SortAppended(others: seq<Shot>, shot: Shot)
    ensures var so := SortByTimestamp(others);
      var p := LeadingAtMost(so, shot.timestamp);
      && p == CountAtMost(others, shot.timestamp) <= |so|
      && SortByTimestamp(others + [shot]) == so[..p] + [shot] + so[p..]
  {
    var keyTimes := others + [shot];
    assert keyTimes[..|keyTimes| - 1] == others;
    var so := SortByTimestamp(others);
    InsertShotAt(so, shot);
    SortedLeadingIsCount(so, shot.timestamp);
    CountAtMostSort(others, shot.timestamp);
  }

  /** The position `sortImages` returns for a shot appended last is the number
      of the other shots whose timestamp is at most its own: stability puts it
      after every earlier shot with an equal timestamp. */
  lemma SortImagesIndex(others: seq<Shot>, v: View, shot: Shot, slide: Slide, dot: Dot)
    requires forall j :: 0 <= j < |others| ==> others[j].id != shot.id
    ensures shot in others + [shot]
    ensures var r := SortImages(others + [shot], v, shot, slide, dot);
      r.index == CountAtMost(others, shot.timestamp) && r.keyTimes[r.index] == shot
  {
    assert (others + [shot])[|others|] == shot;
    SortAppended(others, shot);
    var so := SortByTimestamp(others);
    IdNotInSorted(others, shot.id);
    IndexOfInserted(so, shot, CountAtMost(others, shot.timestamp));
  }

  lemma {:induction false} RebindFromTargets(dots: seq<Dot>, keyTimes: seq<Shot>, from: nat)
    requires DotOwners(dots) == Ids(keyTimes) && DistinctIds(keyTimes)
    requires from <= |keyTimes|
    ensures var r := RebindFrom(dots, keyTimes, from);
      && (forall i :: 0 <= i < from ==> r[i] == dots[i])
      && (forall i :: from <= i < |r| ==> r[i] == dots[i].(onclick := Some(i + 1)))
    decreases |keyTimes| - from
  {
    if from < |keyTimes| {
      var next := SetOnclick(dots, keyTimes[from].id, from + 1);
      assert forall i :: 0 <= i < |dots| && i != from ==> dots[i].owner != keyTimes[from].id;
      assert DotOwners(next) == DotOwners(dots);
      RebindFromTargets(next, keyTimes, from + 1);
    }
  }

  lemma InsertBeforeSplit<T>(s: seq<T>, p: int, x: T)
    requires 0 <= p <= |s|
    ensures InsertBefore(s, p, x) == s[..p] + [x] + s[p..]
  {
    if p == |s| {
      assert s[..p] == s && s[p..] == [];
    }
  }

  lemma DistinctInsert(others: seq<Shot>, shot: Shot, p: nat)
    requires p <= |others| && DistinctIds(others)
    requires forall j :: 0 <= j < |others| ==> others[j].id != shot.id
    ensures DistinctIds(others[..p] + [shot] + others[p..])
  {
    var r := others[..p] + [shot] + others[p..];
    forall i, j | 0 <= i < j < |r|
      ensures r[i].id != r[j].id
    {
      var i' := if i < p then i else i - 1;
      var j' := if j <= p then j else j - 1;
      if i != p && j != p {
        assert r[i] == others[i'] && r[j] == others[j'] && i' < j';
      } else if i == p {
        assert r[j] == others[j'];
      } else {
        assert r[i] == others[i'];
      }
    }
  }

  lemma MirrorsInsert(others: seq<Shot>, v: View, shot: Shot, slide: Slide, dot: Dot, p: nat)
    requires Mirrors(others, v) && p <= |others|
    requires slide.owner == shot.id && dot.owner == shot.id
    ensures Mirrors(others[..p] + [shot] + others[p..],
                    View(InsertBefore(v.slides, p, slide), InsertBefore(v.dots, p, dot), v.slideIndex))
  {
    var k := others[..p] + [shot] + others[p..];
    var sl := InsertBefore(v.slides, p, slide);
    var dt := InsertBefore(v.dots, p, dot);
    assert |v.slides| == |others| == |v.dots|;
    forall i | 0 <= i < |k|
      ensures sl[i].owner == k[i].id && dt[i].owner == k[i].id
    {
      if i < p {
        assert k[i] == others[i];
      } else if i > p {
        assert k[i] == others[i - 1];
      }
    }
    assert SlideOwners(sl) == Ids(k);
    assert DotOwners(dt) == Ids(k);
  }

  lemma SortImagesShape(others: seq<Shot>, v: View, shot: Shot, slide: Slide, dot: Dot)
    requires SortedByTimestamp(others)
    requires forall j :: 0 <= j < |others| ==> others[j].id != shot.id
    requires |v.slides| == |others| == |v.dots|
    ensures shot in others + [shot]
    ensures var r := SortImages(others + [shot], v, shot, slide, dot);
      var p := r.index;
      && p == CountAtMost(others, shot.timestamp) <= |others|
      && r.keyTimes == others[..p] + [shot] + others[p..]
      && r.view.slides == InsertBefore(v.slides, p, slide)
      && r.view.dots == RebindFrom(InsertBefore(v.dots, p, dot), r.keyTimes, p)
  {
    SortImagesIndex(others, v, shot, slide, dot);
    SortAppended(others, shot);
    SortSortedIsIdentity(others);
  }

  /** When the old list was sorted and the slides and dots followed it, the
      new slide and dot land at the new shot's position, so both containers
      follow the new sorted list. */
  lemma SortImagesKeepsOrder(others: seq<Shot>, v: View, shot: Shot, slide: Slide, dot: Dot)
    requires SortedByTimestamp(others) && DistinctIds(others)
    requires forall j :: 0 <= j < |others| ==> others[j].id != shot.id
    requires Mirrors(others, v)
    requires slide.owner == shot.id && dot.owner == shot.id
    ensures shot in others + [shot]
    ensures var r := SortImages(others + [shot], v, shot, slide, dot);
      var p := r.index;
      && p == CountAtMost(others, shot.timestamp)
      && r.keyTimes == others[..p] + [shot] + others[p..]
      && DistinctIds(r.keyTimes)
      && Mirrors(r.keyTimes, r.view)
      && r.view.slides == v.slides[..p] + [slide] + v.slides[p..]
  {
    SortImagesShape(others, v, shot, slide, dot);
    var r := SortImages(others + [shot], v, shot, slide, dot);
    var p := r.index;
    DistinctInsert(others, shot, p);
    InsertBeforeSplit(v.slides, p, slide);
    MirrorsInsert(others, v, shot, slide, dot, p);
  }

  /** Under the same conditions, dots before the new shot's position keep
      their click targets, and every dot from that position on is re-bound
      to the slide at its own position. */
  lemma SortImagesRebinds(others: seq<Shot>, v: View, shot: Shot, slide: Slide, dot: Dot)
    requires SortedByTimestamp(others) && DistinctIds(others)
    requires forall j :: 0 <= j < |others| ==> others[j].id != shot.id
    requires Mirrors(others, v)
    requires slide.owner == shot.id && dot.owner == shot.id
    ensures shot in others + [shot]
    ensures var r := SortImages(others + [shot], v, shot, slide, dot);
      var p := r.index;
      && (forall i :: 0 <= i < p ==> r.view.dots[i] == v.dots[i])
      && r.view.dots[p] == dot.(onclick := Some(p + 1))
      && (forall i :: p < i < |r.view.dots| ==> r.view.dots[i] == v.dots[i - 1].(onclick := Some(i + 1)))
  {
    SortImagesKeepsOrder(others, v, shot, slide, dot);
    SortImagesShape(others, v, shot, slide, dot);
    var r := SortImages(others + [shot], v, shot, slide, dot);
    var p := r.index;
    var dots := InsertBefore(v.dots, p, dot);
    MirrorsInsert(others, v, shot, slide, dot, p);
    RebindFromTargets(dots, r.keyTimes, p);
  }

  /** Consequently, if every dot opened its own slide before a manual capture,
      every dot still does afterwards. */
  lemma SortImagesKeepsDotTargets(others: seq<Shot>, v: View, shot: Shot, slide: Slide, dot: Dot)
    requires SortedByTimestamp(others) && DistinctIds(others)
    requires forall j :: 0 <= j < |others| ==> others[j].id != shot.id
    requires Mirrors(others, v) && DotsOpenOwnSlide(v.dots)
    requires slide.owner == shot.id && dot.owner == shot.id
    ensures shot in others + [shot]
    ensures DotsOpenOwnSlide(SortImages(others + [shot], v, shot, slide, dot).view.dots)
  {
    SortImagesRebinds(others, v, shot, slide, dot);
    SortImagesKeepsOrder(others, v, shot, slide, dot);
    var r := SortImages(others + [shot], v, shot, slide, dot);
    RebindOpensAll(v.dots, r.view.dots, r.index);
  }

  lemma RebindOpensAll(before: seq<Dot>, after: seq<Dot>, p: int)
    requires 0 <= p < |after| == |before| + 1 && DotsOpenOwnSlide(before)
    requires forall i :: 0 <= i < p ==> after[i] == before[i]
    requires after[p].onclick == Some(p + 1)
    requires forall i :: p < i < |after| ==> after[i] == before[i - 1].(onclick := Some(i + 1))
    ensures DotsOpenOwnSlide(after)
  {
    forall i | 0 <= i < |after|
      ensures after[i].onclick == Some(i + 1)
    {
      if i < p {
        assert after[i] == before[i];
      }
    }
  }
}
