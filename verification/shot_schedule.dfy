/** The capture targets of a session (extract-images-script.js): one shot per
    shot reported by the detection service, at the rounded middle of the
    shot, or a fixed-interval series `interval, 2·interval, …` that stops at
    the end of the video. */
module ShotSchedule {

  /** A shot object. `id` stands for the identity of the JavaScript object
      (`keyTimes.indexOf` and `keyTimes[i].dot` rely on it); `manual` is the
      `manuallyCaptured` flag. Timestamps are whole seconds. */
  datatype Shot = Shot(id: nat, timestamp: int, manual: bool)

  /** One entry of the detection service's response. */
  datatype ApiShot = ApiShot(startTime: real, endTime: real)

  /** `Math.round`: the nearest integer, halves rounded up. */
  function MathRound(x: real): (r: int)
    ensures r as real - 0.5 <= x < r as real + 0.5
  {
    (x + 0.5).Floor
  }

  /** `Math.round((shot.startTime + shot.endTime) / 2.0)`. */
  function MidpointTimestamp(a: ApiShot): int {
    MathRound((a.startTime + a.endTime) / 2.0)
  }

  /** The loop of `getShots`: one non-manual shot per response entry, in
      response order, each a new object at the rounded middle of its entry. */
  function ShotsFromApi(response: seq<ApiShot>, firstId: nat): (r: seq<Shot>)
    ensures |r| == |response|
    ensures forall i :: 0 <= i < |r| ==>
      && r[i].id == firstId + i && !r[i].manual
      && r[i].timestamp as real - 0.5 <= (response[i].startTime + response[i].endTime) / 2.0
      && (response[i].startTime + response[i].endTime) / 2.0 < r[i].timestamp as real + 0.5
  {
    seq(|response|, i requires 0 <= i < |response| =>
      Shot(firstId + i, MidpointTimestamp(response[i]), false))
  }

  /** For whole-second bounds the rounded middle lies inside the shot, and an
      odd sum rounds its half upward. */
  lemma MidpointWithinShot(start: int, end: int)
    requires start <= end
    ensures var t := MidpointTimestamp(ApiShot(start as real, end as real));
      start <= t <= end && t == (start + end + 1) / 2
  {
    var t := MidpointTimestamp(ApiShot(start as real, end as real));
    assert 2 * t - 1 <= start + end < 2 * t + 1;
  }

  /** Every shot built from a well-formed response entry (start no later
      than end) lies within half a second of the entry, and inside it when
      the entry's bounds are whole seconds. */
  lemma ShotsFromApiWithinShots(response: seq<ApiShot>, firstId: nat)
    ensures var r := ShotsFromApi(response, firstId);
      forall i :: 0 <= i < |r| && response[i].startTime <= response[i].endTime ==>
        var a := response[i].startTime; var b := response[i].endTime;
        && a - 0.5 < r[i].timestamp as real <= b + 0.5
        && (a == a.Floor as real && b == b.Floor as real ==> a <= r[i].timestamp as real <= b)
  {
    var r := ShotsFromApi(response, firstId);
    forall i | 0 <= i < |r| && response[i].startTime <= response[i].endTime
      ensures var a := response[i].startTime; var b := response[i].endTime;
        && a - 0.5 < r[i].timestamp as real <= b + 0.5
        && (a == a.Floor as real && b == b.Floor as real ==> a <= r[i].timestamp as real <= b)
    {
      var a := response[i].startTime;
      var b := response[i].endTime;
      var m := (a + b) / 2.0;
      assert a <= m <= b;
      assert r[i].timestamp == MathRound(m);
      if a == a.Floor as real && b == b.Floor as real {
        MidpointWithinShot(a.Floor, b.Floor);
        assert response[i] == ApiShot(a.Floor as real, b.Floor as real);
      }
    }
  }

  lemma ShotsFromApiExample()
    ensures var r := ShotsFromApi([ApiShot(0.0, 4.0), ApiShot(10.0, 20.0)], 0);
      r[0].timestamp == 2 && r[1].timestamp == 15
  {
    MidpointWithinShot(0, 4);
    MidpointWithinShot(10, 20);
  }

  function Max(a: int, b: int): int {
    if a < b then b else a
  }

  /** The targets `displayFrame` adds after a capture at `prev`: the next one
      is `prev + interval`, issued only while it does not pass `duration`. */
  function TargetsAfter(prev: int, interval: int, duration: int): seq<int>
    requires interval > 0
    decreases duration - prev
  {
    if prev + interval <= duration then [prev + interval] + TargetsAfter(prev + interval, interval, duration)
    else []
  }

  /** Every timestamp captured in fixed-interval mode, in capture order: the
      first target is the interval itself, issued whatever the duration. */
  function IntervalTargets(interval: int, duration: int): seq<int>
    requires interval > 0
  {
    [interval] + TargetsAfter(interval, interval, duration)
  }

  /** The number of captures in fixed-interval mode. */
  function IntervalCount(interval: int, duration: int): nat
    requires interval > 0
  {
    Max(1, duration / interval)
  }

  lemma MulMonotone(c: int, a: int, b: int)
    requires c > 0 && a <= b
    ensures c * a <= c * b
    decreases b - a
  {
    if a < b {
      MulMonotone(c, a, b - 1);
      assert c * b == c * (b - 1) + c;
    }
  }

  lemma MultipleBelow(m: int, interval: int, duration: int)
    requires interval > 0
    ensures interval * m <= duration <==> m <= duration / interval
  {
    var q := duration / interval;
    var r := duration % interval;
    assert duration == interval * q + r && 0 <= r < interval;
    if m <= q {
      MulMonotone(interval, m, q);
    } else {
      MulMonotone(interval, q + 1, m);
      assert interval * (q + 1) == interval * q + interval;
    }
  }

  lemma {:induction false} TargetsAfterClosedForm(m: nat, interval: int, duration: int)
    requires interval > 0
    ensures var n := Max(0, duration / interval - m);
      TargetsAfter(interval * m, interval, duration) == seq(n, j => interval * (m + 1 + j))
    decreases duration - interval * m
  {
    var n := Max(0, duration / interval - m);
    MultipleBelow(m + 1, interval, duration);
    assert interval * m + interval == interval * (m + 1);
    if interval * (m + 1) <= duration {
      TargetsAfterClosedForm(m + 1, interval, duration);
      var rest := TargetsAfter(interval * (m + 1), interval, duration);
      assert rest == seq(n - 1, j => interval * (m + 2 + j));
      assert TargetsAfter(interval * m, interval, duration) == [interval * (m + 1)] + rest;
    } else {
      assert n == 0;
    }
  }

  /** Fixed-interval mode captures at `interval·1, …, interval·k` with
      `k = max(1, floor(duration / interval))`. */
  lemma IntervalTargetsClosedForm(interval: int, duration: int)
    requires interval > 0
    ensures var k := IntervalCount(interval, duration);
      IntervalTargets(interval, duration) == seq(k, j => interval * (j + 1))
  {
    TargetsAfterClosedForm(1, interval, duration);
    var k := IntervalCount(interval, duration);
    var rest := TargetsAfter(interval * 1, interval, duration);
    assert rest == seq(Max(0, duration / interval - 1), j => interval * (2 + j));
    assert IntervalTargets(interval, duration) == [interval] + rest;
  }

  /** The targets strictly increase by `interval`, all but the first lie
      within the video, and the one after the last would not. */
  lemma IntervalTargetsStep(interval: int, duration: int)
    requires interval > 0
    ensures var t := IntervalTargets(interval, duration);
      && |t| == IntervalCount(interval, duration)
      && t[0] == interval
      && (forall j :: 0 < j < |t| ==> t[j] == t[j - 1] + interval && t[j] <= duration)
      && t[|t| - 1] + interval > duration
  {
    IntervalTargetsClosedForm(interval, duration);
    var t := IntervalTargets(interval, duration);
    var k := IntervalCount(interval, duration);
    forall j | 0 < j < k
      ensures t[j] == t[j - 1] + interval && t[j] <= duration
    {
      MulStep(interval, j);
      MultipleBelow(j + 1, interval, duration);
    }
    MulStep(interval, k);
    MultipleBelow(k + 1, interval, duration);
  }

  lemma MulStep(interval: int, j: int)
    ensures interval * (j + 1) == interval * j + interval
  {
  }

  lemma IntervalTargetsExample()
    ensures IntervalTargets(5, 12) == [5, 10]
  {
    assert TargetsAfter(10, 5, 12) == [];
  }
}
