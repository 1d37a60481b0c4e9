// The timer list and frame clock of src/time/time_manager.cpp.
//
// The intrusive list threaded through `Timer::next_` is the sequence
// `timers`, head first.  The clock is a parameter: Update receives the time
// the clock reports.  Times are reals.  Timer's own methods (timer.cpp) are
// not part of this model; a timer is its interval, accumulated time and
// enabled flag.

module TimeManagers {

  class Timer {
    const interval: real
    var time: real
    var enabled: bool

    constructor (interval: real)
      ensures this.interval == interval
    {
      this.interval := interval;
    }
  }

  /** No timer appears twice in the list. */
  ghost predicate Distinct(s: seq<Timer>)
  {
    forall i, j :: 0 <= i < j < |s| ==> s[i] != s[j]
  }

  /** The list with the first occurrence of `x` unlinked; a list without `x` is unchanged. */
  function RemoveFirst(s: seq<Timer>, x: Timer): (r: seq<Timer>)
    ensures x !in s ==> r == s
    ensures x in s ==> |r| == |s| - 1
    ensures forall y :: y in r ==> y in s
  {
    if s == [] then []
    else if s[0] == x then s[1..]
    else [s[0]] + RemoveFirst(s[1..], x)
  }

  /** In a list without duplicates, unlinking a timer removes it and keeps the others in order. */
  lemma {:induction false} RemoveFirstDistinct(s: seq<Timer>, x: Timer, i: nat)
    requires Distinct(s) && i < |s| && s[i] == x
    ensures RemoveFirst(s, x) == s[..i] + s[i + 1..]
    ensures Distinct(RemoveFirst(s, x)) && x !in RemoveFirst(s, x)
  {
    if i == 0 {
      assert RemoveFirst(s, x) == s[1..];
    } else {
      assert s[0] != x by { assert s[0] != s[i]; }
      RemoveFirstDistinct(s[1..], x, i - 1);
      assert s[1..][..i - 1] + s[1..][i..] == s[1..i] + s[i + 1..];
      assert [s[0]] + (s[1..i] + s[i + 1..]) == s[..i] + s[i + 1..];
    }
    DroppedDistinct(s, i);
  }

  /** Dropping one position of a list without duplicates leaves one without duplicates that lacks the dropped timer. */
  lemma DroppedDistinct(s: seq<Timer>, i: nat)
    requires Distinct(s) && i < |s|
    ensures Distinct(s[..i] + s[i + 1..]) && s[i] !in s[..i] + s[i + 1..]
  {
    var r := s[..i] + s[i + 1..];
    forall a, b | 0 <= a < b < |r|
      ensures r[a] != r[b]
    {
      var a' := if a < i then a else a + 1;
      var b' := if b < i then b else b + 1;
      assert r[a] == s[a'] && r[b] == s[b'] && a' < b';
    }
    forall k | 0 <= k < |r|
      ensures r[k] != s[i]
    {
      var k' := if k < i then k else k + 1;
      assert r[k] == s[k'] && k' != i;
    }
  }

  /**
   * The frame-rate counter after one frame of `dt` seconds: below one second
   * the frame count and time accumulate; from one second on the rate is
   * published as frames per second and both counters start again from 0.
   */
  datatype FpsCounter = FpsCounter(count: real, time: real, rate: real)

  function FpsStep(c: FpsCounter, dt: real): (r: FpsCounter)
    ensures c.time < 1.0 ==> r == FpsCounter(c.count + 1.0, c.time + dt, c.rate)
    ensures c.time >= 1.0 ==> r.count == 0.0 && r.time == 0.0 && r.rate * c.time == c.count
  {
    if c.time < 1.0 then FpsCounter(c.count + 1.0, c.time + dt, c.rate)
    else FpsCounter(0.0, 0.0, c.count / c.time)
  }

  /** The counter after a run of frames. */
  function FpsRun(c: FpsCounter, dts: seq<real>): FpsCounter
    decreases |dts|
  {
    if dts == [] then c else FpsRun(FpsStep(c, dts[0]), dts[1..])
  }

  function Sum(dts: seq<real>): real
  {
    if dts == [] then 0.0 else dts[0] + Sum(dts[1..])
  }

  lemma {:induction false} SumNonNegative(dts: seq<real>)
    requires forall i :: 0 <= i < |dts| ==> dts[i] >= 0.0
    ensures Sum(dts) >= 0.0
  {
    if dts != [] {
      SumNonNegative(dts[1..]);
    }
  }

  /**
   * While the counter has not yet reached one second before a frame, frames
   * are only counted: over such a run the count grows by the number of frames,
   * the time by their sum, and the published rate stays as it was.
   */
  lemma {:induction false} FpsRunCounts(c: FpsCounter, dts: seq<real>)
    requires forall i :: 0 <= i < |dts| ==> dts[i] >= 0.0
    requires dts != [] ==> c.time + Sum(dts[..|dts| - 1]) < 1.0
    ensures FpsRun(c, dts) == FpsCounter(c.count + |dts| as real, c.time + Sum(dts), c.rate)
    decreases |dts|
  {
    if dts != [] {
      var rest := dts[1..];
      SumNonNegative(dts[..|dts| - 1]);
      if rest != [] {
        assert dts[..|dts| - 1][1..] == rest[..|rest| - 1];
      }
      FpsRunCounts(FpsStep(c, dts[0]), rest);
    }
  }

  class TimeManager {
    /** The timer list, head first. */
    var timers: seq<Timer>
    var fixedFrameTime: real
    var lastTime: real
    var frameTime: real
    var fps: FpsCounter

    ghost predicate Valid()
      reads this
    {
      Distinct(timers)
    }

    /** A new manager has no timers, a fixed frame time of 1/60 and every clock value at 0. */
    constructor ()
      ensures Valid() && timers == [] && fixedFrameTime == 1.0 / 60.0
      ensures lastTime == 0.0 && frameTime == 0.0 && fps == FpsCounter(0.0, 0.0, 0.0)
    {
      timers := [];
      fixedFrameTime := 1.0 / 60.0;
      lastTime, frameTime := 0.0, 0.0;
      fps := FpsCounter(0.0, 0.0, 0.0);
    }

    method SetFixedFrameTime(t: real)
      modifies this
      ensures fixedFrameTime == t && timers == old(timers)
      ensures lastTime == old(lastTime) && frameTime == old(frameTime) && fps == old(fps)
    {
      fixedFrameTime := t;
    }

    /**
     * `Update`, given the time the clock now reports: the frame time is the
     * time since the previous update, every enabled timer advances by it,
     * disabled timers keep their time, and the frame-rate counter takes one step.
     */
    method Update(now: real)
      requires Valid()
      modifies this, set t | t in timers
      ensures Valid() && timers == old(timers) && fixedFrameTime == old(fixedFrameTime)
      ensures frameTime == now - old(lastTime) && lastTime == now
      ensures forall i :: 0 <= i < |timers| ==>
        timers[i].time == (if old(timers[i].enabled) then old(timers[i].time) + frameTime else old(timers[i].time))
      ensures forall i :: 0 <= i < |timers| ==> timers[i].enabled == old(timers[i].enabled)
      ensures fps == FpsStep(old(fps), frameTime)
    {
      frameTime := now - lastTime;
      lastTime := now;
      var k := 0;
      while k < |timers|
        invariant 0 <= k <= |timers| && timers == old(timers)
        invariant frameTime == now - old(lastTime) && lastTime == now && fps == old(fps)
        invariant fixedFrameTime == old(fixedFrameTime)
        invariant forall i :: 0 <= i < k ==>
          timers[i].time == (if old(timers[i].enabled) then old(timers[i].time) + frameTime else old(timers[i].time))
        invariant forall i :: k <= i < |timers| ==> timers[i].time == old(timers[i].time)
        invariant forall i :: 0 <= i < |timers| ==> timers[i].enabled == old(timers[i].enabled)
      {
        var timer := timers[k];
        assert forall i :: 0 <= i < |timers| && i != k ==> timers[i] != timer;
        if timer.enabled {
          timer.time := timer.time + frameTime;
        }
        k := k + 1;
      }
      if fps.time < 1.0 {
        fps := fps.(count := fps.count + 1.0, time := fps.time + frameTime);
      } else {
        fps := FpsCounter(0.0, 0.0, fps.count / fps.time);
      }
    }

    /** `AddTimer`: a new timer with the interval, linked in at the head of the list. */
    method AddTimer(interval: real) returns (timer: Timer)
      requires Valid()
      modifies this
      ensures Valid() && fresh(timer) && timer.interval == interval
      ensures timers == [timer] + old(timers)
      ensures lastTime == old(lastTime) && frameTime == old(frameTime) && fps == old(fps)
    {
      timer := new Timer(interval);
      timers := [timer] + timers;
    }

    /**
     * `RemoveTimer`: nullptr (None here) and a timer that is not on the list
     * change nothing; otherwise that timer alone is unlinked and the others
     * keep their order.
     */
    method RemoveTimer(removed: Timer?)
      requires Valid()
      modifies this
      ensures Valid()
      ensures removed == null ==> timers == old(timers)
      ensures removed != null ==> timers == RemoveFirst(old(timers), removed)
      ensures removed != null && removed in old(timers) ==> removed !in timers && |timers| == |old(timers)| - 1
      ensures lastTime == old(lastTime) && frameTime == old(frameTime) && fps == old(fps)
    {
      if removed == null {
        return;
      }
      var k := 0;
      while k < |timers|
        invariant 0 <= k <= |timers| && timers == old(timers)
        invariant forall i :: 0 <= i < k ==> timers[i] != removed
      {
        if timers[k] == removed {
          RemoveFirstDistinct(timers, removed, k);
          timers := timers[..k] + timers[k + 1..];
          return;
        }
        k := k + 1;
      }
    }
  }

  /** Timers are linked in at the head and only enabled ones advance. */
  method TimerScenario()
  {
    var m := new TimeManager();
    var a := m.AddTimer(1.0);
    var b := m.AddTimer(2.0);
    assert m.timers == [b, a];
    a.enabled := true;
    b.enabled := false;
    a.time, b.time := 0.0, 0.0;
    m.Update(0.5);
    assert m.timers[0] == b && m.timers[1] == a;
    assert m.frameTime == 0.5 && a.time == 0.5 && b.time == 0.0;
    assert m.fps == FpsCounter(1.0, 0.5, 0.0);
    m.RemoveTimer(a);
    assert m.timers == [b];
    m.RemoveTimer(null);
    assert m.timers == [b];
  }
}
