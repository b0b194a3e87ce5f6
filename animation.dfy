/**
  Animation frame bookkeeping (pyglet/animation/base.py): frames that pair
  an image with a duration in seconds (None marks the frame the animation
  stops on), animations as non-empty lists of frames, and the two setters of
  an animation controller that clamp the frame index and pause or resume
  the clock.

  Durations are reals: floating-point rounding is not modelled. The clock
  is not called; the controller records what it asks of it.
*/
module Animations {
  import opened Base

  /** A single frame: its image (any value) and its duration, which from_sequence may overwrite. */
  class AnimationFrame<T> {
    var data: T
    var duration: Option<real>

    constructor (data: T, duration: Option<real>)
      ensures this.data == data && this.duration == duration
    {
      this.data := data;
      this.duration := duration;
    }
  }

  /** The durations of a list of frames, in order. */
  function Durations<T>(frames: seq<AnimationFrame<T>>): seq<Option<real>>
    reads frames
  {
    seq(|frames|, i reads frames requires 0 <= i < |frames| => frames[i].duration)
  }

  /** The sum of the durations that are not None. */
  function TotalDuration(ds: seq<Option<real>>): real
  {
    if ds == [] then 0.0
    else (match ds[0] case None => 0.0 case Some(d) => d) + TotalDuration(ds[1..])
  }

  /** The total over two runs of frames is the sum of their totals. */
  lemma {:induction false} TotalDurationAppend(a: seq<Option<real>>, b: seq<Option<real>>)
    ensures TotalDuration(a + b) == TotalDuration(a) + TotalDuration(b)
  {
    if a != [] {
      assert (a + b)[1..] == a[1..] + b;
      TotalDurationAppend(a[1..], b);
    } else {
      assert a + b == b;
    }
  }

  /** A frame without a duration adds nothing, wherever it stands. */
  lemma TotalDurationSkipsNone(a: seq<Option<real>>, b: seq<Option<real>>)
    ensures TotalDuration(a + [None] + b) == TotalDuration(a + b)
  {
    TotalDurationAppend(a + [None], b);
    TotalDurationAppend(a, [None]);
    TotalDurationAppend(a, b);
    var none: seq<Option<real>> := [None];
    assert TotalDuration(none) == 0.0 by {
      assert none[1..] == [];
    }
  }

  /** With no negative duration the total is not negative, and each duration is at most the total. */
  lemma {:induction false} TotalDurationBounds(ds: seq<Option<real>>)
    requires forall i :: 0 <= i < |ds| && ds[i].Some? ==> ds[i].value >= 0.0
    ensures TotalDuration(ds) >= 0.0
    ensures forall i :: 0 <= i < |ds| && ds[i].Some? ==> ds[i].value <= TotalDuration(ds)
  {
    if ds != [] {
      TotalDurationBounds(ds[1..]);
      forall i | 1 <= i < |ds| && ds[i].Some?
        ensures ds[i].value <= TotalDuration(ds)
      {
        assert ds[1..][i - 1] == ds[i];
      }
    }
  }

  /** n copies of the same duration. */
  function Uniform(n: nat, d: Option<real>): (ds: seq<Option<real>>)
    ensures |ds| == n && forall i :: 0 <= i < n ==> ds[i] == d
  {
    if n == 0 then [] else [d] + Uniform(n - 1, d)
  }

  lemma {:induction false} TotalDurationUniform(n: nat, d: real)
    ensures TotalDuration(Uniform(n, Some(d))) == n as real * d
  {
    if n > 0 {
      TotalDurationUniform(n - 1, d);
      assert Uniform(n, Some(d))[1..] == Uniform(n - 1, Some(d));
    }
  }

  /** The durations from_sequence gives its frames: the same for all, except None on the last when not looping. */
  function SequenceDurations(n: nat, d: real, loop: bool): seq<Option<real>>
  {
    if loop || n == 0 then Uniform(n, Some(d)) else Uniform(n - 1, Some(d)) + [None]
  }

  /**
    An animation made by from_sequence lasts n times the frame duration when
    it loops, and one frame less when it stops on its last frame.
  */
  lemma SequenceDuration(n: nat, d: real, loop: bool)
    requires n >= 1
    ensures TotalDuration(SequenceDurations(n, d, loop)) == (if loop then n else n - 1) as real * d
  {
    TotalDurationUniform(n, d);
    if !loop {
      TotalDurationUniform(n - 1, d);
      TotalDurationSkipsNone(Uniform(n - 1, Some(d)), []);
      assert Uniform(n - 1, Some(d)) + [None] + [] == SequenceDurations(n, d, loop);
      assert Uniform(n - 1, Some(d)) + [] == Uniform(n - 1, Some(d));
    }
  }

  /** An animation whose durations are those from_sequence gives lasts as SequenceDuration says. */
  lemma SequenceAnimationDuration<T>(a: Animation<T>, d: real, loop: bool)
    requires |a.frames| >= 1 && Durations(a.frames) == SequenceDurations(|a.frames|, d, loop)
    ensures a.GetDuration() == (if loop then |a.frames| else |a.frames| - 1) as real * d
  {
    SequenceDuration(|a.frames|, d, loop);
  }

  /** Why from_sequence fails on an empty sequence: frames[-1] on an empty list, or the constructor's assertion. */
  datatype BuildError = IndexError | AssertionError

  datatype Built<T> = Success(animation: Animation<T>) | Failure(error: BuildError)

  class Animation<T> {
    var frames: seq<AnimationFrame<T>>

    /** The source asserts that the list is not empty. */
    constructor (frames: seq<AnimationFrame<T>>)
      requires |frames| > 0
      ensures this.frames == frames
    {
      this.frames := frames;
    }

    /**
      get_duration: the sum of the frame durations that are not None. With no
      negative duration it is not negative and no single frame lasts longer.
    */
    function GetDuration(): (total: real)
      reads this, frames
      ensures (forall i :: 0 <= i < |frames| && frames[i].duration.Some? ==> frames[i].duration.value >= 0.0) ==>
                total >= 0.0
                && forall i :: 0 <= i < |frames| && frames[i].duration.Some? ==> frames[i].duration.value <= total
    {
      var ds := Durations(frames);
      assert forall i :: 0 <= i < |frames| ==> ds[i] == frames[i].duration;
      if forall i :: 0 <= i < |ds| && ds[i].Some? ==> ds[i].value >= 0.0 then
        TotalDurationBounds(ds);
        TotalDuration(ds)
      else
        TotalDuration(ds)
    }

    /**
      from_sequence: one new frame per item, in order, each with the given
      duration; without looping the last frame's duration is then set to
      None. An empty sequence fails: frames[-1] when not looping, the
      constructor's assertion when looping.
    */
    static method FromSequence(sequence: seq<T>, duration: real, loop: bool) returns (r: Built<T>)
      ensures |sequence| == 0 ==> r == Failure(if loop then AssertionError else IndexError)
      ensures |sequence| > 0 ==>
        r.Success? && fresh(r.animation) && |r.animation.frames| == |sequence|
        && (forall i :: 0 <= i < |sequence| ==> fresh(r.animation.frames[i]) && r.animation.frames[i].data == sequence[i])
        && Durations(r.animation.frames) == SequenceDurations(|sequence|, duration, loop)
    {
      var frames: seq<AnimationFrame<T>> := [];
      var i := 0;
      while i < |sequence|
        invariant 0 <= i <= |sequence| && |frames| == i
        invariant forall j :: 0 <= j < i ==>
                    fresh(frames[j]) && frames[j].data == sequence[j] && frames[j].duration == Some(duration)
        invariant forall j, k :: 0 <= j < k < i ==> frames[j] != frames[k]
      {
        var frame := new AnimationFrame(sequence[i], Some(duration));
        frames := frames + [frame];
        i := i + 1;
      }
      if |frames| == 0 {
        return Failure(if loop then AssertionError else IndexError);
      }
      if !loop {
        frames[|frames| - 1].duration := None;
      }
      assert Durations(frames) == SequenceDurations(|sequence|, duration, loop) by {
        var expected := SequenceDurations(|sequence|, duration, loop);
        forall j | 0 <= j < |frames|
          ensures Durations(frames)[j] == expected[j]
        {
          if !loop && j < |frames| - 1 {
            assert expected[j] == Uniform(|frames| - 1, Some(duration))[j];
          }
        }
      }
      var animation := new Animation(frames);
      r := Success(animation);
    }
  }

  /** frame_index setter: max(0, min(index, len(frames) - 1)). */
  function ClampIndex(index: int, count: nat): (k: int)
    ensures count >= 1 ==> 0 <= k < count
    ensures count >= 1 ==> (k == index <==> 0 <= index < count)
    ensures index < 0 ==> k == 0
    ensures count >= 1 && index >= count ==> k == count - 1
  {
    Max(0, Min(index, count - 1))
  }

  /** Clamping an index already clamped leaves it as it is. */
  lemma ClampIndexIdempotent(index: int, count: nat)
    ensures ClampIndex(ClampIndex(index, count), count) == ClampIndex(index, count)
  {
  }

  /** What the controller asks of the clock. */
  datatype ClockCall = Unschedule | ScheduleOnce(delay: real)

  /** The controller's own state, as the two setters see it. */
  datatype Controller = Controller(frameIndex: int, nextDt: Option<real>, paused: bool, clock: seq<ClockCall>)

  /** `if self._next_dt:` — None and zero are false. */
  predicate Truthy(dt: Option<real>)
  {
    dt.Some? && dt.value != 0.0
  }

  /** frames[i] with Python's indexing: negative indices count from the end; anything else raises IndexError. */
  function FrameDuration(ds: seq<Option<real>>, i: int): Option<Option<real>>
  {
    if 0 <= i < |ds| then Some(ds[i])
    else if -|ds| <= i < 0 then Some(ds[|ds| + i])
    else None
  }

  /** Whether the setter raised IndexError, and the controller after it. */
  datatype Setting = Setting(raised: bool, controller: Controller)

  /**
    paused setter, given the durations of the animation's frames (None when
    there is no animation): nothing happens without an animation or when the
    value is unchanged; pausing unschedules; resuming takes the current
    frame's duration as the next delay and schedules it when it is truthy.
  */
  function AfterSetPaused(c: Controller, timeline: Option<seq<Option<real>>>, pause: bool): Setting
  {
    if timeline.None? || pause == c.paused then Setting(false, c)
    else if pause then Setting(false, c.(clock := c.clock + [Unschedule], paused := true))
    else match FrameDuration(timeline.value, c.frameIndex)
      case None => Setting(true, c)
      case Some(dt) =>
        Setting(false, c.(nextDt := dt, paused := false,
                          clock := if Truthy(dt) then c.clock + [ScheduleOnce(dt.value)] else c.clock))
  }

  /** frame_index setter, given the number of frames (None when there is no animation). */
  function AfterSetFrameIndex(c: Controller, count: Option<nat>, index: int): Controller
  {
    if count.None? then c else c.(frameIndex := ClampIndex(index, count.value))
  }

  /**
    The paused setter changes the controller exactly when there is an
    animation and the value differs; then `paused` takes the new value unless
    the current frame index does not exist. Pausing leaves the next delay as
    it was; resuming sets it to the current frame's duration.
  */
  lemma SetPausedChanges(c: Controller, timeline: Option<seq<Option<real>>>, pause: bool)
    ensures var s := AfterSetPaused(c, timeline, pause);
      (s.controller != c <==> timeline.Some? && pause != c.paused && (pause || FrameDuration(timeline.value, c.frameIndex).Some?))
      && (s.raised <==> timeline.Some? && pause != c.paused && !pause && FrameDuration(timeline.value, c.frameIndex).None?)
      && (!s.raised && timeline.Some? ==> s.controller.paused == pause)
      && s.controller.frameIndex == c.frameIndex
      && (pause ==> s.controller.nextDt == c.nextDt)
      && (timeline.Some? && !pause && !c.paused ==> s.controller == c)
      && (timeline.Some? && !pause && c.paused && 0 <= c.frameIndex < |timeline.value| ==>
            s.controller.nextDt == timeline.value[c.frameIndex])
  {
    if timeline.Some? && pause != c.paused {
      if pause {
        var s := AfterSetPaused(c, timeline, pause);
        assert |s.controller.clock| == |c.clock| + 1;
      }
    }
  }

  /**
    Pausing and then resuming an animation, with a valid frame index, ends
    unpaused with the next delay set to the current frame's duration, after
    asking the clock to unschedule and, for a truthy duration, to schedule
    once more.
  */
  lemma PauseThenResume(c: Controller, ds: seq<Option<real>>)
    requires !c.paused && 0 <= c.frameIndex < |ds|
    ensures var s := AfterSetPaused(AfterSetPaused(c, Some(ds), true).controller, Some(ds), false);
      var dt := ds[c.frameIndex];
      !s.raised && !s.controller.paused && s.controller.nextDt == dt && s.controller.frameIndex == c.frameIndex
      && s.controller.clock == c.clock + [Unschedule] + (if Truthy(dt) then [ScheduleOnce(dt.value)] else [])
  {
  }

  /**
    Setting the frame index does nothing without an animation; with one it
    stores an index in range, the requested one when it is in range, and
    setting it again to what it now holds changes nothing.
  */
  lemma SetFrameIndexInRange(c: Controller, count: nat, index: int)
    requires count >= 1
    ensures var d := AfterSetFrameIndex(c, Some(count), index);
      0 <= d.frameIndex < count
      && (0 <= index < count ==> d.frameIndex == index)
      && AfterSetFrameIndex(d, Some(count), d.frameIndex) == d
      && d == c.(frameIndex := d.frameIndex)
  {
    ClampIndexIdempotent(index, count);
  }

  /**
    The animation controller's index and pause state. The animation is set
    from outside (by a sprite); a frame list is only read here.
  */
  class AnimationController<T> {
    var frameIndex: int
    var nextDt: Option<real>
    var paused: bool
    var animation: Animation?<T>
    var clock: seq<ClockCall>

    function State(): Controller
      reads this
    {
      Controller(frameIndex, nextDt, paused, clock)
    }

    /** The durations of the animation's frames, None without an animation. */
    function Timeline(): Option<seq<Option<real>>>
      reads this, animation, if animation == null then [] else animation.frames
    {
      if animation == null then None else Some(Durations(animation.frames))
    }

    /** The class defaults: index 0, next delay 0, not paused, no animation. */
    constructor ()
      ensures State() == Controller(0, Some(0.0), false, []) && animation == null
    {
      frameIndex, nextDt, paused, animation, clock := 0, Some(0.0), false, null, [];
    }

    method SetPaused(pause: bool) returns (raised: bool)
      modifies this
      ensures Setting(raised, State()) == AfterSetPaused(old(State()), old(Timeline()), pause)
      ensures animation == old(animation)
    {
      raised := false;
      if animation == null || pause == paused {
        return;
      }
      if pause {
        clock := clock + [Unschedule];
      } else {
        var frames := animation.frames;
        var index := frameIndex;
        if -|frames| <= index < 0 {
          index := |frames| + index;
        } else if !(0 <= index < |frames|) {
          return true;
        }
        nextDt := frames[index].duration;
        if Truthy(nextDt) {
          clock := clock + [ScheduleOnce(nextDt.value)];
        }
      }
      paused := pause;
    }

    method SetFrameIndex(index: int)
      modifies this
      ensures State() == AfterSetFrameIndex(old(State()), old(if animation == null then None else Some(|animation.frames|)), index)
      ensures animation == old(animation)
    {
      if animation == null {
        return;
      }
      frameIndex := Max(0, Min(index, |animation.frames| - 1));
    }
  }
}
