/** The display-link spin of the Coordinator, as a pure step function over the
    two values it touches: lastTimestamp and the y Euler angle of the model node. */
module SpinTicker {

  /** Radians per second added to the y angle while spinning. */
  const AngularVelocity: real := 1.0

  /** lastTimestamp (0 means "no tick seen since the display link was (re)started")
      and the y Euler angle of the model node. */
  datatype Spin = Spin(lastTimestamp: real, yAngle: real)

  /** One display-link frame: its timestamp, and whether the tick may act
      (isSpinning, and the model node is still there). */
  datatype Frame = Frame(timestamp: real, active: bool)

  /** One tick. Inactive: nothing changes. Active: a zero lastTimestamp is first
      replaced by the frame's timestamp, dt is the time since lastTimestamp, the
      timestamp is remembered and dt * AngularVelocity is added to the y angle. */
  function SpinTick(s: Spin, f: Frame): Spin
  {
    if !f.active then s
    else
      var last := if s.lastTimestamp == 0.0 then f.timestamp else s.lastTimestamp;
      var dt := f.timestamp - last;
      Spin(f.timestamp, s.yAngle + dt * AngularVelocity)
  }

  /** The ticks of consecutive frames, in order. */
  function SpinTicks(s: Spin, frames: seq<Frame>): Spin
    decreases |frames|
  {
    if frames == [] then s else SpinTicks(SpinTick(s, frames[0]), frames[1..])
  }

  predicate AllActive(frames: seq<Frame>)
  {
    forall i :: 0 <= i < |frames| ==> frames[i].active
  }

  predicate NoneActive(frames: seq<Frame>)
  {
    forall i :: 0 <= i < |frames| ==> !frames[i].active
  }

  /** Timestamps that can never be mistaken for the zero sentinel. */
  predicate NonZeroTimestamps(frames: seq<Frame>)
  {
    forall i :: 0 <= i < |frames| ==> frames[i].timestamp != 0.0
  }

  predicate NonDecreasing(frames: seq<Frame>)
  {
    forall i, j :: 0 <= i < j < |frames| ==> frames[i].timestamp <= frames[j].timestamp
  }

  /** Ticks are applied one after another. */
  lemma {:induction false} SpinTicksAppend(s: Spin, a: seq<Frame>, b: seq<Frame>)
    ensures SpinTicks(s, a + b) == SpinTicks(SpinTicks(s, a), b)
    decreases |a|
  {
    if a != [] {
      assert (a + b)[0] == a[0] && (a + b)[1..] == a[1..] + b;
      SpinTicksAppend(SpinTick(s, a[0]), a[1..], b);
    } else {
      assert a + b == b;
    }
  }

  /** Ticks while not spinning (or without a model node) change nothing. */
  lemma {:induction false} IdleTicksChangeNothing(s: Spin, frames: seq<Frame>)
    requires NoneActive(frames)
    ensures SpinTicks(s, frames) == s
    decreases |frames|
  {
    if frames != [] {
      IdleTicksChangeNothing(s, frames[1..]);
    }
  }

  /** With a remembered timestamp, spinning ticks add exactly the time between that
      timestamp and the last frame: the per-frame dt's telescope, without drift. */
  lemma {:induction false} SpinTicksTelescope(s: Spin, frames: seq<Frame>)
    requires s.lastTimestamp != 0.0 && AllActive(frames) && NonZeroTimestamps(frames)
    ensures frames == [] ==> SpinTicks(s, frames) == s
    ensures frames != [] ==>
              SpinTicks(s, frames)
              == Spin(frames[|frames| - 1].timestamp,
                      s.yAngle + (frames[|frames| - 1].timestamp - s.lastTimestamp) * AngularVelocity)
    decreases |frames|
  {
    if frames != [] {
      var next := SpinTick(s, frames[0]);
      SpinTicksTelescope(next, frames[1..]);
    }
  }

  /** From the stopped state (lastTimestamp 0), consecutive spinning ticks at
      t0 .. tn turn the model by exactly tn - t0 radians at 1 rad/s: the first tick
      adds nothing and remembers t0. */
  lemma SpinFromStop(y: real, frames: seq<Frame>)
    requires frames != [] && AllActive(frames) && NonZeroTimestamps(frames)
    ensures SpinTicks(Spin(0.0, y), frames)
            == Spin(frames[|frames| - 1].timestamp,
                    y + (frames[|frames| - 1].timestamp - frames[0].timestamp) * AngularVelocity)
  {
    var first := SpinTick(Spin(0.0, y), frames[0]);
    assert first == Spin(frames[0].timestamp, y);
    SpinTicksTelescope(first, frames[1..]);
    if |frames| > 1 {
      assert frames[1..][|frames[1..]| - 1] == frames[|frames| - 1];
    }
  }

  /** Over non-decreasing timestamps the y angle never goes back, whether the ticks
      spin or idle, starting stopped or from a remembered timestamp no later than
      the first frame. */
  lemma {:induction false} SpinNeverReverses(s: Spin, frames: seq<Frame>)
    requires NonDecreasing(frames)
    requires frames != [] ==> s.lastTimestamp == 0.0 || s.lastTimestamp <= frames[0].timestamp
    ensures SpinTicks(s, frames).yAngle >= s.yAngle
    decreases |frames|
  {
    if frames != [] {
      var next := SpinTick(s, frames[0]);
      assert next.yAngle >= s.yAngle;
      var rest := frames[1..];
      assert NonDecreasing(rest) by {
        forall i, j | 0 <= i < j < |rest| ensures rest[i].timestamp <= rest[j].timestamp {
          assert rest[i] == frames[i + 1] && rest[j] == frames[j + 1];
        }
      }
      if rest != [] {
        assert rest[0] == frames[1];
      }
      SpinNeverReverses(next, rest);
    }
  }

  /** Resuming after an idle period: the idle ticks leave lastTimestamp alone, so the
      first spinning tick after them adds all the time spent idle. */
  lemma ResumeAfterIdleJumps(s: Spin, idle: seq<Frame>, resume: real)
    requires s.lastTimestamp != 0.0 && NoneActive(idle)
    ensures SpinTicks(s, idle + [Frame(resume, true)])
            == Spin(resume, s.yAngle + (resume - s.lastTimestamp) * AngularVelocity)
  {
    SpinTicksAppend(s, idle, [Frame(resume, true)]);
    IdleTicksChangeNothing(s, idle);
  }
}
