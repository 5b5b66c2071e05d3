/** The red-alert action: SetRed, three (ToBlack, ToRed) pulses of 0.5 s, SetRed,
    as an explicit list of steps whose colour is a function of elapsed time. */
module AlertAnimation {
  import opened SceneTree

  /** One action of the sequence: an instantaneous recolour to red, or a timed
      custom action fading the red channel down to black or back up to red. */
  datatype Step = SetRed | ToBlack(duration: real) | ToRed(duration: real)

  /** The duration of every timed pulse half. */
  const PulseDuration: real := 0.5

  /** SCNAction.repeat(pulse, count), pulse = sequence(toBlack, toRed). */
  function Pulses(count: nat): seq<Step>
  {
    if count == 0 then [] else [ToBlack(PulseDuration), ToRed(PulseDuration)] + Pulses(count - 1)
  }

  /** sequence(setRed, threePulses, setRed), flattened. */
  function RedAlertSequence(): seq<Step>
  {
    [SetRed] + Pulses(3) + [SetRed]
  }

  function Duration(steps: seq<Step>): real
  {
    if steps == [] then 0.0
    else (match steps[0]
            case SetRed => 0.0
            case ToBlack(d) => d
            case ToRed(d) => d) + Duration(steps[1..])
  }

  /** The colour a step writes `t` seconds into it: percentage t / d, red channel
      1 - percentage fading to black, percentage coming back to red. */
  function StepColor(step: Step, t: real): Color
    requires step.ToBlack? || step.ToRed? ==> step.duration > 0.0
  {
    match step
    case SetRed => Red
    case ToBlack(d) => Color(1.0 - t / d, 0.0, 0.0)
    case ToRed(d) => Color(t / d, 0.0, 0.0)
  }

  predicate WellFormed(steps: seq<Step>)
  {
    forall i :: 0 <= i < |steps| ==> (steps[i].ToBlack? || steps[i].ToRed? ==> steps[i].duration > 0.0)
  }

  /** The colour the sequence has last written after running `elapsed` seconds,
      None when it has written nothing yet. A timed step runs for elapsed in
      [0, duration); once over, it has written its end colour and the next step runs. */
  function ColorAfter(steps: seq<Step>, elapsed: real): Option<Color>
    requires WellFormed(steps)
  {
    if steps == [] then None
    else
      var later := ColorAfter(steps[1..], if steps[0].SetRed? then elapsed else elapsed - steps[0].duration);
      if steps[0].SetRed? then (if later.Some? then later else Some(Red))
      else if elapsed < steps[0].duration then Some(StepColor(steps[0], elapsed))
      else if later.Some? then later
      else Some(StepColor(steps[0], steps[0].duration))
  }

  lemma {:induction false} PulsesWellFormed(count: nat)
    ensures WellFormed(Pulses(count))
  {
    if count > 0 {
      PulsesWellFormed(count - 1);
      var p := Pulses(count);
      assert p == [ToBlack(PulseDuration), ToRed(PulseDuration)] + Pulses(count - 1);
      forall i | 0 <= i < |p|
        ensures p[i].ToBlack? || p[i].ToRed? ==> p[i].duration > 0.0
      {
        if i >= 2 {
          assert p[i] == Pulses(count - 1)[i - 2];
        }
      }
    }
  }

  lemma SequenceWellFormed()
    ensures WellFormed(RedAlertSequence())
  {
    PulsesWellFormed(3);
  }

  /** The colour the red-alert sequence shows on a node `elapsed` seconds after it started. */
  function AlertColor(elapsed: real): Color
    requires elapsed >= 0.0
  {
    SequenceWellFormed();
    var c := ColorAfter(RedAlertSequence(), elapsed);
    assert RedAlertSequence()[0] == SetRed;
    c.value
  }

  const AlertDuration: real := 3.0

  /** The sequence flattens to 8 steps: two instantaneous SetRed around six timed
      halves of 0.5 s alternating ToBlack, ToRed, 3.0 s in all. */
  lemma {:induction false} RedAlertSequenceShape()
    ensures RedAlertSequence() == [SetRed, ToBlack(0.5), ToRed(0.5), ToBlack(0.5), ToRed(0.5),
                                   ToBlack(0.5), ToRed(0.5), SetRed]
    ensures Duration(RedAlertSequence()) == AlertDuration
  {
    var pulse := [ToBlack(0.5), ToRed(0.5)];
    assert Pulses(1) == pulse + Pulses(0);
    assert Pulses(2) == pulse + Pulses(1);
    assert Pulses(3) == pulse + Pulses(2);
  }

  /** While a timed first step runs, it alone decides the colour. */
  lemma ColorAfterWithin(steps: seq<Step>, elapsed: real)
    requires WellFormed(steps) && steps != [] && !steps[0].SetRed?
    requires elapsed < steps[0].duration
    ensures ColorAfter(steps, elapsed) == Some(StepColor(steps[0], elapsed))
  {
  }

  /** Once a timed first step is over, the rest of the sequence decides the colour,
      provided the rest has written something by then. */
  lemma ColorAfterPast(steps: seq<Step>, elapsed: real)
    requires WellFormed(steps) && steps != [] && !steps[0].SetRed?
    requires elapsed >= steps[0].duration
    ensures WellFormed(steps[1..])
    ensures ColorAfter(steps[1..], elapsed - steps[0].duration).Some? ==>
              ColorAfter(steps, elapsed) == ColorAfter(steps[1..], elapsed - steps[0].duration)
  {
    assert WellFormed(steps[1..]) by {
      forall i | 0 <= i < |steps[1..]|
        ensures steps[1..][i].ToBlack? || steps[1..][i].ToRed? ==> steps[1..][i].duration > 0.0
      {
        assert steps[1..][i] == steps[i + 1];
      }
    }
  }

  /** Inside the k-th timed half of the pulses (k counted from 0), the red channel
      falls as 1 - t/d on even halves and rises as t/d on odd ones. */
  lemma {:induction false} PulsesColor(count: nat, rest: seq<Step>, k: nat, t: real)
    requires WellFormed(rest) && k < 2 * count && 0.0 <= t < PulseDuration
    ensures WellFormed(Pulses(count) + rest)
    ensures ColorAfter(Pulses(count) + rest, k as real * PulseDuration + t)
            == Some(if k % 2 == 0 then Color(1.0 - t / PulseDuration, 0.0, 0.0)
                    else Color(t / PulseDuration, 0.0, 0.0))
  {
    PulsesThenWellFormed(count, rest);
    PulsesThenWellFormed(count - 1, rest);
    var s := Pulses(count) + rest;
    PulsesUnfold(count, rest);
    var e := k as real * PulseDuration + t;
    if k == 0 {
      ColorAfterWithin(s, e);
    } else if k == 1 {
      ColorAfterPast(s, e);
      ColorAfterWithin(s[1..], e - PulseDuration);
    } else {
      PulsesColor(count - 1, rest, k - 2, t);
      assert e - PulseDuration - PulseDuration == (k - 2) as real * PulseDuration + t;
      ColorAfterPast(s[1..], e - PulseDuration);
      ColorAfterPast(s, e);
    }
  }

  /** A non-empty run of pulses followed by `rest`: one ToBlack, one ToRed, then
      the remaining pulses and `rest`. */
  lemma PulsesUnfold(count: nat, rest: seq<Step>)
    requires count > 0
    ensures |Pulses(count) + rest| >= 2
    ensures (Pulses(count) + rest)[0] == ToBlack(PulseDuration)
    ensures (Pulses(count) + rest)[1..][0] == ToRed(PulseDuration)
    ensures (Pulses(count) + rest)[1..][1..] == Pulses(count - 1) + rest
  {
    var tail := Pulses(count - 1) + rest;
    assert Pulses(count) + rest == [ToBlack(PulseDuration)] + ([ToRed(PulseDuration)] + tail);
  }

  lemma {:induction false} PulsesThenWellFormed(count: nat, rest: seq<Step>)
    requires WellFormed(rest)
    ensures WellFormed(Pulses(count) + rest)
  {
    PulsesWellFormed(count);
    var s := Pulses(count) + rest;
    forall i | 0 <= i < |s|
      ensures s[i].ToBlack? || s[i].ToRed? ==> s[i].duration > 0.0
    {
      if i >= |Pulses(count)| {
        assert s[i] == rest[i - |Pulses(count)|];
      }
    }
  }

  /** Once all the pulses are over, the closing SetRed leaves solid red. */
  lemma {:induction false} PulsesThenRed(count: nat, elapsed: real)
    requires elapsed >= count as real * (2.0 * PulseDuration)
    ensures WellFormed(Pulses(count) + [SetRed])
    ensures ColorAfter(Pulses(count) + [SetRed], elapsed) == Some(Red)
  {
    PulsesThenWellFormed(count, [SetRed]);
    if count == 0 {
      assert Pulses(count) + [SetRed] == [SetRed];
    } else {
      var s := Pulses(count) + [SetRed];
      PulsesUnfold(count, [SetRed]);
      PulsesThenWellFormed(count - 1, [SetRed]);
      assert (count - 1) as real * (2.0 * PulseDuration) == count as real * (2.0 * PulseDuration) - 1.0;
      PulsesThenRed(count - 1, elapsed - 2.0 * PulseDuration);
      assert elapsed - PulseDuration - PulseDuration == elapsed - 2.0 * PulseDuration;
      ColorAfterPast(s[1..], elapsed - PulseDuration);
      ColorAfterPast(s, elapsed);
    }
  }

  /** The alert's colour segment by segment: k-th timed half (k < 6), t seconds into it. */
  lemma AlertSegment(k: nat, t: real)
    requires k < 6 && 0.0 <= t < PulseDuration
    ensures AlertColor(k as real * PulseDuration + t)
            == if k % 2 == 0 then Color(1.0 - t / PulseDuration, 0.0, 0.0)
               else Color(t / PulseDuration, 0.0, 0.0)
  {
    SequenceWellFormed();
    PulsesColor(3, [SetRed], k, t);
    assert RedAlertSequence() == [SetRed] + (Pulses(3) + [SetRed]);
    assert RedAlertSequence()[1..] == Pulses(3) + [SetRed];
  }

  /** From 3.0 s on, the sequence is over and the node stays solid red. */
  lemma AlertEndsRed(elapsed: real)
    requires elapsed >= AlertDuration
    ensures AlertColor(elapsed) == Red
  {
    SequenceWellFormed();
    PulsesThenRed(3, elapsed);
    assert RedAlertSequence() == [SetRed] + (Pulses(3) + [SetRed]);
    assert RedAlertSequence()[1..] == Pulses(3) + [SetRed];
  }

  /** The alert starts on solid red. */
  lemma AlertStartsRed()
    ensures AlertColor(0.0) == Red
  {
    AlertSegment(0, 0.0);
  }

  /** At every moment the alert colour is a shade of red: red channel in [0, 1],
      green and blue 0. */
  lemma AlertColorRange(elapsed: real)
    requires elapsed >= 0.0
    ensures 0.0 <= AlertColor(elapsed).red <= 1.0
    ensures AlertColor(elapsed).green == 0.0 && AlertColor(elapsed).blue == 0.0
  {
    if elapsed >= AlertDuration {
      AlertEndsRed(elapsed);
    } else {
      var k := (elapsed / PulseDuration).Floor;
      assert 0 <= k < 6;
      var t := elapsed - k as real * PulseDuration;
      AlertSegment(k as nat, t);
    }
  }
}
