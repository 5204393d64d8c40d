/** The `retry` gate: a debounce and cool-down state machine that turns a
    stream of boolean observations into calls of an activation callback (`ok`)
    and a deactivation callback (`bad`). The callbacks are replaced by whether
    each would succeed if called, and by the output saying which one was
    called; the clock's readings are explicit inputs. */
module Switch {
  import opened Common

  /** A callback is considered once the same-sign counter exceeds this. */
  const Threshold: int := 3

  /** Minimum time from the last committed transition to a new activation. */
  const CoolDown: int := 60 * Minute

  /** Which callback one check invoked: at most one of them. */
  datatype Callback = NoCallback | CalledOk | CalledBad

  /** The gate's four fields; `lastTime == None` is Go's zero time, which lies
      so far in the past that the cool-down never applies to it. */
  datatype Gate = Gate(lastStatus: bool, currentStatus: bool, count: int, lastTime: Option<int>)

  /** One check: the observation, whether `ok` and `bad` would succeed if
      called, the time when the check starts (read for the cool-down), and
      the time read again once the invoked callback has returned (stored as
      the transition time). */
  datatype GateInput = GateInput(observation: bool, okSucceeds: bool, badSucceeds: bool, now: int, doneAt: int)

  datatype GateStep = GateStep(gate: Gate, called: Callback)

  datatype GateRun = GateRun(gate: Gate, calls: seq<Callback>)

  /** `newRetry`: everything at its zero value. */
  function NewGate(): Gate
  {
    Gate(false, false, 0, None)
  }

  /** Less than the cool-down has passed since the last committed transition. */
  predicate CoolingDown(lastTime: Option<int>, now: int)
  {
    lastTime.Some? && now - lastTime.value < CoolDown
  }

  /** One `check` call: the gate afterwards and the callback invoked. A
      callback is invoked only once the counter exceeds the threshold: `ok`
      on a true observation of an inactive gate outside the cool-down, `bad`
      on a false observation of an active gate. The flag flips exactly when
      the invoked callback succeeds, and the transition time is then the
      time the callback returned. */
  function Step(g: Gate, i: GateInput): (r: GateStep)
    ensures r.gate.lastStatus == i.observation
    ensures r.called != NoCallback ==> r.gate.count > Threshold
    ensures r.called == CalledOk ==> i.observation && !g.currentStatus && !CoolingDown(g.lastTime, i.now)
    ensures r.called == CalledBad ==> !i.observation && g.currentStatus
    ensures r.gate.currentStatus != g.currentStatus <==>
      (r.called == CalledOk && i.okSucceeds) || (r.called == CalledBad && i.badSucceeds)
    ensures r.gate.lastTime == if r.gate.currentStatus != g.currentStatus then Some(i.doneAt) else g.lastTime
  {
    var count := if i.observation == g.lastStatus then g.count + 1 else 0;
    var counted := g.(lastStatus := i.observation, count := count);
    if i.observation then
      if !g.currentStatus && count > Threshold then
        if CoolingDown(g.lastTime, i.now) then GateStep(counted, NoCallback)
        else if i.okSucceeds then GateStep(counted.(currentStatus := true, lastTime := Some(i.doneAt)), CalledOk)
        else GateStep(counted, CalledOk)
      else GateStep(counted, NoCallback)
    else if g.currentStatus && count > Threshold then
      if i.badSucceeds then GateStep(counted.(currentStatus := false, lastTime := Some(i.doneAt)), CalledBad)
      else GateStep(counted, CalledBad)
    else GateStep(counted, NoCallback)
  }

  /** A sequence of checks, in order: the final gate and the callbacks invoked. */
  function Run(g: Gate, inputs: seq<GateInput>): (r: GateRun)
    ensures |r.calls| == |inputs|
  {
    if |inputs| == 0 then GateRun(g, [])
    else
      var before := Run(g, inputs[..|inputs| - 1]);
      var s := Step(before.gate, inputs[|inputs| - 1]);
      GateRun(s.gate, before.calls + [s.called])
  }

  /** The gate as a mutable object, as the source keeps it. */
  class Retry {
    var lastStatus: bool
    var currentStatus: bool
    var count: int
    var lastTime: Option<int>

    function State(): Gate
      reads this
    {
      Gate(lastStatus, currentStatus, count, lastTime)
    }

    ghost predicate Valid()
      reads this
    {
      count >= 0
    }

    /** `newRetry`. */
    constructor ()
      ensures Valid() && State() == NewGate()
    {
      lastStatus := false;
      currentStatus := false;
      count := 0;
      lastTime := None;
    }

    /** `check`: updates the counter, then invokes at most one callback and
        commits the transition only if that callback succeeded; it always
        returns a nil error. */
    method Check(observation: bool, okSucceeds: bool, badSucceeds: bool, now: int, doneAt: int) returns (called: Callback, err: Outcome)
      requires Valid()
      modifies this
      ensures Valid()
      ensures GateStep(State(), called) == Step(old(State()), GateInput(observation, okSucceeds, badSucceeds, now, doneAt))
      ensures err == Pass
    {
      called := NoCallback;
      err := Pass;
      if observation {
        if lastStatus {
          count := count + 1;
        } else {
          count := 0;
        }
        lastStatus := true;
        if !currentStatus && count > Threshold {
          if lastTime.Some? && now - lastTime.value < CoolDown {
            return;
          }
          called := CalledOk;
          if okSucceeds {
            currentStatus := true;
            lastTime := Some(doneAt);
          }
        }
      } else {
        if !lastStatus {
          count := count + 1;
        } else {
          count := 0;
        }
        lastStatus := false;
        if currentStatus && count > Threshold {
          called := CalledBad;
          if badSucceeds {
            currentStatus := false;
            lastTime := Some(doneAt);
          }
        }
      }
    }
  }

  /** The counter grows by one on a repeated observation and restarts at 0 on
      a changed one; it stays non-negative. */
  lemma StepCounter(g: Gate, i: GateInput)
    ensures Step(g, i).gate.count == if i.observation == g.lastStatus then g.count + 1 else 0
    ensures g.count >= 0 ==> Step(g, i).gate.count >= 0
  {
  }

  /** `ok` is invoked exactly when the observation is true, the gate is
      inactive, the updated counter exceeds the threshold and the cool-down
      has passed. */
  lemma OkCalledIff(g: Gate, i: GateInput)
    ensures Step(g, i).called == CalledOk <==>
      i.observation && !g.currentStatus && Step(g, i).gate.count > Threshold && !CoolingDown(g.lastTime, i.now)
  {
  }

  /** `bad` is invoked exactly when the observation is false, the gate is
      active and the updated counter exceeds the threshold: no cool-down. */
  lemma BadCalledIff(g: Gate, i: GateInput)
    ensures Step(g, i).called == CalledBad <==>
      !i.observation && g.currentStatus && Step(g, i).gate.count > Threshold
  {
  }

  /** Within the cool-down a true observation invokes nothing and leaves the
      activation flag and the transition time as they were. */
  lemma CoolDownSuppressesOk(g: Gate, i: GateInput)
    requires i.observation && CoolingDown(g.lastTime, i.now)
    ensures Step(g, i).called == NoCallback
    ensures Step(g, i).gate.currentStatus == g.currentStatus && Step(g, i).gate.lastTime == g.lastTime
  {
  }

  /** The counter is not reset by a callback: after a failed `ok` the next
      true observation outside the cool-down invokes `ok` again, and after a
      failed `bad` the next false observation invokes `bad` again. */
  lemma FailedCallbackRetries(g: Gate, first: GateInput, next: GateInput)
    ensures var s := Step(g, first);
      (s.called == CalledOk && !first.okSucceeds && next.observation && !CoolingDown(g.lastTime, next.now))
      ==> Step(s.gate, next).called == CalledOk
    ensures var s := Step(g, first);
      (s.called == CalledBad && !first.badSucceeds && !next.observation)
      ==> Step(s.gate, next).called == CalledBad
  {
  }

  /** While the gate is inactive and every check falls within the cool-down
      of its last transition, `ok` is never invoked and the gate keeps its
      flag and transition time. */
  lemma {:induction false} NoOkWhileCoolingDown(g: Gate, inputs: seq<GateInput>)
    requires !g.currentStatus && g.lastTime.Some?
    requires forall k :: 0 <= k < |inputs| ==> CoolingDown(g.lastTime, inputs[k].now)
    ensures CalledOk !in Run(g, inputs).calls
    ensures !Run(g, inputs).gate.currentStatus && Run(g, inputs).gate.lastTime == g.lastTime
  {
    if |inputs| > 0 {
      var prefix := inputs[..|inputs| - 1];
      NoOkWhileCoolingDown(g, prefix);
    }
  }

  /** A successful deactivation also starts the cool-down: for 60 minutes
      after `bad` returned, no check invokes `ok`. */
  lemma DeactivationThrottlesActivation(g: Gate, i: GateInput, later: seq<GateInput>)
    requires Step(g, i).called == CalledBad && i.badSucceeds
    requires forall k :: 0 <= k < |later| ==> later[k].now - i.doneAt < CoolDown
    ensures CalledOk !in Run(Step(g, i).gate, later).calls
  {
    NoOkWhileCoolingDown(Step(g, i).gate, later);
  }

  /** What the counter means after a sequence of checks from a fresh gate:
      the last `count + 1` observations all equal `lastStatus`, where the
      initial `lastStatus` (false) counts as an observation before the first
      one; and the gate is active only after some true observation. */
  ghost predicate CounterMeaning(inputs: seq<GateInput>, g: Gate)
  {
    && 0 <= g.count <= |inputs|
    && g.lastStatus == (|inputs| > 0 && inputs[|inputs| - 1].observation)
    && (forall k :: 0 <= k < |inputs| && |inputs| - 1 - g.count <= k ==> inputs[k].observation == g.lastStatus)
    && (g.lastStatus ==> g.count + 1 <= |inputs|)
    && (g.currentStatus ==> exists k :: 0 <= k < |inputs| && inputs[k].observation)
  }

  lemma {:induction false} CounterTracksRun(inputs: seq<GateInput>)
    ensures CounterMeaning(inputs, Run(NewGate(), inputs).gate)
  {
    if |inputs| > 0 {
      var prefix := inputs[..|inputs| - 1];
      var i := inputs[|inputs| - 1];
      CounterTracksRun(prefix);
      var before := Run(NewGate(), prefix).gate;
      var after := Run(NewGate(), inputs).gate;
      assert after == Step(before, i).gate;
      forall k | 0 <= k < |inputs| && |inputs| - 1 - after.count <= k
        ensures inputs[k].observation == after.lastStatus
      {
        if k < |inputs| - 1 {
          assert inputs[k] == prefix[k];
        }
      }
      if after.currentStatus && !before.currentStatus {
        assert i.observation;
      } else if after.currentStatus {
        var j :| 0 <= j < |prefix| && prefix[j].observation;
        assert inputs[j] == prefix[j];
      }
    }
  }

  /** From a fresh gate, a callback is invoked only after five equal
      observations in a row: the four before this check and this one. */
  lemma CallbackNeedsFiveAlike(inputs: seq<GateInput>, i: GateInput)
    requires Step(Run(NewGate(), inputs).gate, i).called != NoCallback
    ensures |inputs| >= 4
    ensures forall k :: |inputs| - 4 <= k < |inputs| ==> inputs[k].observation == i.observation
  {
    CounterTracksRun(inputs);
    AlikeFromMeaning(inputs, i, Run(NewGate(), inputs).gate);
  }

  /** The same, for any gate whose counter has the meaning it has after a run. */
  lemma AlikeFromMeaning(inputs: seq<GateInput>, i: GateInput, g: Gate)
    requires CounterMeaning(inputs, g) && Step(g, i).called != NoCallback
    ensures |inputs| >= 4
    ensures forall k :: |inputs| - 4 <= k < |inputs| ==> inputs[k].observation == i.observation
  {
  }

  /** From a fresh gate, four true observations invoke nothing and the fifth
      invokes `ok`, whatever the time and whatever the callbacks return. */
  lemma FifthTrueActivates(i1: GateInput, i2: GateInput, i3: GateInput, i4: GateInput, i5: GateInput)
    requires i1.observation && i2.observation && i3.observation && i4.observation && i5.observation
    ensures Run(NewGate(), [i1, i2, i3, i4, i5]).calls == [NoCallback, NoCallback, NoCallback, NoCallback, CalledOk]
  {
    var g1, g2, g3, g4 := Gate(true, false, 0, None), Gate(true, false, 1, None), Gate(true, false, 2, None), Gate(true, false, 3, None);
    assert Run(NewGate(), []) == GateRun(NewGate(), []);
    assert [i1][..0] == [];
    assert Run(NewGate(), [i1]) == GateRun(g1, [NoCallback]);
    assert [i1, i2][..1] == [i1];
    assert Run(NewGate(), [i1, i2]) == GateRun(g2, [NoCallback, NoCallback]);
    assert [i1, i2, i3][..2] == [i1, i2];
    assert Run(NewGate(), [i1, i2, i3]) == GateRun(g3, [NoCallback, NoCallback, NoCallback]);
    assert [i1, i2, i3, i4][..3] == [i1, i2, i3];
    assert Run(NewGate(), [i1, i2, i3, i4]) == GateRun(g4, [NoCallback, NoCallback, NoCallback, NoCallback]);
    assert [i1, i2, i3, i4, i5][..4] == [i1, i2, i3, i4];
    assert Step(g4, i5).called == CalledOk;
  }
}
