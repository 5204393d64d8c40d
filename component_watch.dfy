/** The `watch` component's own loop, the one `Start` launches on the
    record that `init` looked up: the same tick logic as the per-record loop
    of `record.go`, with no cool-down and no notifications. Compared with
    the per-record loop at the end of this module. */
module ComponentWatch {
  import opened Common
  import opened DnsUtils
  import RecordWatch

  /** An attempt is made once the tick counter exceeds this. */
  const Threshold: int := 3

  /** The watcher's `isDisable` field and the loop's counter. */
  datatype WatchState = WatchState(isDisable: bool, count: int)

  /** One tick: whether the probe succeeded, and what the provider would
      answer to a status call made on this tick. */
  datatype WatchTick = WatchTick(probeOk: bool, reply: Outcome)

  datatype WatchResult = WatchResult(state: WatchState, call: Option<StatusCall>)

  datatype WatchRun = WatchRun(state: WatchState, calls: seq<Option<StatusCall>>)

  /** One tick of the loop. A call is made only once the counter, this tick
      included, exceeds the threshold, and always asks to change the status:
      DISABLE on a failed probe of an enabled record, ENABLE on a good probe
      of a disabled one. It is made for the watched record with the tick's
      reply; the counter restarts exactly when a call is made, and
      `isDisable` changes only when the call succeeds. */
  function Tick(t: Target, s: WatchState, tick: WatchTick): (r: WatchResult)
    ensures r.state.count == if r.call.Some? then 0 else s.count + 1
    ensures r.call.Some? ==>
      && s.count + 1 > Threshold
      && tick.probeOk == s.isDisable
      && r.call.value.request == ModifyRequest(t.domain, t.recordId, if tick.probeOk then ENABLE else DISABLE)
      && r.call.value.reply == tick.reply
    ensures r.state.isDisable == if r.call.Some? && tick.reply.Pass? then !tick.probeOk else s.isDisable
  {
    var count := s.count + 1;
    if !tick.probeOk then
      if !s.isDisable && count > Threshold then
        var isDisable := if tick.reply.Pass? then true else s.isDisable;
        WatchResult(WatchState(isDisable, 0), Some(Disable(t.domain, t.recordId, tick.reply)))
      else WatchResult(s.(count := count), None)
    else if s.isDisable && count > Threshold then
      var isDisable := if tick.reply.Pass? then false else s.isDisable;
      WatchResult(WatchState(isDisable, 0), Some(Enable(t.domain, t.recordId, tick.reply)))
    else WatchResult(s.(count := count), None)
  }

  /** A sequence of ticks, in order: the final state and each tick's call, if any. */
  function Run(t: Target, s: WatchState, ticks: seq<WatchTick>): (r: WatchRun)
    ensures |r.calls| == |ticks|
  {
    if |ticks| == 0 then WatchRun(s, [])
    else
      var before := Run(t, s, ticks[..|ticks| - 1]);
      var step := Tick(t, before.state, ticks[|ticks| - 1]);
      WatchRun(step.state, before.calls + [step.call])
  }

  /** The calls actually made, in order. */
  function Made(calls: seq<Option<StatusCall>>): (made: seq<StatusCall>)
    ensures |made| <= |calls|
  {
    if |calls| == 0 then []
    else
      var last := calls[|calls| - 1];
      Made(calls[..|calls| - 1]) + if last.Some? then [last.value] else []
  }

  /** The watcher component. Its configuration and its record are supplied
      to the loop as the target. */
  class Watch {
    var isDisable: bool

    /** `Watch()`: the watcher starts out not disabled. */
    constructor ()
      ensures !isDisable
    {
      isDisable := false;
    }

    /** One iteration of the loop, with the loop's counter passed in and out. */
    method Step(t: Target, count: int, tick: WatchTick) returns (nextCount: int, call: Option<StatusCall>)
      modifies this
      ensures Tick(t, WatchState(old(isDisable), count), tick) == WatchResult(WatchState(isDisable, nextCount), call)
    {
      nextCount := count + 1;
      call := None;
      if !tick.probeOk {
        if !isDisable && nextCount > Threshold {
          nextCount := 0;
          call := Some(Disable(t.domain, t.recordId, tick.reply));
          if tick.reply.Pass? {
            isDisable := true;
          }
        }
      } else if isDisable && nextCount > Threshold {
        nextCount := 0;
        call := Some(Enable(t.domain, t.recordId, tick.reply));
        if tick.reply.Pass? {
          isDisable := false;
        }
      }
    }

    /** The loop over a finite sequence of ticks, the counter starting at 0. */
    method Watch(t: Target, ticks: seq<WatchTick>) returns (calls: seq<Option<StatusCall>>)
      modifies this
      ensures var r := Run(t, WatchState(old(isDisable), 0), ticks);
        isDisable == r.state.isDisable && calls == r.calls
    {
      var count := 0;
      calls := [];
      var i := 0;
      while i < |ticks|
        invariant 0 <= i <= |ticks|
        invariant Run(t, WatchState(old(isDisable), 0), ticks[..i]) == WatchRun(WatchState(isDisable, count), calls)
      {
        var call;
        count, call := Step(t, count, ticks[i]);
        calls := calls + [call];
        assert ticks[..i + 1][..i] == ticks[..i];
        i := i + 1;
      }
      assert ticks[..|ticks|] == ticks;
    }
  }

  /** A disable call is made exactly when the probe fails, the record is not
      disabled and the counter exceeds the threshold; an enable call exactly
      when the probe succeeds, the record is disabled and the counter exceeds
      the threshold, with no cool-down. */
  lemma CallIff(t: Target, s: WatchState, tick: WatchTick)
    ensures var c := Tick(t, s, tick).call;
      (c.Some? && c.value.request.status == DISABLE) <==> !tick.probeOk && !s.isDisable && s.count + 1 > Threshold
    ensures var c := Tick(t, s, tick).call;
      (c.Some? && c.value.request.status == ENABLE) <==> tick.probeOk && s.isDisable && s.count + 1 > Threshold
  {
  }

  /** Every call is for the watched record and answered by the tick's reply;
      `isDisable` changes only when the call succeeds, and then mirrors the
      status it asked for. */
  lemma FlagFollowsSuccessfulCall(t: Target, s: WatchState, tick: WatchTick)
    ensures var r := Tick(t, s, tick);
      r.call.Some? ==>
        r.call.value.request.domain == t.domain && r.call.value.request.recordId == t.recordId
        && r.call.value.reply == tick.reply
    ensures var r := Tick(t, s, tick);
      r.state.isDisable == if r.call.Some? && tick.reply.Pass? then r.call.value.request.status == DISABLE else s.isDisable
  {
  }

  /** A good probe that does not qualify for enabling makes no call and
      leaves `isDisable` alone. */
  lemma QuietWhenReachable(t: Target, s: WatchState, tick: WatchTick)
    requires tick.probeOk && !(s.isDisable && s.count + 1 > Threshold)
    ensures Tick(t, s, tick) == WatchResult(s.(count := s.count + 1), None)
  {
  }

  /** With no other writer, the provider's status for the record stays what
      `isDisable` says. */
  lemma {:induction false} FlagMirrorsProvider(t: Target, s: WatchState, ticks: seq<WatchTick>, provider: map<RecordId, Status>)
    requires t.recordId in provider && provider[t.recordId] == RecordWatch.StatusOf(s.isDisable)
    ensures var r := Run(t, s, ticks);
      t.recordId in ApplyAll(provider, Made(r.calls))
      && ApplyAll(provider, Made(r.calls))[t.recordId] == RecordWatch.StatusOf(r.state.isDisable)
  {
    if |ticks| > 0 {
      var prefix := ticks[..|ticks| - 1];
      FlagMirrorsProvider(t, s, prefix, provider);
      var before := Run(t, s, prefix);
      var r := Run(t, s, ticks);
      var step := Tick(t, before.state, ticks[|ticks| - 1]);
      assert r.state == step.state && r.calls == before.calls + [step.call];
      FlagFollowsSuccessfulCall(t, before.state, ticks[|ticks| - 1]);
      assert r.calls[..|r.calls| - 1] == before.calls;
      var made := Made(before.calls);
      if step.call.Some? {
        assert Made(r.calls) == made + [step.call.value];
        assert (made + [step.call.value])[..|made|] == made;
        assert ApplyAll(provider, Made(r.calls)) == Apply(ApplyAll(provider, made), step.call.value);
      } else {
        assert Made(r.calls) == made;
      }
    }
  }

  /** A watcher started while the provider already holds the record as
      DISABLE never enables it while its IP answers: `isDisable` starts
      false whatever the record's status, and a loop that is not disabled
      makes no call on a good probe. */
  lemma {:induction false} ReachableNeverEnables(t: Target, count: int, ticks: seq<WatchTick>)
    requires forall k :: 0 <= k < |ticks| ==> ticks[k].probeOk
    ensures var r := Run(t, WatchState(false, count), ticks);
      !r.state.isDisable && Made(r.calls) == []
  {
    if |ticks| > 0 {
      var prefix := ticks[..|ticks| - 1];
      ReachableNeverEnables(t, count, prefix);
      var r := Run(t, WatchState(false, count), ticks);
      assert r.calls[..|r.calls| - 1] == Run(t, WatchState(false, count), prefix).calls;
    }
  }

  /** The component loop's view of the per-record loop's state and ticks. */
  function AsWatch(s: RecordWatch.RecordState): WatchState
  {
    WatchState(s.isDisable, s.count)
  }

  function WatchInput(tick: RecordWatch.TickInput): WatchTick
  {
    WatchTick(tick.probeOk, tick.reply)
  }

  function WatchInputs(ticks: seq<RecordWatch.TickInput>): (r: seq<WatchTick>)
    ensures |r| == |ticks| && forall k :: 0 <= k < |ticks| ==> r[k] == WatchInput(ticks[k])
  {
    seq(|ticks|, k requires 0 <= k < |ticks| => WatchInput(ticks[k]))
  }

  /** The call an effect of the per-record loop makes, if any. */
  function CallOf(e: RecordWatch.Effect): Option<StatusCall>
  {
    if e.Attempt? then Some(e.call) else None
  }

  function CallsOf(effects: seq<RecordWatch.Effect>): (r: seq<Option<StatusCall>>)
    ensures |r| == |effects| && forall k :: 0 <= k < |effects| ==> r[k] == CallOf(effects[k])
  {
    seq(|effects|, k requires 0 <= k < |effects| => CallOf(effects[k]))
  }

  /** The cool-down is the only difference between the two loops' ticks:
      outside an enable-eligible tick within the cool-down, both make the same
      call (the per-record loop adding its notification) and reach the same
      `isDisable` and counter; inside it the per-record loop only counts,
      where the component loop calls enable. */
  lemma CoolDownIsTheOnlyDifference(t: Target, s: RecordWatch.RecordState, tick: RecordWatch.TickInput)
    ensures var r := RecordWatch.Tick(t, s, tick);
      var l := Tick(t, AsWatch(s), WatchInput(tick));
      if tick.probeOk && s.isDisable && s.count + 1 > Threshold && tick.now - s.lastSwitch < RecordWatch.CoolDown
      then r.effect.Quiet? && r.state == s.(count := s.count + 1)
        && l.call == Some(Enable(t.domain, t.recordId, tick.reply))
      else l.state == AsWatch(r.state) && l.call == CallOf(r.effect)
  {
  }

  /** When ticks are at least a cool-down apart (and a cool-down after the
      loop's start), the per-record loop makes exactly the component loop's
      calls and ends in the same `isDisable` and counter. Its `lastSwitch` is
      always the start time or the time of one of the ticks. The one-minute
      ticker never spaces ticks this far apart, so this only shows that
      nothing but the cool-down separates the two loops over a whole run;
      `CoolDownIsTheOnlyDifference` is the comparison that applies to every
      tick. */
  lemma {:induction false} RunsAgreeWhenSpacedOut(t: Target, isDisable: bool, start: int, ticks: seq<RecordWatch.TickInput>)
    requires forall k :: 0 <= k < |ticks| ==> start + RecordWatch.CoolDown <= ticks[k].now
    requires forall j, k :: 0 <= j < k < |ticks| ==> ticks[j].now + RecordWatch.CoolDown <= ticks[k].now
    ensures var r := RecordWatch.Run(t, RecordWatch.RecordState(isDisable, 0, start), ticks);
      var l := Run(t, WatchState(isDisable, 0), WatchInputs(ticks));
      l.state == AsWatch(r.state) && l.calls == CallsOf(r.effects)
    ensures var r := RecordWatch.Run(t, RecordWatch.RecordState(isDisable, 0, start), ticks);
      r.state.lastSwitch == start || exists k :: 0 <= k < |ticks| && r.state.lastSwitch == ticks[k].now
  {
    if |ticks| > 0 {
      var n := |ticks|;
      var prefix := ticks[..n - 1];
      RunsAgreeWhenSpacedOut(t, isDisable, start, prefix);
      var s0 := RecordWatch.RecordState(isDisable, 0, start);
      var before := RecordWatch.Run(t, s0, prefix);
      var lbefore := Run(t, WatchState(isDisable, 0), WatchInputs(prefix));
      var tick := ticks[n - 1];
      assert WatchInputs(ticks)[..n - 1] == WatchInputs(prefix);
      assert before.state.lastSwitch + RecordWatch.CoolDown <= tick.now by {
        if before.state.lastSwitch != start {
          var k :| 0 <= k < |prefix| && before.state.lastSwitch == prefix[k].now;
          assert prefix[k] == ticks[k];
        }
      }
      CoolDownIsTheOnlyDifference(t, before.state, tick);
      var r := RecordWatch.Run(t, s0, ticks);
      assert CallsOf(r.effects) == CallsOf(before.effects) + [CallOf(r.effects[n - 1])];
      if r.state.lastSwitch != before.state.lastSwitch {
        assert r.state.lastSwitch == ticks[n - 1].now;
      } else if before.state.lastSwitch != start {
        var k :| 0 <= k < |prefix| && before.state.lastSwitch == prefix[k].now;
        assert prefix[k] == ticks[k];
      }
    }
  }
}
