/** The per-record watch loop: on every tick it counts the tick, probes the
    record's IP, and attempts to disable the record when the probe fails or
    to enable it again (after a 30-minute cool-down) when the probe succeeds,
    sending one notification per attempt. The probe, the provider's reply
    and the clock are inputs of each tick. */
module RecordWatch {
  import opened Common
  import opened DnsUtils

  /** An attempt is made once the tick counter exceeds this. */
  const Threshold: int := 3

  /** Minimum time from the last enable attempt (or the loop's start) to the next one. */
  const CoolDown: int := 30 * Minute

  const DisableTitle: string := "ip无法访问,暂停记录"
  const EnableTitle: string := "ip可以访问,开启记录"
  const FailurePrefix: string := "\n记录修改失败: "

  /** A notification as sent: a title and a message. */
  datatype Notification = Notification(title: string, content: string)

  /** What one tick does to the outside world: nothing, or one status call
      together with the one notification that reports it. */
  datatype Effect = Quiet | Attempt(call: StatusCall, notice: Notification)

  /** The record's `isDisable` field and the loop's two locals. */
  datatype RecordState = RecordState(isDisable: bool, count: int, lastSwitch: int)

  /** One tick: whether the probe succeeded, what the provider would answer
      to a status call made on this tick, and the time. */
  datatype TickInput = TickInput(probeOk: bool, reply: Outcome, now: int)

  datatype TickResult = TickResult(state: RecordState, effect: Effect)

  datatype RunResult = RunResult(state: RecordState, effects: seq<Effect>)

  /** The message text before any failure detail: domain, record value and the event. */
  function BaseMessage(t: Target, event: string): string
  {
    "域名: " + t.domain + ", 记录: " + t.value + ", " + event
  }

  /** The notification for an attempt; the event text is also the title. */
  function Notice(t: Target, title: string, reply: Outcome): Notification
  {
    Notification(title, if reply.Fail? then BaseMessage(t, title) + FailurePrefix + reply.message else BaseMessage(t, title))
  }

  /** The provider status that `isDisable` stands for. */
  function StatusOf(isDisable: bool): Status
  {
    if isDisable then DISABLE else ENABLE
  }

  /** One tick of the loop. An attempt is made only once the counter, this
      tick included, exceeds the threshold, and always asks to change the
      status: DISABLE on a failed probe of an enabled record, ENABLE on a
      good probe of a disabled one once the cool-down since `lastSwitch` has
      passed. Its call is for the watched record with the tick's reply; the
      counter restarts exactly on an attempt, `isDisable` changes only when
      the call succeeds, and `lastSwitch` moves only on an enable attempt. */
  function Tick(t: Target, s: RecordState, tick: TickInput): (r: TickResult)
    ensures r.state.count == if r.effect.Attempt? then 0 else s.count + 1
    ensures r.effect.Attempt? ==>
      && s.count + 1 > Threshold
      && tick.probeOk == s.isDisable
      && (tick.probeOk ==> tick.now - s.lastSwitch >= CoolDown)
      && r.effect.call.request == ModifyRequest(t.domain, t.recordId, if tick.probeOk then ENABLE else DISABLE)
      && r.effect.call.reply == tick.reply
    ensures r.state.isDisable == if r.effect.Attempt? && tick.reply.Pass? then !tick.probeOk else s.isDisable
    ensures r.state.lastSwitch == if r.effect.Attempt? && tick.probeOk then tick.now else s.lastSwitch
  {
    var count := s.count + 1;
    if !tick.probeOk then
      if !s.isDisable && count > Threshold then
        var call := Disable(t.domain, t.recordId, tick.reply);
        var isDisable := if tick.reply.Pass? then true else s.isDisable;
        TickResult(RecordState(isDisable, 0, s.lastSwitch), Attempt(call, Notice(t, DisableTitle, tick.reply)))
      else TickResult(s.(count := count), Quiet)
    else if s.isDisable && count > Threshold then
      if tick.now - s.lastSwitch < CoolDown then TickResult(s.(count := count), Quiet)
      else
        var call := Enable(t.domain, t.recordId, tick.reply);
        var isDisable := if tick.reply.Pass? then false else s.isDisable;
        TickResult(RecordState(isDisable, 0, tick.now), Attempt(call, Notice(t, EnableTitle, tick.reply)))
    else TickResult(s.(count := count), Quiet)
  }

  /** A sequence of ticks, in order: the final state and the effects of each tick. */
  function Run(t: Target, s: RecordState, ticks: seq<TickInput>): (r: RunResult)
    ensures |r.effects| == |ticks|
  {
    if |ticks| == 0 then RunResult(s, [])
    else
      var before := Run(t, s, ticks[..|ticks| - 1]);
      var step := Tick(t, before.state, ticks[|ticks| - 1]);
      RunResult(step.state, before.effects + [step.effect])
  }

  /** The status calls among the effects, in order. */
  function Calls(effects: seq<Effect>): (calls: seq<StatusCall>)
    ensures |calls| <= |effects|
  {
    if |effects| == 0 then []
    else
      var last := effects[|effects| - 1];
      Calls(effects[..|effects| - 1]) + if last.Attempt? then [last.call] else []
  }

  /** One watched record, as the loop sees it. */
  class Record {
    const domain: string
    const value: string
    const item: RecordItem
    var isDisable: bool

    /** What the record's requests and messages are about. */
    function Watched(): Target
    {
      Target(domain, value, item.recordId)
    }

    /** `newRecord`: a record starts out not disabled. */
    constructor (item: RecordItem, domain: string, value: string)
      ensures this.item == item && this.domain == domain && this.value == value
      ensures !isDisable
    {
      this.item := item;
      this.domain := domain;
      this.value := value;
      isDisable := false;
    }

    /** One iteration of the loop, with the loop's locals passed in and out. */
    method Step(count: int, lastSwitch: int, tick: TickInput) returns (nextCount: int, nextSwitch: int, effect: Effect)
      modifies this
      ensures Tick(Watched(), RecordState(old(isDisable), count, lastSwitch), tick)
        == TickResult(RecordState(isDisable, nextCount, nextSwitch), effect)
    {
      nextCount := count + 1;
      nextSwitch := lastSwitch;
      effect := Quiet;
      if !tick.probeOk {
        if !isDisable && nextCount > Threshold {
          nextCount := 0;
          var call := Disable(domain, item.recordId, tick.reply);
          var msg := BaseMessage(Watched(), DisableTitle);
          if tick.reply.Fail? {
            msg := msg + FailurePrefix + tick.reply.message;
          } else {
            isDisable := true;
          }
          effect := Attempt(call, Notification(DisableTitle, msg));
        }
      } else if isDisable && nextCount > Threshold {
        if tick.now - lastSwitch < CoolDown {
          return;
        }
        nextSwitch := tick.now;
        nextCount := 0;
        var call := Enable(domain, item.recordId, tick.reply);
        var msg := BaseMessage(Watched(), EnableTitle);
        if tick.reply.Fail? {
          msg := msg + FailurePrefix + tick.reply.message;
        } else {
          isDisable := false;
        }
        effect := Attempt(call, Notification(EnableTitle, msg));
      }
    }

    /** The loop over a finite sequence of ticks: `lastSwitch` starts at the
        loop's start time and the counter at 0. */
    method Watch(start: int, ticks: seq<TickInput>) returns (effects: seq<Effect>)
      modifies this
      ensures var r := Run(Watched(), RecordState(old(isDisable), 0, start), ticks);
        isDisable == r.state.isDisable && effects == r.effects
    {
      var count := 0;
      var lastSwitch := start;
      effects := [];
      var i := 0;
      while i < |ticks|
        invariant 0 <= i <= |ticks|
        invariant Run(Watched(), RecordState(old(isDisable), 0, start), ticks[..i])
          == RunResult(RecordState(isDisable, count, lastSwitch), effects)
      {
        var effect;
        count, lastSwitch, effect := Step(count, lastSwitch, ticks[i]);
        effects := effects + [effect];
        assert ticks[..i + 1][..i] == ticks[..i];
        i := i + 1;
      }
      assert ticks[..|ticks|] == ticks;
    }
  }

  /** The predicate "this effect is an attempt to set `status`". */
  predicate Attempts(e: Effect, status: Status)
  {
    e.Attempt? && e.call.request.status == status
  }

  /** A disable attempt happens exactly when the probe fails, the record is
      not disabled and the counter, this tick included, exceeds the threshold. */
  lemma DisableAttemptIff(t: Target, s: RecordState, tick: TickInput)
    ensures Attempts(Tick(t, s, tick).effect, DISABLE) <==> !tick.probeOk && !s.isDisable && s.count + 1 > Threshold
  {
  }

  /** An enable attempt happens exactly when the probe succeeds, the record is
      disabled, the counter exceeds the threshold and the cool-down since
      `lastSwitch` has passed. */
  lemma EnableAttemptIff(t: Target, s: RecordState, tick: TickInput)
    ensures Attempts(Tick(t, s, tick).effect, ENABLE) <==>
      tick.probeOk && s.isDisable && s.count + 1 > Threshold && tick.now - s.lastSwitch >= CoolDown
  {
  }

  /** Within the cool-down an enable-eligible tick changes nothing but the counter. */
  lemma CoolDownOnlyCounts(t: Target, s: RecordState, tick: TickInput)
    requires tick.probeOk && s.isDisable && s.count + 1 > Threshold && tick.now - s.lastSwitch < CoolDown
    ensures Tick(t, s, tick) == TickResult(s.(count := s.count + 1), Quiet)
  {
  }

  /** Every attempt is one call for this record's id and domain, answered by
      the tick's reply; `isDisable` changes only when that call succeeds, and
      then mirrors the status it asked for. */
  lemma FlagFollowsSuccessfulCall(t: Target, s: RecordState, tick: TickInput)
    ensures var r := Tick(t, s, tick);
      r.effect.Attempt? ==>
        r.effect.call.request.domain == t.domain && r.effect.call.request.recordId == t.recordId
        && r.effect.call.reply == tick.reply
    ensures var r := Tick(t, s, tick);
      r.state.isDisable == if r.effect.Attempt? && tick.reply.Pass? then r.effect.call.request.status == DISABLE else s.isDisable
  {
  }

  /** Each attempt carries exactly one notification: the title names the
      event, and the message is the base text, followed by the provider's
      error when the call failed. */
  lemma OneNoticePerAttempt(t: Target, s: RecordState, tick: TickInput)
    ensures var e := Tick(t, s, tick).effect;
      e.Attempt? ==>
        var title := if e.call.request.status == DISABLE then DisableTitle else EnableTitle;
        e.notice.title == title
        && e.notice.content == BaseMessage(t, title) + (if tick.reply.Fail? then FailurePrefix + tick.reply.message else "")
  {
  }

  /** Attempts are rate-limited by the counter: two attempts are more than
      `Threshold` ticks apart, and the first one comes no earlier than the
      tick that takes the starting counter past the threshold; the counter is
      at most the number of ticks since the start or the last attempt. */
  lemma {:induction false} AttemptsAreSpaced(t: Target, s: RecordState, ticks: seq<TickInput>)
    requires s.count >= 0
    ensures var r := Run(t, s, ticks);
      forall i, j :: 0 <= j < i < |r.effects| && r.effects[i].Attempt? && r.effects[j].Attempt? ==> i - j > Threshold
    ensures var r := Run(t, s, ticks);
      forall i :: 0 <= i < |r.effects| && r.effects[i].Attempt? ==> s.count + i + 1 > Threshold
    ensures var r := Run(t, s, ticks);
      r.state.count <= s.count + |ticks|
      && forall j :: 0 <= j < |r.effects| && r.effects[j].Attempt? ==> r.state.count <= |ticks| - 1 - j
  {
    if |ticks| > 0 {
      var prefix := ticks[..|ticks| - 1];
      AttemptsAreSpaced(t, s, prefix);
      var before := Run(t, s, prefix);
      var r := Run(t, s, ticks);
      var n := |ticks|;
      assert r.effects == before.effects + [r.effects[n - 1]];
      forall j | 0 <= j < n - 1 && r.effects[j].Attempt?
        ensures r.state.count <= n - 1 - j
      {
        assert before.effects[j] == r.effects[j];
      }
      forall i, j | 0 <= j < i < n && r.effects[i].Attempt? && r.effects[j].Attempt?
        ensures i - j > Threshold
      {
        assert before.effects[j] == r.effects[j];
        if i < n - 1 {
          assert before.effects[i] == r.effects[i];
        }
      }
      forall i | 0 <= i < n && r.effects[i].Attempt?
        ensures s.count + i + 1 > Threshold
      {
        if i < n - 1 {
          assert before.effects[i] == r.effects[i];
        }
      }
    }
  }

  /** The counter counts ticks, not consecutive failures: three good probes
      and then a single failed one make a fresh record's loop attempt to
      disable it on the fourth tick. */
  lemma SingleFailureDisables(t: Target, start: int, ticks: seq<TickInput>)
    requires |ticks| == 4 && ticks[0].probeOk && ticks[1].probeOk && ticks[2].probeOk && !ticks[3].probeOk
    ensures Attempts(Run(t, RecordState(false, 0, start), ticks).effects[3], DISABLE)
  {
    var s0 := RecordState(false, 0, start);
    assert ticks[..3][..2][..1][..0] == [];
    assert Run(t, s0, ticks[..1]).state == RecordState(false, 1, start);
    assert ticks[..2][..1] == ticks[..1];
    assert Run(t, s0, ticks[..2]).state == RecordState(false, 2, start);
    assert ticks[..3][..2] == ticks[..2];
    assert Run(t, s0, ticks[..3]).state == RecordState(false, 3, start);
    assert ticks[..3] == ticks[..|ticks| - 1];
  }

  /** A record already DISABLE at the provider when its loop starts is never
      enabled while its IP answers: `isDisable` starts false whatever the
      record's status, and a record that is not disabled makes no attempt on
      a good probe. */
  lemma {:induction false} ReachableNeverEnables(t: Target, count: int, start: int, ticks: seq<TickInput>)
    requires forall k :: 0 <= k < |ticks| ==> ticks[k].probeOk
    ensures var r := Run(t, RecordState(false, count, start), ticks);
      !r.state.isDisable && Calls(r.effects) == []
  {
    if |ticks| > 0 {
      var prefix := ticks[..|ticks| - 1];
      ReachableNeverEnables(t, count, start, prefix);
      var r := Run(t, RecordState(false, count, start), ticks);
      assert r.effects[..|r.effects| - 1] == Run(t, RecordState(false, count, start), prefix).effects;
    }
  }

  /** With no other writer, the provider's status for the record stays what
      `isDisable` says: if they agree before the loop, they agree after the
      loop's calls have been applied in order. */
  lemma {:induction false} FlagMirrorsProvider(t: Target, s: RecordState, ticks: seq<TickInput>, provider: map<RecordId, Status>)
    requires t.recordId in provider && provider[t.recordId] == StatusOf(s.isDisable)
    ensures var r := Run(t, s, ticks);
      t.recordId in ApplyAll(provider, Calls(r.effects))
      && ApplyAll(provider, Calls(r.effects))[t.recordId] == StatusOf(r.state.isDisable)
  {
    if |ticks| > 0 {
      var prefix := ticks[..|ticks| - 1];
      FlagMirrorsProvider(t, s, prefix, provider);
      var before := Run(t, s, prefix);
      var r := Run(t, s, ticks);
      var step := Tick(t, before.state, ticks[|ticks| - 1]);
      assert r.state == step.state && r.effects == before.effects + [step.effect];
      FlagFollowsSuccessfulCall(t, before.state, ticks[|ticks| - 1]);
      assert r.effects[..|r.effects| - 1] == before.effects;
      var calls := Calls(before.effects);
      if step.effect.Attempt? {
        assert Calls(r.effects) == calls + [step.effect.call];
        assert (calls + [step.effect.call])[..|calls|] == calls;
        assert ApplyAll(provider, Calls(r.effects)) == Apply(ApplyAll(provider, calls), step.effect.call);
      } else {
        assert Calls(r.effects) == calls;
      }
    }
  }
}
