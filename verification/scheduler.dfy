/**
 * Injection scheduling in background.js: `injectScript`, `runCondition` and
 * `scheduleInjection`.
 *
 * One task is started per (tab, matched rule). Its timeline is driven by two
 * kinds of event from the browser: a timer the task armed fires, or the
 * answer to a condition evaluation it requested arrives. The task's requests
 * to the browser are recorded, in order, as effects.
 */
module Scheduler {
  import opened Wrappers
  import opened Text
  import opened RuleModel

  /** A request the task makes of the browser. */
  datatype Effect =
    | SetTimeout(ms: real)            // arm a one-shot timer
    | EvaluateCondition(code: string) // executeScript of the condition in the page
    | ExecuteScript(code: string)     // executeScript that appends the script to the page

  /**
   * The browser's answer to a condition evaluation: the promise rejected, or
   * it resolved with one entry per frame, holding the frame's `result`
   * (None when the frame gave no result).
   */
  datatype ExecReply = Rejected | Resolved(results: seq<Option<bool>>)

  /** `!s || !s.trim()` for an optional string (a trim is empty exactly when the string is blank). */
  predicate IsBlankOpt(s: Option<string>) {
    s.None? || IsBlank(s.value)
  }

  /** `injectScript(tabId, content)`: the requests it makes. */
  function InjectScript(content: string): (effects: seq<Effect>)
    ensures IsBlank(content) ==> effects == []
    ensures !IsBlank(content) ==> effects == [ExecuteScript(content)]
  {
    if IsBlank(content) then [] else [ExecuteScript(content)]
  }

  /** The request `runCondition(tabId, code)` makes before it can answer. */
  function ConditionRequest(code: Option<string>): seq<Effect> {
    if IsBlankOpt(code) then [] else [EvaluateCondition(code.value)]
  }

  /** `runCondition(tabId, code)`, given the browser's answer to its request. */
  function RunCondition(code: Option<string>, reply: ExecReply): bool {
    if IsBlankOpt(code) then true
    else
      match reply
      case Rejected => false
      case Resolved(results) => |results| > 0 && results[0] == Some(true)
  }

  /**
   * A blank or missing condition holds without asking the page; otherwise
   * only a first frame result that is exactly `true` counts, and a rejected
   * request counts as `false`.
   */
  lemma RunConditionOutcomes(code: Option<string>, reply: ExecReply)
    ensures (code.None? || IsBlank(code.value)) ==> RunCondition(code, reply)
    ensures code.Some? && !IsBlank(code.value) ==>
      (RunCondition(code, reply) <==> reply.Resolved? && |reply.results| > 0 && reply.results[0] == Some(true))
    ensures code.Some? && !IsBlank(code.value) && reply.Rejected? ==> !RunCondition(code, reply)
  {
  }

  /** `delayMs`: the rule's delay in milliseconds, 0 when it is missing or not positive. */
  function DelayMs(rule: Rule): (ms: real)
    ensures ms >= 0.0
    ensures ms > 0.0 <==> rule.delaySeconds.Some? && rule.delaySeconds.value > 0.0
  {
    if rule.delaySeconds.Some? && rule.delaySeconds.value > 0.0 then rule.delaySeconds.value * 1000.0 else 0.0
  }

  /** `hasCondition` */
  predicate HasCondition(rule: Rule) {
    !IsBlankOpt(rule.injectionCondition)
  }

  // ---------------------------------------------------------------------
  // The task's state machine

  /** The callback an armed timer will run. */
  datatype Callback = DoInject | CheckConditionThenInject

  datatype Phase =
    | Armed(callback: Callback)   // a timer is pending
    | AwaitingCondition          // a condition evaluation is pending
    | Injected                   // doInject has run; nothing is pending
    | Stopped                    // the condition failed with no delay to retry on; nothing is pending

  /** The task's phase, the requests made so far and the number of times `doInject` ran. */
  datatype TaskState = TaskState(phase: Phase, effects: seq<Effect>, injections: nat)

  /** `doInject()` */
  function Inject(rule: Rule, effects: seq<Effect>, injections: nat): TaskState {
    TaskState(Injected, effects + InjectScript(rule.scriptContent), injections + 1)
  }

  /** `checkConditionThenInject()` up to the point where it waits for the answer. */
  function Check(rule: Rule, effects: seq<Effect>, injections: nat): TaskState {
    TaskState(AwaitingCondition, effects + ConditionRequest(rule.injectionCondition), injections)
  }

  /** `setTimeout(callback, delayMs)` */
  function Arm(rule: Rule, callback: Callback, effects: seq<Effect>, injections: nat): TaskState {
    TaskState(Armed(callback), effects + [SetTimeout(DelayMs(rule))], injections)
  }

  /** `scheduleInjection(tabId, rule)`: the state right after the call returns. */
  function Start(rule: Rule): TaskState {
    if !HasCondition(rule) then
      if DelayMs(rule) > 0.0 then Arm(rule, DoInject, [], 0) else Inject(rule, [], 0)
    else
      if DelayMs(rule) > 0.0 then Arm(rule, CheckConditionThenInject, [], 0) else Check(rule, [], 0)
  }

  /** The pending timer fires. */
  function OnTimer(rule: Rule, s: TaskState): TaskState
    requires s.phase.Armed?
  {
    match s.phase.callback
    case DoInject => Inject(rule, s.effects, s.injections)
    case CheckConditionThenInject => Check(rule, s.effects, s.injections)
  }

  /** The pending condition evaluation is answered. */
  function OnReply(rule: Rule, s: TaskState, reply: ExecReply): TaskState
    requires s.phase == AwaitingCondition
  {
    if RunCondition(rule.injectionCondition, reply) then Inject(rule, s.effects, s.injections)
    else if DelayMs(rule) > 0.0 then Arm(rule, CheckConditionThenInject, s.effects, s.injections)
    else TaskState(Stopped, s.effects, s.injections)
  }

  datatype Event = TimerFires | ConditionAnswered(reply: ExecReply)

  /** One event; None when the task has nothing pending that the event could answer. */
  function Step(rule: Rule, s: TaskState, e: Event): Option<TaskState> {
    match e
    case TimerFires => if s.phase.Armed? then Some(OnTimer(rule, s)) else None
    case ConditionAnswered(reply) =>
      if s.phase == AwaitingCondition then Some(OnReply(rule, s, reply)) else None
  }

  /** The state after `scheduleInjection` and then the given events, if they can happen in that order. */
  function Run(rule: Rule, events: seq<Event>): Option<TaskState>
    decreases |events|
  {
    if events == [] then Some(Start(rule))
    else
      match Run(rule, events[..|events| - 1])
      case None => None
      case Some(s) => Step(rule, s, events[|events| - 1])
  }

  // ---------------------------------------------------------------------
  // The states a task can reach

  predicate NoEvaluation(effects: seq<Effect>) {
    forall i :: 0 <= i < |effects| ==> !effects[i].EvaluateCondition?
  }

  predicate NoExecution(effects: seq<Effect>) {
    forall i :: 0 <= i < |effects| ==> !effects[i].ExecuteScript?
  }

  /** The page is asked to run the script at most once. */
  predicate AtMostOneExecution(effects: seq<Effect>) {
    forall i, j :: 0 <= i < |effects| && 0 <= j < |effects| && effects[i].ExecuteScript? && effects[j].ExecuteScript? ==> i == j
  }

  /** The requests of k failed polls after the first timer: one evaluation and one re-armed timer each. */
  function PollEffects(rule: Rule, k: nat): seq<Effect>
  {
    if k == 0 then [SetTimeout(DelayMs(rule))]
    else PollEffects(rule, k - 1) + ConditionRequest(rule.injectionCondition) + [SetTimeout(DelayMs(rule))]
  }

  /** Every timer of a polling run waits the rule's delay, and the page is never told to run the script. */
  lemma {:induction false} PollEffectsShape(rule: Rule, k: nat)
    ensures forall i :: 0 <= i < |PollEffects(rule, k)| && PollEffects(rule, k)[i].SetTimeout? ==>
      PollEffects(rule, k)[i].ms == DelayMs(rule)
    ensures NoExecution(PollEffects(rule, k))
  {
    if k > 0 {
      PollEffectsShape(rule, k - 1);
      var prev := PollEffects(rule, k - 1);
      var all := PollEffects(rule, k);
      assert all == prev + ConditionRequest(rule.injectionCondition) + [SetTimeout(DelayMs(rule))];
      forall i | 0 <= i < |all| ensures (all[i].SetTimeout? ==> all[i].ms == DelayMs(rule)) && !all[i].ExecuteScript? {
        if i < |prev| { assert all[i] == prev[i]; }
      }
    }
  }

  /**
   * The states a task can be in, case by case: without a condition it is
   * waiting for its one timer or done; with a condition and no delay it is
   * waiting for the one answer, done, or stopped; with a condition and a
   * delay it has failed k polls and is waiting for the next timer or answer,
   * or is done.
   */
  ghost predicate Reachable(rule: Rule, s: TaskState) {
    var d := DelayMs(rule);
    if !HasCondition(rule) then
      if d == 0.0 then s == Inject(rule, [], 0)
      else s == Arm(rule, DoInject, [], 0) || s == Inject(rule, [SetTimeout(d)], 0)
    else if d == 0.0 then
      var asked := ConditionRequest(rule.injectionCondition);
      s == Check(rule, [], 0) || s == Inject(rule, asked, 0) || s == TaskState(Stopped, asked, 0)
    else
      exists k: nat ::
        || s == TaskState(Armed(CheckConditionThenInject), PollEffects(rule, k), 0)
        || s == Check(rule, PollEffects(rule, k), 0)
        || s == Inject(rule, PollEffects(rule, k) + ConditionRequest(rule.injectionCondition), 0)
  }

  lemma StartReachable(rule: Rule)
    ensures Reachable(rule, Start(rule))
  {
    if HasCondition(rule) && DelayMs(rule) > 0.0 {
      assert Start(rule) == TaskState(Armed(CheckConditionThenInject), PollEffects(rule, 0), 0);
    }
  }

  lemma StepReachable(rule: Rule, s: TaskState, e: Event)
    requires Reachable(rule, s)
    ensures Step(rule, s, e).Some? ==> Reachable(rule, Step(rule, s, e).value)
  {
    if HasCondition(rule) && DelayMs(rule) > 0.0 && Step(rule, s, e).Some? {
      var k: nat :|
        || s == TaskState(Armed(CheckConditionThenInject), PollEffects(rule, k), 0)
        || s == Check(rule, PollEffects(rule, k), 0)
        || s == Inject(rule, PollEffects(rule, k) + ConditionRequest(rule.injectionCondition), 0);
      var c := ConditionRequest(rule.injectionCondition);
      if s.phase == AwaitingCondition && e.ConditionAnswered? && !RunCondition(rule.injectionCondition, e.reply) {
        assert Step(rule, s, e).value == TaskState(Armed(CheckConditionThenInject), PollEffects(rule, k + 1), 0);
      } else {
        assert Step(rule, s, e).value == Check(rule, PollEffects(rule, k), 0)
            || Step(rule, s, e).value == Inject(rule, PollEffects(rule, k) + c, 0);
      }
    }
  }

  /** Every state the task can reach is one of those listed by Reachable. */
  lemma {:induction false} RunReachable(rule: Rule, events: seq<Event>)
    ensures Run(rule, events).Some? ==> Reachable(rule, Run(rule, events).value)
    decreases |events|
  {
    if events == [] {
      StartReachable(rule);
    } else {
      var prefix := events[..|events| - 1];
      RunReachable(rule, prefix);
      if Run(rule, prefix).Some? {
        StepReachable(rule, Run(rule, prefix).value, events[|events| - 1]);
      }
    }
  }

  // ---------------------------------------------------------------------
  // What the scheduler promises

  /** A prefix the page was never told to run the script in, followed by at most one script request. */
  lemma ThenInject(prefix: seq<Effect>, content: string)
    requires NoExecution(prefix)
    ensures AtMostOneExecution(prefix + InjectScript(content))
    ensures AtMostOneExecution(prefix)
  {
    var all := prefix + InjectScript(content);
    assert forall i :: 0 <= i < |prefix| ==> all[i] == prefix[i];
    assert forall i :: 0 <= i < |all| && all[i].ExecuteScript? ==> i == |prefix|;
  }

  /**
   * Whatever the browser does, a task runs `doInject` at most once and asks
   * the page to run the script at most once; once injected, nothing more
   * can happen to it.
   */
  lemma InjectsAtMostOnce(rule: Rule, events: seq<Event>, more: Event)
    ensures Run(rule, events).Some? ==>
      var s := Run(rule, events).value;
      && s.injections <= 1
      && (s.phase == Injected <==> s.injections == 1)
      && AtMostOneExecution(s.effects)
      && (s.phase == Injected ==> Run(rule, events + [more]).None?)
  {
    assert (events + [more])[..|events + [more]| - 1] == events;
    RunReachable(rule, events);
    if Run(rule, events).Some? {
      var s := Run(rule, events).value;
      var t := rule.scriptContent;
      var c := ConditionRequest(rule.injectionCondition);
      var d := [SetTimeout(DelayMs(rule))];
      ThenInject([], t);
      ThenInject(c, t);
      ThenInject(d, t);
      assert [] + InjectScript(t) == InjectScript(t);
      if HasCondition(rule) && DelayMs(rule) > 0.0 {
        var k: nat :|
          || s == TaskState(Armed(CheckConditionThenInject), PollEffects(rule, k), 0)
          || s == Check(rule, PollEffects(rule, k), 0)
          || s == Inject(rule, PollEffects(rule, k) + c, 0);
        var p := PollEffects(rule, k);
        PollEffectsShape(rule, k);
        assert NoExecution(p + c) by {
          forall i | 0 <= i < |p + c| ensures !(p + c)[i].ExecuteScript? {
            if i < |p| { assert (p + c)[i] == p[i]; }
          }
        }
        ThenInject(p + c, t);
      }
    }
  }

  predicate TimersWait(effects: seq<Effect>, ms: real) {
    forall i :: 0 <= i < |effects| && effects[i].SetTimeout? ==> effects[i].ms == ms
  }

  lemma TimersWaitAppend(a: seq<Effect>, b: seq<Effect>, ms: real)
    requires TimersWait(a, ms) && TimersWait(b, ms)
    ensures TimersWait(a + b, ms)
  {
    assert forall i :: 0 <= i < |a| ==> (a + b)[i] == a[i];
    assert forall i :: |a| <= i < |a + b| ==> (a + b)[i] == b[i - |a|];
  }

  lemma ReachableTimers(rule: Rule, s: TaskState)
    requires Reachable(rule, s)
    ensures TimersWait(s.effects, DelayMs(rule))
    ensures DelayMs(rule) == 0.0 ==> forall i :: 0 <= i < |s.effects| ==> !s.effects[i].SetTimeout?
  {
    var d := DelayMs(rule);
    var t := InjectScript(rule.scriptContent);
    var c := ConditionRequest(rule.injectionCondition);
    assert TimersWait(t, d) && TimersWait(c, d) && TimersWait([SetTimeout(d)], d);
    if HasCondition(rule) && d > 0.0 {
      var k: nat :|
        || s == TaskState(Armed(CheckConditionThenInject), PollEffects(rule, k), 0)
        || s == Check(rule, PollEffects(rule, k), 0)
        || s == Inject(rule, PollEffects(rule, k) + c, 0);
      PollEffectsShape(rule, k);
      TimersWaitAppend(PollEffects(rule, k), c, d);
      TimersWaitAppend(PollEffects(rule, k) + c, t, d);
    } else if d > 0.0 {
      TimersWaitAppend([SetTimeout(d)], t, d);
    } else {
      assert [] + t == t && [] + c == c;
      TimersWaitAppend(c, t, d);
      assert s.effects == t || s.effects == c || s.effects == c + t;
    }
  }

  /**
   * Every timer a task arms waits the rule's `delaySeconds * 1000`
   * milliseconds, which is positive; with no positive delay no timer is
   * ever armed.
   */
  lemma TimersUseThePeriod(rule: Rule, events: seq<Event>)
    ensures Run(rule, events).Some? ==>
      var s := Run(rule, events).value;
      forall i :: 0 <= i < |s.effects| && s.effects[i].SetTimeout? ==>
        rule.delaySeconds.Some? && rule.delaySeconds.value > 0.0 && s.effects[i].ms == rule.delaySeconds.value * 1000.0
  {
    RunReachable(rule, events);
    if Run(rule, events).Some? {
      ReachableTimers(rule, Run(rule, events).value);
    }
  }

  /** Without a condition the page is never asked anything, and the task never gives up. */
  lemma NoConditionNeverEvaluates(rule: Rule, events: seq<Event>)
    requires !HasCondition(rule)
    ensures Run(rule, events).Some? ==>
      var s := Run(rule, events).value;
      NoEvaluation(s.effects) && (s.phase == Armed(DoInject) || s.phase == Injected)
  {
    RunReachable(rule, events);
  }

  /**
   * Without a condition the script is injected at once when the delay is
   * missing or not positive; otherwise one timer is armed and its firing
   * injects.
   */
  lemma NoConditionSchedule(rule: Rule)
    requires !HasCondition(rule)
    ensures DelayMs(rule) == 0.0 ==>
      Start(rule) == TaskState(Injected, InjectScript(rule.scriptContent), 1)
    ensures DelayMs(rule) > 0.0 ==>
      && Start(rule) == TaskState(Armed(DoInject), [SetTimeout(DelayMs(rule))], 0)
      && Run(rule, [TimerFires]) ==
           Some(TaskState(Injected, [SetTimeout(DelayMs(rule))] + InjectScript(rule.scriptContent), 1))
  {
    assert [TimerFires][..0] == [];
  }

  /**
   * With a condition the first evaluation is requested at once when there is
   * no delay, otherwise when the first timer fires.
   */
  lemma ConditionSchedule(rule: Rule)
    requires HasCondition(rule)
    ensures DelayMs(rule) == 0.0 ==>
      Start(rule) == TaskState(AwaitingCondition, [EvaluateCondition(rule.injectionCondition.value)], 0)
    ensures DelayMs(rule) > 0.0 ==>
      && Start(rule) == TaskState(Armed(CheckConditionThenInject), [SetTimeout(DelayMs(rule))], 0)
      && Run(rule, [TimerFires]) ==
           Some(TaskState(AwaitingCondition,
                          [SetTimeout(DelayMs(rule)), EvaluateCondition(rule.injectionCondition.value)], 0))
  {
    var c := ConditionRequest(rule.injectionCondition);
    assert c == [EvaluateCondition(rule.injectionCondition.value)];
    if DelayMs(rule) > 0.0 {
      var t := [SetTimeout(DelayMs(rule))];
      assert [] + t == t;
      assert [TimerFires][..0] == [];
      assert Run(rule, [TimerFires]) == Step(rule, Start(rule), TimerFires);
      assert t + c == [SetTimeout(DelayMs(rule)), EvaluateCondition(rule.injectionCondition.value)];
    } else {
      assert [] + c == c;
    }
  }

  /**
   * With a condition and no delay, the task takes exactly one answer: true
   * injects, anything else stops it for good without injecting, and no
   * further event can reach it.
   */
  lemma {:induction false} ZeroDelayNeverRetries(rule: Rule, events: seq<Event>)
    requires HasCondition(rule) && DelayMs(rule) == 0.0
    ensures Run(rule, events).Some? ==> |events| <= 1
    ensures Run(rule, events).Some? && |events| == 1 ==>
      var s := Run(rule, events).value;
      && events[0].ConditionAnswered?
      && (s.phase == Injected <==> RunCondition(rule.injectionCondition, events[0].reply))
      && (s.phase == Stopped <==> !RunCondition(rule.injectionCondition, events[0].reply))
      && s.effects == [EvaluateCondition(rule.injectionCondition.value)]
                        + (if s.phase == Injected then InjectScript(rule.scriptContent) else [])
    decreases |events|
  {
    if events != [] {
      var prefix := events[..|events| - 1];
      ZeroDelayNeverRetries(rule, prefix);
      if |events| == 1 {
        assert prefix == [];
      }
    }
  }

  /** The events of k polls: each time the timer fires and then the answer comes back. */
  function PollEvents(replies: seq<ExecReply>): seq<Event>
    decreases |replies|
  {
    if replies == [] then []
    else PollEvents(replies[..|replies| - 1]) + [TimerFires, ConditionAnswered(replies[|replies| - 1])]
  }

  /**
   * With a condition and a positive delay, a condition that keeps failing is
   * re-checked once per period for ever: after k failed answers the task has
   * armed k + 1 timers of the same length, asked k times and not injected.
   */
  lemma {:induction false} FailingConditionPollsForever(rule: Rule, replies: seq<ExecReply>)
    requires HasCondition(rule) && DelayMs(rule) > 0.0
    requires forall i :: 0 <= i < |replies| ==> !RunCondition(rule.injectionCondition, replies[i])
    ensures Run(rule, PollEvents(replies)) ==
      Some(TaskState(Armed(CheckConditionThenInject), PollEffects(rule, |replies|), 0))
    decreases |replies|
  {
    if replies != [] {
      var prev := replies[..|replies| - 1];
      var last := replies[|replies| - 1];
      var k := |prev|;
      FailingConditionPollsForever(rule, prev);
      var es := PollEvents(replies);
      var before := PollEvents(prev) + [TimerFires];
      assert es == before + [ConditionAnswered(last)];
      assert es[..|es| - 1] == before;
      assert before[..|before| - 1] == PollEvents(prev);
      var waiting := Check(rule, PollEffects(rule, k), 0);
      assert Run(rule, before) == Some(waiting);
      assert !RunCondition(rule.injectionCondition, last);
      assert OnReply(rule, waiting, last) == Arm(rule, CheckConditionThenInject, waiting.effects, 0);
      assert waiting.effects + [SetTimeout(DelayMs(rule))] == PollEffects(rule, k + 1);
      assert Run(rule, es) == Step(rule, waiting, ConditionAnswered(last));
      assert Step(rule, waiting, ConditionAnswered(last)) == Some(OnReply(rule, waiting, last));
      assert OnReply(rule, waiting, last) == TaskState(Armed(CheckConditionThenInject), PollEffects(rule, k + 1), 0);
      assert k + 1 == |replies|;
    } else {
      assert [] + [SetTimeout(DelayMs(rule))] == PollEffects(rule, 0);
    }
  }

  /** When a poll's answer is true the script is injected and the task ends. */
  lemma PollSucceeds(rule: Rule, replies: seq<ExecReply>, reply: ExecReply)
    requires HasCondition(rule) && DelayMs(rule) > 0.0
    requires forall i :: 0 <= i < |replies| ==> !RunCondition(rule.injectionCondition, replies[i])
    requires RunCondition(rule.injectionCondition, reply)
    ensures Run(rule, PollEvents(replies + [reply])) ==
      Some(TaskState(Injected,
                     PollEffects(rule, |replies|) + [EvaluateCondition(rule.injectionCondition.value)]
                       + InjectScript(rule.scriptContent), 1))
  {
    FailingConditionPollsForever(rule, replies);
    var es := PollEvents(replies + [reply]);
    var before := PollEvents(replies) + [TimerFires];
    assert (replies + [reply])[..|replies|] == replies;
    assert es == before + [ConditionAnswered(reply)];
    assert es[..|es| - 1] == before;
    assert before[..|before| - 1] == PollEvents(replies);
  }

  // ---------------------------------------------------------------------
  // The task as the background worker holds it

  /** One injection task: the closure `scheduleInjection` leaves behind for one tab and rule. */
  class InjectionTask {
    const tabId: int
    const rule: Rule
    const delayMs: real
    const hasCondition: bool
    var phase: Phase
    var effects: seq<Effect>
    var injections: nat

    function State(): TaskState
      reads this
    {
      TaskState(phase, effects, injections)
    }

    ghost predicate Valid()
      reads this
    {
      delayMs == DelayMs(rule) && hasCondition == HasCondition(rule) && Reachable(rule, State())
    }

    /** This task was started by `scheduleInjection(tab, r)` and has not moved since. */
    ghost predicate StartedFor(tab: int, r: Rule)
      reads this
    {
      tabId == tab && rule == r && Valid() && State() == Start(r)
    }

    /** `scheduleInjection(tabId, rule)` */
    constructor (tabId: int, rule: Rule)
      ensures this.tabId == tabId && this.rule == rule
      ensures Valid() && State() == Start(rule)
    {
      this.tabId := tabId;
      this.rule := rule;
      delayMs := if rule.delaySeconds.Some? && rule.delaySeconds.value > 0.0 then rule.delaySeconds.value * 1000.0 else 0.0;
      hasCondition := !IsBlankOpt(rule.injectionCondition);
      phase := Stopped;
      effects := [];
      injections := 0;
      new;
      if !hasCondition {
        if delayMs > 0.0 {
          SetTimer(DoInject);
        } else {
          RunDoInject();
        }
      } else if delayMs > 0.0 {
        SetTimer(CheckConditionThenInject);
      } else {
        RunCheckCondition();
      }
      StartReachable(rule);
    }

    method SetTimer(callback: Callback)
      requires delayMs == DelayMs(rule)
      modifies this
      ensures State() == Arm(rule, callback, old(effects), old(injections))
    {
      effects := effects + [SetTimeout(delayMs)];
      phase := Armed(callback);
    }

    method RunDoInject()
      modifies this
      ensures State() == Inject(rule, old(effects), old(injections))
    {
      effects := effects + InjectScript(rule.scriptContent);
      injections := injections + 1;
      phase := Injected;
    }

    method RunCheckCondition()
      modifies this
      ensures State() == Check(rule, old(effects), old(injections))
    {
      effects := effects + ConditionRequest(rule.injectionCondition);
      phase := AwaitingCondition;
    }

    /** The pending timer fires and runs its callback. */
    method FireTimer()
      requires Valid() && phase.Armed?
      modifies this
      ensures Valid() && State() == OnTimer(rule, old(State()))
    {
      ghost var before := State();
      match phase.callback
      case DoInject => RunDoInject();
      case CheckConditionThenInject => RunCheckCondition();
      StepReachable(rule, before, TimerFires);
    }

    /** The pending condition evaluation is answered: the `.then` of `checkConditionThenInject`. */
    method AnswerArrived(reply: ExecReply)
      requires Valid() && phase == AwaitingCondition
      modifies this
      ensures Valid() && State() == OnReply(rule, old(State()), reply)
    {
      ghost var before := State();
      var ok := RunCondition(rule.injectionCondition, reply);
      if ok {
        RunDoInject();
      } else if delayMs > 0.0 {
        SetTimer(CheckConditionThenInject);
      } else {
        phase := Stopped;
      }
      StepReachable(rule, before, ConditionAnswered(reply));
    }
  }
}
