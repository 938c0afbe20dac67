/**
 * The deadline-bounded batch runner (src/automation/agent_actions.rs) on a clock in seconds. How long the browser
 * would take for each operation is arbitrary, a hang being a very long time; every operation is cut off at its cap.
 */
module BatchRunner {
  import opened Text

  const BATCH_BUDGET := 95.0
  const MAX_BATCH := 25
  const DOM_CAP := 8.0
  const LOAD_CAP := 8.0
  const IDLE_CAP := 2.5
  const OBSERVATION_CAP := 12.0

  /** The action names the runner treats apart; every other name is handled alike. */
  datatype Verb =
    | Wait | Navigate | Back | Click | Submit | PressKey | GetScreenshot
    | Check | Scroll | EvaluateJs | Select | Fill | TypeText | Type | Other(name: string)

  /** One requested action; `seconds` is the number given with a `wait`. */
  datatype Action = Action(verb: Verb, seconds: Option<real>) {
    /** The per-action hard timeout. */
    function Budget(): (r: real)
      ensures 5.0 <= r <= 35.0
    {
      match verb
      case Wait => Clamp(if seconds.Some? then seconds.value else 1.0) + 5.0
      case Navigate | Back => 35.0
      case Click | Submit | PressKey | GetScreenshot => 20.0
      case _ => 15.0
    }

    predicate Navigates() {
      verb.Click? || verb.Submit? || verb.Navigate? || verb.PressKey? || verb.Back?
    }

    /** Whether the page is left to settle and its snapshot taken anew. */
    predicate Refreshes() {
      Navigates() || verb.Check? || verb.Scroll? || verb.EvaluateJs? || verb.Select? || verb.Fill? || verb.TypeText? ||
      verb.Type?
    }

    function SettleCap(): real {
      if Navigates() then LOAD_CAP + IDLE_CAP + DOM_CAP else if Refreshes() then IDLE_CAP + DOM_CAP else 0.0
    }
  }

  function Min(a: real, b: real): real {
    if a <= b then a else b
  }

  function Max(a: real, b: real): real {
    if a >= b then a else b
  }

  function Clamp(s: real): real {
    Min(Max(s, 0.0), 10.0)
  }

  type Duration = d: real | 0.0 <= d

  /** What one action and the refresh after it would take, uncut. */
  datatype Timing = Timing(run: Duration, load: Duration, idle: Duration, dom: Duration)

  datatype Outcome = Done | TimedOut | Skipped

  datatype Result = Result(action: Verb, outcome: Outcome)

  /** The time allowed to an action started at time `s` after the deadline was set. */
  function Allowed(a: Action, s: real): real {
    Max(Min(a.Budget(), BATCH_BUDGET - s), 1.0)
  }

  function SettleTime(a: Action, t: Timing): real {
    (if a.Navigates() then Min(t.load, LOAD_CAP) else 0.0) +
    (if a.Refreshes() then Min(t.idle, IDLE_CAP) + Min(t.dom, DOM_CAP) else 0.0)
  }

  /** The time after the first `n` actions, counted from when the deadline was set. */
  function LoopTime(actions: seq<Action>, ts: seq<Timing>, n: nat): real
    requires n <= |actions| == |ts|
  {
    if n == 0 then 0.0
    else
      var s := LoopTime(actions, ts, n - 1);
      if s >= BATCH_BUDGET then s
      else s + Min(ts[n - 1].run, Allowed(actions[n - 1], s)) + SettleTime(actions[n - 1], ts[n - 1])
  }

  function ResultOf(actions: seq<Action>, ts: seq<Timing>, i: nat): Result
    requires i < |actions| == |ts|
  {
    var s := LoopTime(actions, ts, i);
    Result(actions[i].verb,
           if s >= BATCH_BUDGET then Skipped else if ts[i].run <= Allowed(actions[i], s) then Done else TimedOut)
  }

  function Count(actions: seq<Action>): nat {
    if |actions| <= MAX_BATCH then |actions| else MAX_BATCH
  }

  /** The time until the reply. */
  function ReplyTime(actions: seq<Action>, ts: seq<Timing>, snapshot: Duration, observation: Duration): real
    requires |actions| == |ts|
  {
    if actions == [] then Min(observation, OBSERVATION_CAP)
    else Min(snapshot, DOM_CAP) + LoopTime(actions, ts, Count(actions)) + Min(observation, OBSERVATION_CAP)
  }

  /** `now` is the clock; `snapshot` and `observation` are what the first and last page reads would take. */
  method RunAgentActions(actions: seq<Action>, ts: seq<Timing>, snapshot: Duration, observation: Duration)
    returns (results: seq<Result>, now: real)
    requires |actions| == |ts|
    ensures now == ReplyTime(actions, ts, snapshot, observation)
    ensures |results| == Count(actions)
    ensures forall i | 0 <= i < |results| :: results[i] == ResultOf(actions, ts, i)
  {
    results, now := [], 0.0;
    if actions == [] {
      now := now + Min(observation, OBSERVATION_CAP);
      return;
    }
    now := now + Min(snapshot, DOM_CAP);
    var deadline := now + BATCH_BUDGET;
    for i := 0 to Count(actions)
      invariant now == Min(snapshot, DOM_CAP) + LoopTime(actions, ts, i)
      invariant |results| == i
      invariant forall j | 0 <= j < i :: results[j] == ResultOf(actions, ts, j)
    {
      var act := actions[i];
      var remaining := Max(deadline - now, 0.0);
      if remaining == 0.0 {
        results := results + [Result(act.verb, Skipped)];
        continue;
      }
      var budget := Max(Min(act.Budget(), remaining), 1.0);
      results := results + [Result(act.verb, if ts[i].run <= budget then Done else TimedOut)];
      now := now + Min(ts[i].run, budget);
      if act.Refreshes() {
        if act.Navigates() { now := now + Min(ts[i].load, LOAD_CAP); }
        now := now + Min(ts[i].idle, IDLE_CAP);
        now := now + Min(ts[i].dom, DOM_CAP);
      }
    }
    now := now + Min(observation, OBSERVATION_CAP);
  }

  // ---- Results ----

  /**
   * What the result of each action means: skipped if it would begin 95 seconds or more after the first, done if it
   * ends within its own cap and within what is left of the 95 seconds, or within one second, and timed out otherwise.
   */
  lemma ResultsMean(actions: seq<Action>, ts: seq<Timing>, i: nat)
    requires i < |actions| == |ts|
    ensures var r, began, a, took := ResultOf(actions, ts, i), LoopTime(actions, ts, i), actions[i], ts[i].run;
            r.action == a.verb &&
            (r.outcome == Skipped <==> began >= 95.0) &&
            (r.outcome == Done <==> began < 95.0 && (took <= 1.0 || (took <= a.Budget() && began + took <= 95.0))) &&
            (r.outcome == TimedOut <==>
               began < 95.0 && took > 1.0 && (took > a.Budget() || began + took > 95.0))
  {
  }

  /** A wait has five seconds more than it asks for, within ten, and one second if it asks for none. */
  lemma WaitHasTime(a: Action, asked: real)
    requires a.verb.Wait? && asked == (if a.seconds.Some? then a.seconds.value else 1.0)
    ensures a.Budget() == 5.0 + (if asked < 0.0 then 0.0 else if asked > 10.0 then 10.0 else asked)
  {
  }

  /** The caps of all other actions, and what is left to settle behind them. */
  lemma CapsAre(a: Action)
    ensures a.verb in {Navigate, Back} ==> a.Budget() == 35.0 && a.SettleCap() == 18.5
    ensures a.verb in {Click, Submit, PressKey} ==> a.Budget() == 20.0 && a.SettleCap() == 18.5
    ensures a.verb in {Check, Scroll, EvaluateJs, Select, Fill, TypeText, Type} ==>
              a.Budget() == 15.0 && a.SettleCap() == 10.5
    ensures a.verb == GetScreenshot ==> a.Budget() == 20.0
    ensures a.verb.Other? ==> a.Budget() == 15.0
    ensures a.verb.Wait? || a.verb == GetScreenshot || a.verb.Other? ==> a.SettleCap() == 0.0
  {
  }

  /** No more than 25 actions have a result, and none is left out of a smaller batch. */
  lemma CountIs(actions: seq<Action>)
    ensures Count(actions) <= 25 && Count(actions) <= |actions| && (Count(actions) == 25 || Count(actions) == |actions|)
  {
  }

  lemma {:induction false} TimeGrows(actions: seq<Action>, ts: seq<Timing>, i: nat, j: nat)
    requires i <= j <= |actions| == |ts|
    ensures LoopTime(actions, ts, i) <= LoopTime(actions, ts, j)
    decreases j
  {
    if i < j { TimeGrows(actions, ts, i, j - 1); }
  }

  /** Once an action is skipped for lack of time, so is every later one. */
  lemma SkippedToTheEnd(actions: seq<Action>, ts: seq<Timing>, i: nat, j: nat)
    requires i <= j < |actions| == |ts| && ResultOf(actions, ts, i).outcome == Skipped
    ensures ResultOf(actions, ts, j).outcome == Skipped
  {
    TimeGrows(actions, ts, i, j);
  }

  // ---- The bound ----

  lemma {:induction false} LoopBound(actions: seq<Action>, ts: seq<Timing>, n: nat)
    requires n <= |actions| == |ts|
    ensures 0.0 <= LoopTime(actions, ts, n) < BATCH_BUDGET + 1.0 + LOAD_CAP + IDLE_CAP + DOM_CAP
  {
    if n > 0 { LoopBound(actions, ts, n - 1); }
  }

  /** However many actions are sent and however each hangs, the reply comes before 134.5 seconds. */
  lemma ReplyBound(actions: seq<Action>, ts: seq<Timing>, snapshot: Duration, observation: Duration)
    requires |actions| == |ts|
    ensures 0.0 <= ReplyTime(actions, ts, snapshot, observation) < 134.5
  {
    LoopBound(actions, ts, Count(actions));
  }

  // ---- When the reply is sure to come within the caller's 120 seconds ----

  /** All caps of the first `n` actions together. */
  function CapSum(actions: seq<Action>, n: nat): real
    requires n <= |actions|
  {
    if n == 0 then 0.0 else CapSum(actions, n - 1) + actions[n - 1].Budget() + actions[n - 1].SettleCap()
  }

  /** No page-changing action that is run can be over later than 100 seconds after the first one may start. */
  predicate FitsRunner(actions: seq<Action>) {
    forall j: nat | j < Count(actions) && actions[j].Refreshes() :: CapSum(actions, j + 1) < 100.0
  }

  lemma {:induction false} LoopFits(actions: seq<Action>, ts: seq<Timing>, n: nat)
    requires n <= Count(actions) && |actions| == |ts| && FitsRunner(actions)
    ensures LoopTime(actions, ts, n) <= CapSum(actions, n) && LoopTime(actions, ts, n) < 100.0
  {
    if n > 0 { LoopFits(actions, ts, n - 1); }
  }

  /** How far the first `i` actions can get while stopping at `edge`. */
  function Reach(actions: seq<Action>, i: nat, edge: real): real
    requires i <= |actions|
  {
    Min(CapSum(actions, i), edge)
  }

  function Stretch(a: Action, span: Duration): Timing {
    var run := Min(span, a.Budget());
    var load := if a.Navigates() then Min(span - run, LOAD_CAP) else 0.0;
    var idle := Min(span - run - load, IDLE_CAP);
    Timing(run, load, idle, Max(span - run - load - idle, 0.0))
  }

  lemma {:induction false} ReachGrows(actions: seq<Action>, n: nat, edge: real)
    requires n < |actions| && 0.0 <= edge
    ensures 0.0 <= Reach(actions, n, edge) <= Reach(actions, n + 1, edge) <= edge
    ensures Reach(actions, n + 1, edge) - Reach(actions, n, edge) <= actions[n].Budget() + actions[n].SettleCap()
  {
    if n > 0 { ReachGrows(actions, n - 1, edge); }
  }

  /** Timings that bring the batch to `Reach` before action `j` and let that action hang. */
  function WorstTiming(actions: seq<Action>, j: nat, edge: real, i: nat): Timing
    requires i < |actions| && 0.0 <= edge
  {
    if i < j then
      ReachGrows(actions, i, edge);
      Stretch(actions[i], Reach(actions, i + 1, edge) - Reach(actions, i, edge))
    else if i == j then Timing(100.0, 100.0, 100.0, 100.0)
    else Timing(0.0, 0.0, 0.0, 0.0)
  }

  function Worst(actions: seq<Action>, j: nat, edge: real): (ts: seq<Timing>)
    requires 0.0 <= edge
    ensures |ts| == |actions| && forall i | 0 <= i < |ts| :: ts[i] == WorstTiming(actions, j, edge, i)
  {
    seq(|actions|, i requires 0 <= i < |actions| => WorstTiming(actions, j, edge, i))
  }

  lemma StretchTakes(a: Action, s: real, span: Duration)
    requires 0.0 <= s && s + span < BATCH_BUDGET && span <= a.Budget() + a.SettleCap()
    ensures Min(Stretch(a, span).run, Allowed(a, s)) + SettleTime(a, Stretch(a, span)) == span
  {
    var t := Stretch(a, span);
    assert t.run <= Allowed(a, s);
    var rest := span - t.run;
    if a.Navigates() {
      assert rest <= LOAD_CAP + IDLE_CAP + DOM_CAP;
    } else if a.Refreshes() {
      assert rest <= IDLE_CAP + DOM_CAP;
    } else {
      assert rest == 0.0;
    }
  }

  lemma WorstStep(actions: seq<Action>, j: nat, edge: real, i: nat)
    requires i < j < |actions| && 0.0 <= edge < BATCH_BUDGET
    requires LoopTime(actions, Worst(actions, j, edge), i) == Reach(actions, i, edge)
    ensures LoopTime(actions, Worst(actions, j, edge), i + 1) == Reach(actions, i + 1, edge)
  {
    var ts, from, to := Worst(actions, j, edge), Reach(actions, i, edge), Reach(actions, i + 1, edge);
    ReachGrows(actions, i, edge);
    StretchTakes(actions[i], from, to - from);
    assert ts[i] == WorstTiming(actions, j, edge, i);
    LoopStep(actions, ts, i);
  }

  lemma {:induction false} WorstReaches(actions: seq<Action>, j: nat, edge: real, i: nat)
    requires i <= j < |actions| && 0.0 <= edge < BATCH_BUDGET
    ensures LoopTime(actions, Worst(actions, j, edge), i) == Reach(actions, i, edge)
  {
    if i == 0 {
      assert CapSum(actions, 0) == 0.0;
    } else {
      WorstReaches(actions, j, edge, i - 1);
      WorstStep(actions, j, edge, i - 1);
    }
  }

  lemma LoopStep(actions: seq<Action>, ts: seq<Timing>, i: nat)
    requires i < |actions| == |ts| && LoopTime(actions, ts, i) < BATCH_BUDGET
    ensures var s := LoopTime(actions, ts, i);
            LoopTime(actions, ts, i + 1) == s + (Min(ts[i].run, Allowed(actions[i], s)) + SettleTime(actions[i], ts[i]))
  {
  }

  lemma WorstHangs(actions: seq<Action>, j: nat, edge: real)
    requires j < Count(actions) && 0.0 <= edge < BATCH_BUDGET
    ensures var s := Reach(actions, j, edge);
            LoopTime(actions, Worst(actions, j, edge), Count(actions)) >=
            s + Allowed(actions[j], s) + actions[j].SettleCap()
  {
    WorstReaches(actions, j, edge, j);
    TimeGrows(actions, Worst(actions, j, edge), j + 1, Count(actions));
  }

  ghost predicate AlwaysWithin(actions: seq<Action>, limit: real) {
    forall ts: seq<Timing>, snapshot: Duration, observation: Duration | |ts| == |actions| ::
      ReplyTime(actions, ts, snapshot, observation) < limit
  }

  /**
   * The reply is meant to come before 120 seconds. It is sure to, whatever hangs, exactly if the batch meets a
   * condition on the caps of its actions.
   */
  lemma AlwaysWithin120Iff(actions: seq<Action>)
    ensures AlwaysWithin(actions, 120.0) <==> FitsRunner(actions)
  {
    if FitsRunner(actions) {
      forall ts: seq<Timing>, snapshot: Duration, observation: Duration | |ts| == |actions|
        ensures ReplyTime(actions, ts, snapshot, observation) < 120.0
      {
        LoopFits(actions, ts, Count(actions));
      }
    } else {
      var j: nat :| j < Count(actions) && actions[j].Refreshes() && CapSum(actions, j + 1) >= 100.0;
      var ts := Worst(actions, j, 94.5);
      WorstHangs(actions, j, 94.5);
      assert ReplyTime(actions, ts, 8.0, 12.0) >= 120.0;
    }
  }

  /** The bound of 134.5 seconds cannot be lowered: three navigations can come as near to it as one likes. */
  lemma ReplyBoundIsTight(gap: real)
    requires 0.0 < gap < 1.0
    ensures var actions := seq(3, _ => Action(Navigate, None));
            exists ts | |ts| == 3 :: ReplyTime(actions, ts, 8.0, 12.0) >= 134.5 - gap
  {
    var navigate := Action(Navigate, None);
    var actions := seq(3, _ => navigate);
    assert CapSum(actions, 2) == CapSum(actions, 1) + 53.5 == CapSum(actions, 0) + 107.0;
    WorstHangs(actions, 2, 95.0 - gap);
    assert ReplyTime(actions, Worst(actions, 2, 95.0 - gap), 8.0, 12.0) >= 134.5 - gap;
  }
}
