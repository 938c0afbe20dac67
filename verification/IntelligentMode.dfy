/**
 * The decision loop of the intelligent workflow mode (src/ai/intelligent_mode.rs) with its budgets and its failure
 * tracking. What the page and the model answer in each round is arbitrary.
 */
module IntelligentMode {
  import opened Text

  datatype Kind =
    | InspectField | ReadText | Hover | ListTabs | ExtractData | WaitForChange
    | Batch | Submit | Other(name: string)
  {
    predicate IsInvestigation() {
      InspectField? || ReadText? || Hover? || ListTabs? || ExtractData? || WaitForChange?
    }
  }

  /** What failures are compared by. */
  datatype Key = Key(kind: Kind, field: nat)

  /**
   * One round: what the page shows, what the model answers and how the action ends. `subs` are the outcomes of
   * a batch's actions, `submitted` whether a submit is seen to have worked.
   */
  datatype Round =
    | ScreenshotFailed
    | PageShowsSuccess
    | NoAnswer
    | Complete
    | Blocked(soundsLikeSuccess: bool)
    | Decide(kind: Kind, fieldIndex: Option<nat>, subs: Option<seq<bool>>, ok: bool, submitted: bool)

  /** What was done about a decision; the fourth investigation in a row is skipped. */
  datatype Entry = Skipped | RanBatch(outcomes: seq<bool>) | Ran(key: Key, ok: bool)

  datatype Verdict = Success | ModelBlocked | RepeatedFailure(key: Key) | OutOfBudget

  datatype State = State(actionNum: nat, investigations: nat, failKey: Option<Key>, failCount: nat, log: seq<Entry>)

  datatype Next = Go(state: State) | Stop(state: State, verdict: Verdict)

  const INIT := State(0, 0, None, 0, [])

  function KeyOf(r: Round): Key
    requires r.Decide?
  {
    Key(r.kind, if r.fieldIndex.Some? then r.fieldIndex.value else 999)
  }

  /** A batch stops at its first failure. */
  function ThroughFirstFailure(outcomes: seq<bool>): seq<bool> {
    if outcomes == [] then [] else if outcomes[0] then [true] + ThroughFirstFailure(outcomes[1..]) else [false]
  }

  function Act(s: State, r: Round): Next
    requires r.Decide?
  {
    if r.kind.Batch? && r.subs.Some? then Go(s.(log := s.log + [RanBatch(ThroughFirstFailure(r.subs.value))]))
    else
      var key := KeyOf(r);
      var count := if r.ok then 0 else if s.failKey == Some(key) then s.failCount + 1 else 1;
      var t := s.(log := s.log + [Ran(key, r.ok)], failKey := if r.ok then None else Some(key), failCount := count);
      if count >= 5 then Stop(t, RepeatedFailure(key))
      else if r.kind.Submit? && r.submitted then Stop(t, Success)
      else Go(t)
  }

  function Step(s: State, r: Round, maxActions: nat): Next {
    match r
    case ScreenshotFailed | NoAnswer => Go(s)
    case PageShowsSuccess | Complete => Stop(s, Success)
    case Blocked(soundsLikeSuccess) => Stop(s, if soundsLikeSuccess then Success else ModelBlocked)
    case Decide(kind, _, _, _, _) =>
      if kind.IsInvestigation() then
        if s.investigations >= 3 then Go(s.(investigations := 0, log := s.log + [Skipped]))
        else Act(s.(investigations := s.investigations + 1), r)
      else if s.actionNum >= maxActions then Stop(s.(investigations := 0, actionNum := s.actionNum + 1), OutOfBudget)
      else Act(s.(investigations := 0, actionNum := s.actionNum + 1), r)
  }

  /** The rounds from number `i` up to `n`; a verdict ends the loop. */
  function Run(s: State, rounds: nat -> Round, i: nat, n: nat, maxActions: nat): Next
    requires i <= n
    decreases n - i
  {
    if i == n then Go(s)
    else match Step(s, rounds(i), maxActions)
      case Stop(t, v) => Stop(t, v)
      case Go(t) => Run(t, rounds, i + 1, n, maxActions)
  }

  method GenerateWorkflow(rounds: nat -> Round, maxActions: nat) returns (log: seq<Entry>, verdict: Verdict)
    ensures match Run(INIT, rounds, 0, maxActions * 2, maxActions)
            case Stop(s, v) => log == s.log && verdict == v
            case Go(s) => log == s.log && verdict == OutOfBudget
  {
    log := [];
    var actionNum, investigations, failCount := 0, 0, 0;
    var failKey: Option<Key> := None;
    for i := 0 to maxActions * 2
      invariant 0 <= investigations <= 3 && 0 <= actionNum <= maxActions && 0 <= failCount
      invariant Run(State(actionNum, investigations, failKey, failCount, log), rounds, i, maxActions * 2, maxActions) ==
                Run(INIT, rounds, 0, maxActions * 2, maxActions)
    {
      var r := rounds(i);
      if r.ScreenshotFailed? || r.NoAnswer? { continue; }
      if r.PageShowsSuccess? || r.Complete? { return log, Success; }
      if r.Blocked? { return log, if r.soundsLikeSuccess then Success else ModelBlocked; }
      if r.kind.IsInvestigation() {
        investigations := investigations + 1;
        if investigations > 3 {
          investigations := 0;
          log := log + [Skipped];
          continue;
        }
      } else {
        investigations := 0;
        actionNum := actionNum + 1;
        if actionNum > maxActions { return log, OutOfBudget; }
      }
      if r.kind.Batch? && r.subs.Some? {
        var outcomes := RunBatch(r.subs.value);
        log := log + [RanBatch(outcomes)];
        continue;
      }
      var key := KeyOf(r);
      log := log + [Ran(key, r.ok)];
      failKey, failCount := TrackResult(failKey, failCount, key, r.ok);
      if failCount >= 5 { return log, RepeatedFailure(key); }
      if r.kind.Submit? && r.submitted { return log, Success; }
    }
    verdict := OutOfBudget;
  }

  method TrackResult(failKey: Option<Key>, failCount: nat, key: Key, ok: bool) returns (k: Option<Key>, n: nat)
    ensures k == if ok then None else Some(key)
    ensures n == if ok then 0 else if failKey == Some(key) then failCount + 1 else 1
  {
    if !ok {
      if failKey == Some(key) {
        k, n := failKey, failCount + 1;
      } else {
        k, n := Some(key), 1;
      }
    } else {
      k, n := None, 0;
    }
  }

  /** All actions of a batch up to the first that fails, and that one too. */
  lemma {:induction false} BatchStopsAtFailure(subs: seq<bool>)
    ensures var r := ThroughFirstFailure(subs);
            r <= subs && (forall i | 0 <= i < |r| - 1 :: r[i]) && (r == subs || (r != [] && !r[|r| - 1]))
  {
    if subs != [] && subs[0] {
      BatchStopsAtFailure(subs[1..]);
      assert subs == [true] + subs[1..];
    }
  }

  method RunBatch(subs: seq<bool>) returns (outcomes: seq<bool>)
    ensures outcomes == ThroughFirstFailure(subs)
  {
    outcomes := [];
    for i := 0 to |subs|
      invariant outcomes + ThroughFirstFailure(subs[i..]) == ThroughFirstFailure(subs)
    {
      ghost var rest := ThroughFirstFailure(subs[i + 1..]);
      assert subs[i..][1..] == subs[i + 1..];
      assert outcomes + ([subs[i]] + rest) == outcomes + [subs[i]] + rest;
      outcomes := outcomes + [subs[i]];
      if !subs[i] { return; }
    }
    assert subs[|subs|..] == [];
  }

  // ---- What the log of any run looks like ----

  /** The decisions that only look. */
  const INVESTIGATIONS: set<Kind> := {InspectField, ReadText, Hover, ListTabs, ExtractData, WaitForChange}

  /** Executed decisions that are no investigations. */
  function Actions(log: seq<Entry>): nat {
    if log == [] then 0
    else
      var e := log[|log| - 1];
      Actions(log[..|log| - 1]) + if e.RanBatch? || (e.Ran? && e.key.kind !in INVESTIGATIONS) then 1 else 0
  }

  /**
   * Investigations executed at the end of the log; a skipped one ends the count, although nothing is executed for it.
   */
  function TrailingInvestigations(log: seq<Entry>): nat {
    if log != [] && log[|log| - 1].Ran? && log[|log| - 1].key.kind in INVESTIGATIONS
    then TrailingInvestigations(log[..|log| - 1]) + 1 else 0
  }

  predicate IsInvestigationEntry(e: Entry) {
    e.Skipped? || (e.Ran? && e.key.kind in INVESTIGATIONS)
  }

  /** Decisions to investigate since the last other executed decision, skipped ones included. */
  function Investigations(log: seq<Entry>): nat {
    if log != [] && IsInvestigationEntry(log[|log| - 1]) then Investigations(log[..|log| - 1]) + 1 else 0
  }

  /** How many of these were executed. */
  function ExecutedInvestigations(log: seq<Entry>): nat {
    if log != [] && IsInvestigationEntry(log[|log| - 1])
    then ExecutedInvestigations(log[..|log| - 1]) + if log[|log| - 1].Ran? then 1 else 0
    else 0
  }

  datatype Outcome = Outcome(key: Key, ok: bool)

  /** The results failures are tracked on: those of single actions. */
  function Tracked(log: seq<Entry>): seq<Outcome> {
    if log == [] then []
    else
      var e := log[|log| - 1];
      Tracked(log[..|log| - 1]) + if e.Ran? then [Outcome(e.key, e.ok)] else []
  }

  /** The last `n` results all failed on one key. */
  ghost predicate FailOnOneKey(t: seq<Outcome>, n: nat) {
    n <= |t| && forall i | |t| - n <= i < |t| :: !t[i].ok && t[i].key == t[|t| - 1].key
  }

  /** `n` is the length of the longest such run at the end. */
  ghost predicate IsFailureRun(t: seq<Outcome>, n: nat) {
    FailOnOneKey(t, n) && forall m: nat | n < m :: !FailOnOneKey(t, m)
  }

  /** Between rounds: the counters mean what they are for. */
  ghost predicate Inv(s: State, maxActions: nat) {
    var t := Tracked(s.log);
    Actions(s.log) == s.actionNum <= maxActions &&
    InStep(s.log) && s.investigations == TrailingInvestigations(s.log) &&
    IsFailureRun(t, s.failCount) && s.failCount < 5 &&
    s.failKey == if s.failCount == 0 then None else Some(t[|t| - 1].key)
  }

  /** Every fourth decision to investigate is skipped, and the others are executed. */
  ghost predicate FourthIsSkipped(log: seq<Entry>) {
    TrailingInvestigations(log) <= 3 && ExecutedInvestigations(log) == Investigations(log) - Investigations(log) / 4
  }

  /** At every moment of the run so far the limits held, and before the last entry no five results failed on one key. */
  ghost predicate LogInv(log: seq<Entry>) {
    (forall k: nat | k <= |log| :: FourthIsSkipped(log[..k])) &&
    (forall k: nat | k < |log| :: !FailOnOneKey(Tracked(log[..k]), 5))
  }

  lemma FailureRunStep(t: seq<Outcome>, n: nat, o: Outcome)
    requires IsFailureRun(t, n)
    ensures IsFailureRun(t + [o], if o.ok then 0 else if n > 0 && t[|t| - 1].key == o.key then n + 1 else 1)
  {
    var u := t + [o];
    assert u[|t|] == o;
    forall m: nat | 0 < m && FailOnOneKey(u, m)
      ensures !o.ok && FailOnOneKey(t, m - 1) && (m > 1 ==> t[|t| - 1].key == o.key)
    {
      forall i | |u| - m <= i < |t| ensures !t[i].ok && t[i].key == o.key {
        assert u[i] == t[i];
      }
    }
  }

  lemma PushFacts(log: seq<Entry>, e: Entry)
    ensures Actions(log + [e]) ==
            Actions(log) + if e.RanBatch? || (e.Ran? && e.key.kind !in INVESTIGATIONS) then 1 else 0
    ensures TrailingInvestigations(log + [e]) ==
            if e.Ran? && e.key.kind in INVESTIGATIONS then TrailingInvestigations(log) + 1 else 0
    ensures Investigations(log + [e]) == if IsInvestigationEntry(e) then Investigations(log) + 1 else 0
    ensures ExecutedInvestigations(log + [e]) ==
            if e.Skipped? then ExecutedInvestigations(log)
            else if IsInvestigationEntry(e) then ExecutedInvestigations(log) + 1 else 0
    ensures Tracked(log + [e]) == if e.Ran? then Tracked(log) + [Outcome(e.key, e.ok)] else Tracked(log)
  {
    assert (log + [e])[..|log|] == log;
    assert Tracked(log) + [] == Tracked(log);
  }

  /** And the count that decides on skipping is in step with these decisions. */
  ghost predicate InStep(log: seq<Entry>) {
    FourthIsSkipped(log) && TrailingInvestigations(log) == Investigations(log) % 4
  }

  lemma NextInvestigation(log: seq<Entry>, e: Entry)
    requires InStep(log) && (IsInvestigationEntry(e) ==> (e.Skipped? <==> TrailingInvestigations(log) == 3))
    ensures InStep(log + [e])
  {
    PushFacts(log, e);
  }

  lemma PushKeepsLimits(log: seq<Entry>, e: Entry)
    requires LogInv(log) && !FailOnOneKey(Tracked(log), 5) && InStep(log)
    requires IsInvestigationEntry(e) ==> (e.Skipped? <==> TrailingInvestigations(log) == 3)
    ensures LogInv(log + [e]) && InStep(log + [e])
  {
    var all := log + [e];
    NextInvestigation(log, e);
    forall k: nat | k <= |all| ensures FourthIsSkipped(all[..k]) {
      assert all[..k] == if k <= |log| then log[..k] else all;
    }
    forall k: nat | k < |all| ensures !FailOnOneKey(Tracked(all[..k]), 5) {
      assert all[..k] == if k < |log| then log[..k] else log;
    }
  }

  ghost predicate Fine(n: Next, maxActions: nat) {
    var log := n.state.log;
    LogInv(log) && Actions(log) <= maxActions &&
    match n
    case Go(s) => Inv(s, maxActions)
    case Stop(s, v) =>
      (v.OutOfBudget? ==> Actions(log) == maxActions) && (v.RepeatedFailure? <==> FailOnOneKey(Tracked(log), 5)) &&
      (v.RepeatedFailure? ==> IsFailureRun(Tracked(log), 5) && v.key == Tracked(log)[|Tracked(log)| - 1].key)
  }

  /** What holds when a decision is about to be carried out, its own count already made. */
  ghost predicate Ready(s: State, r: Round, maxActions: nat)
    requires r.Decide?
  {
    var t := Tracked(s.log);
    LogInv(s.log) && Actions(s.log) + (if r.kind.IsInvestigation() then 0 else 1) == s.actionNum <= maxActions &&
    InStep(s.log) &&
    s.investigations == (if r.kind.IsInvestigation() then TrailingInvestigations(s.log) + 1 else 0) &&
    s.investigations <= 3 && IsFailureRun(t, s.failCount) && s.failCount < 5 &&
    s.failKey == if s.failCount == 0 then None else Some(t[|t| - 1].key)
  }

  lemma BatchFine(s: State, r: Round, maxActions: nat)
    requires r.Decide? && Ready(s, r, maxActions) && r.kind.Batch? && r.subs.Some?
    ensures Fine(Act(s, r), maxActions)
  {
    PushFacts(s.log, RanBatch(ThroughFirstFailure(r.subs.value)));
    PushKeepsLimits(s.log, RanBatch(ThroughFirstFailure(r.subs.value)));
  }

  lemma SingleFine(s: State, r: Round, maxActions: nat)
    requires r.Decide? && Ready(s, r, maxActions) && !(r.kind.Batch? && r.subs.Some?)
    ensures Fine(Act(s, r), maxActions)
  {
    var t, o := Tracked(s.log), Outcome(KeyOf(r), r.ok);
    PushFacts(s.log, Ran(o.key, o.ok));
    PushKeepsLimits(s.log, Ran(o.key, o.ok));
    SingleFails(t, s.failCount, s.failKey, o);
  }

  lemma SingleFails(t: seq<Outcome>, failCount: nat, failKey: Option<Key>, o: Outcome)
    requires IsFailureRun(t, failCount) && failCount < 5
    requires failKey == if failCount == 0 then None else Some(t[|t| - 1].key)
    ensures var n := if o.ok then 0 else if failKey == Some(o.key) then failCount + 1 else 1;
            IsFailureRun(t + [o], n) && (FailOnOneKey(t + [o], 5) <==> n == 5)
    ensures (t + [o])[|t + [o]| - 1] == o
  {
    FailureRunStep(t, failCount, o);
    var n := if o.ok then 0 else if failCount > 0 && t[|t| - 1].key == o.key then failCount + 1 else 1;
    assert IsFailureRun(t + [o], n);
    assert FailOnOneKey(t + [o], 5) <==> n == 5;
  }

  lemma StepFine(s: State, r: Round, maxActions: nat)
    requires Fine(Go(s), maxActions)
    ensures Fine(Step(s, r, maxActions), maxActions)
  {
    if r.Decide? {
      if r.kind.IsInvestigation() && s.investigations >= 3 {
        PushFacts(s.log, Skipped);
        PushKeepsLimits(s.log, Skipped);
      } else if r.kind.IsInvestigation() {
        SingleFine(s.(investigations := s.investigations + 1), r, maxActions);
      } else if s.actionNum < maxActions {
        var t := s.(investigations := 0, actionNum := s.actionNum + 1);
        if r.kind.Batch? && r.subs.Some? { BatchFine(t, r, maxActions); } else { SingleFine(t, r, maxActions); }
      }
    }
  }

  /**
   * Whatever page and model answer: at most `maxActions` decisions that are no investigations are executed, and no
   * fewer where the loop gives up over them. Of `m`
   * decisions to investigate since the last other executed one, exactly `m - m / 4` are executed: never more than three
   * without a skipped one between them. The failure count is the length of the longest run of failures on one key, and
   * the loop gives up on repeated failure exactly when that run first has length five.
   */
  lemma {:induction false} EveryRunIsFine(s: State, rounds: nat -> Round, i: nat, n: nat, maxActions: nat)
    requires i <= n && Fine(Go(s), maxActions)
    ensures Fine(Run(s, rounds, i, n, maxActions), maxActions)
    decreases n - i
  {
    if i < n {
      StepFine(s, rounds(i), maxActions);
      if Step(s, rounds(i), maxActions).Go? {
        EveryRunIsFine(Step(s, rounds(i), maxActions).state, rounds, i + 1, n, maxActions);
      }
    }
  }

  function Inspect(kind: Kind): Round {
    Decide(kind, None, None, true, false)
  }

  lemma {:induction false} InspectingGoesOn(kind: Kind, s: State, i: nat, n: nat, maxActions: nat)
    requires i <= n && s.failCount == 0 && kind in INVESTIGATIONS
    ensures var r := Run(s, _ => Inspect(kind), i, n, maxActions);
            r.Go? && Investigations(r.state.log) == Investigations(s.log) + n - i
    decreases n - i
  {
    if i < n {
      var t := Step(s, Inspect(kind), maxActions).state;
      var e := if s.investigations >= 3 then Skipped else Ran(KeyOf(Inspect(kind)), true);
      assert t.log == s.log + [e];
      PushFacts(s.log, e);
      InspectingGoesOn(kind, t, i + 1, n, maxActions);
    }
  }

  /** Skipping does not force an action: a model that always inspects has all but every fourth inspection executed. */
  lemma OnlyInspecting(kind: Kind, maxActions: nat)
    requires kind in INVESTIGATIONS
    ensures var r := Run(INIT, _ => Inspect(kind), 0, maxActions * 2, maxActions);
            r.Go? && Actions(r.state.log) <= maxActions &&
            ExecutedInvestigations(r.state.log) == maxActions * 2 - maxActions / 2
  {
    InspectingGoesOn(kind, INIT, 0, maxActions * 2, maxActions);
    InitIsFine(maxActions);
    EveryRunIsFine(INIT, _ => Inspect(kind), 0, maxActions * 2, maxActions);
  }

  lemma InitIsFine(maxActions: nat)
    ensures Fine(Go(INIT), maxActions)
  {
    assert INIT.log[..0] == [];
  }

  // ---- What a verdict means ----

  /** The loop ends with this round at the latest, whatever happened before. */
  predicate EndsTheLoop(r: Round) {
    r.PageShowsSuccess? || r.Complete? || r.Blocked? || (r.Decide? && r.kind == Submit && r.submitted)
  }

  /** The round that has led to a verdict. */
  predicate LeadsTo(r: Round, v: Verdict) {
    match v
    case Success =>
      r.PageShowsSuccess? || r.Complete? || r == Blocked(true) || (r.Decide? && r.kind == Submit && r.submitted)
    case ModelBlocked => r == Blocked(false)
    case RepeatedFailure(key) =>
      r.Decide? && !r.ok && key.kind == r.kind &&
      (r.fieldIndex == Some(key.field) || (r.fieldIndex == None && key.field == 999))
    case OutOfBudget => r.Decide? && r.kind !in INVESTIGATIONS
  }

  /**
   * In every run: a verdict comes from a round that stands for it, and no round before that ends the loop; without a
   * verdict no round ends it.
   */
  lemma {:induction false} VerdictsAreMeant(s: State, rounds: nat -> Round, i: nat, n: nat, maxActions: nat)
    requires i <= n
    ensures match Run(s, rounds, i, n, maxActions)
            case Stop(_, v) =>
              exists k: nat :: i <= k < n && LeadsTo(rounds(k), v) &&
                               forall j: nat | i <= j < k :: !EndsTheLoop(rounds(j))
            case Go(_) => forall j: nat | i <= j < n :: !EndsTheLoop(rounds(j))
    decreases n - i
  {
    if i < n {
      match Step(s, rounds(i), maxActions)
      case Stop(_, v) => assert LeadsTo(rounds(i), v);
      case Go(t) =>
        VerdictsAreMeant(t, rounds, i + 1, n, maxActions);
        if Run(t, rounds, i + 1, n, maxActions).Stop? {
          var v := Run(t, rounds, i + 1, n, maxActions).verdict;
          var k: nat :| i + 1 <= k < n && LeadsTo(rounds(k), v) &&
                        forall j: nat | i + 1 <= j < k :: !EndsTheLoop(rounds(j));
          assert forall j: nat | i <= j < k :: !EndsTheLoop(rounds(j));
        }
    }
  }

  /** Failures are compared by the kind of action and the field, a missing field number standing for 999. */
  lemma SameKeyIff(r: Round, q: Round)
    requires r.Decide? && q.Decide?
    ensures KeyOf(r) == KeyOf(q) <==>
            r.kind == q.kind &&
            (r.fieldIndex == q.fieldIndex || (r.fieldIndex in {None, Some(999)} && q.fieldIndex in {None, Some(999)}))
  {
  }

  /** A round adds at most one entry to the log. */
  lemma {:induction false} LogGrowsSlowly(s: State, rounds: nat -> Round, i: nat, n: nat, maxActions: nat)
    requires i <= n
    ensures |Run(s, rounds, i, n, maxActions).state.log| <= |s.log| + n - i
    decreases n - i
  {
    if i < n {
      var next := Step(s, rounds(i), maxActions);
      assert |next.state.log| <= |s.log| + 1;
      if next.Go? { LogGrowsSlowly(next.state, rounds, i + 1, n, maxActions); }
    }
  }

  /** The whole loop, from its start. */
  method GenerateWithinLimits(rounds: nat -> Round, maxActions: nat) returns (log: seq<Entry>, verdict: Verdict)
    ensures LogInv(log) && Actions(log) <= maxActions && |log| <= maxActions * 2
    ensures verdict.RepeatedFailure? <==> FailOnOneKey(Tracked(log), 5)
  {
    log, verdict := GenerateWorkflow(rounds, maxActions);
    InitIsFine(maxActions);
    EveryRunIsFine(INIT, rounds, 0, maxActions * 2, maxActions);
    LogGrowsSlowly(INIT, rounds, 0, maxActions * 2, maxActions);
  }
}
