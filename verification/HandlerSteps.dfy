/** The handlers, run without interruption, follow the protocol: what they do to the tables is what a fragment of a
    protocol run does. */
module HandlerSteps {
  import opened Wrappers
  import opened Identifiers
  import opened ExecutionLock
  import opened Aggregator
  import opened AggregatorProtocol

  /** The tables are those of the protocol state. */
  ghost predicate Mirrors(s: State, store: LockStore)
    reads store
  {
    s.locks == store.locks && s.flushCache == store.flushCache
  }

  /** A fragment from `s` with these steps. */
  ghost predicate Leads(s: State, steps: seq<Step>, states: seq<State>) {
    IsRunFragment(states, steps) && states[0] == s
  }

  /** What `aggregate` does for a message with an entity id. */
  function AggregateSteps(s: State, e: EntityId, id: ExecutionId): seq<Step> {
    if e !in s.entities then [Ignore(e)]
    else if Lockable(s.locks, e, s.now, s.interval) then [Acquire(e, id)]
    else [Lose(e), Enqueue(e)]
  }

  method AggregateFollows(
    eea: EEA, e: EntityId, entities: set<EntityId>, now: Time, id: ExecutionId, ghost s: State)
    returns (execution: Option<ExecutionId>, ghost states: seq<State>)
    requires Mirrors(s, eea.store) && entities == s.entities && now == s.now && eea.lockInterval == s.interval
    requires e in s.messages.evaluate && id !in s.home
    modifies eea.store
    ensures Leads(s, AggregateSteps(s, e, id), states) && Mirrors(states[|states| - 1], eea.store)
    ensures execution == if AggregateSteps(s, e, id) == [Acquire(e, id)] then Some(id) else None
    ensures execution.Some? ==> states[|states| - 1].running == s.running[id := Execution(e, now)]
  {
    execution := eea.Aggregate(Some(e), entities, now, id);
    ghost var steps := AggregateSteps(s, e, id);
    states := [s, Next(s, steps[0])];
    assert IsStep(states[0], steps[0], states[1]);
    if |steps| == 2 {
      states := states + [Next(states[1], steps[1])];
      assert IsStep(states[1], steps[1], states[2]);
    }
  }

  /** What the flush handler does: without a cached row it publishes nothing. */
  function FlushSteps(s: State, e: EntityId): seq<Step> {
    if e in s.flushCache then [Flush(e), Republish(e)] else [Flush(e)]
  }

  lemma FlushRun(s: State, e: EntityId) returns (states: seq<State>)
    requires e in s.messages.flush
    ensures Leads(s, FlushSteps(s, e), states)
    ensures var t := states[|states| - 1];
            && t.locks == s.locks && t.flushCache == s.flushCache - {e}
            && (e in s.flushCache ==> t.messages.evaluate == s.messages.evaluate + multiset{e})
  {
    var steps := FlushSteps(s, e);
    states := [s, Next(s, steps[0])];
    assert IsStep(states[0], steps[0], states[1]);
    if |steps| == 2 {
      states := states + [Next(states[1], steps[1])];
      assert IsStep(states[1], steps[1], states[2]);
    }
  }

  method FlushFollows(eea: EEA, e: EntityId, ghost s: State) returns (ghost states: seq<State>)
    requires Mirrors(s, eea.store) && e in s.messages.flush
    modifies eea`published, eea.store`flushCache
    ensures Leads(s, FlushSteps(s, e), states) && Mirrors(states[|states| - 1], eea.store)
    ensures eea.published == old(eea.published) + (if e in s.flushCache then [e] else [])
    ensures e in s.flushCache ==>
              states[|states| - 1].messages.evaluate == s.messages.evaluate + multiset{e}
  {
    eea.FlushMessageHandler(e);
    states := FlushRun(s, e);
  }

  /** One rule whose evaluation is set up renews the lease: one step. */
  method RuleFollows(executor: Executor, id: ExecutionId, e: EntityId, outcome: RuleOutcome, now: Time, ghost s: State)
    returns (ok: bool)
    requires Mirrors(s, executor.store) && id in s.running && s.running[id].entity == e && now == s.now
    modifies executor`renewals, executor.store`locks
    ensures Mirrors(if outcome.NotSetUp? then s else Next(s, Renew(id)), executor.store)
  {
    ok := executor.EvaluateRule(e, id, outcome, now);
  }

  /** What handling a message with an execution id comes to. The renewals of its rules are steps before the release and
      leave nothing in the tables behind it. */
  function EvaluationSteps(e: EntityId, id: ExecutionId, provider: bool): seq<Step> {
    [if provider then Release(id) else Abandon(id), PublishFlush(e)]
  }

  method MessageFollows(
    executor: Executor, id: ExecutionId, e: EntityId, provider: bool, profilesLoaded: bool,
    profiles: seq<seq<RuleOutcome>>, clock: nat -> Time, ghost s: State) returns (ghost states: seq<State>)
    requires Mirrors(s, executor.store) && id in s.running && s.running[id].entity == e
    modifies executor, executor.store`locks
    ensures Leads(s, EvaluationSteps(e, id, provider), states) && Mirrors(states[2], executor.store)
    ensures executor.flushes == old(executor.flushes) + [e]
    ensures states[2].messages.flush == s.messages.flush + multiset{e}
  {
    ghost var steps := EvaluationSteps(e, id, provider);
    executor.HandleMessage(e, Some(id), provider, profilesLoaded, profiles, clock);
    ghost var t := Next(s, steps[0]);
    states := [s, t, Next(t, steps[1])];
    assert IsStep(states[0], steps[0], states[1]) && IsStep(states[1], steps[1], states[2]);
  }
}
