/** The Event Execution Aggregator as a protocol: messages in flight, lock rows, cached rows and running executions,
    with every place where another process can run between two statements made a step of its own. */
module AggregatorProtocol {
  import opened Identifiers
  import opened ExecutionLock

  /** An execution that is evaluating rules. `renewedAt` is when it last acquired the lock or sent UpdateLease, whether
      or not that update found its row. */
  datatype Execution = Execution(entity: EntityId, renewedAt: Time)

  /** Messages in flight, and messages a handler is carrying between two statements. */
  datatype Messages = Messages(
    evaluate: multiset<EntityId>,         // evaluate messages in flight
    losers: multiset<EntityId>,           // lock refused, EnqueueFlush not yet run
    flushed: multiset<EntityId>,          // cached row deleted, evaluate message not yet published
    finishing: multiset<EntityId>,        // evaluation over, flush message not yet published
    flush: multiset<EntityId>)            // flush messages in flight

  datatype Tally = Tally(
    events: nat,                          // evaluate messages that came from outside
    acquired: nat,                        // lock attempts that succeeded
    merged: nat,                          // losers that found a cached row
    dropped: nat)                         // messages for entities that do not exist

  datatype State = State(
    now: Time,
    interval: int,
    entities: set<EntityId>,              // rows of entity_instances, fixed for the run
    locks: LockTable,
    flushCache: set<EntityId>,
    running: map<ExecutionId, Execution>,
    home: map<ExecutionId, EntityId>,     // every execution id ever generated, with its entity
    messages: Messages,
    tally: Tally)

  datatype Step =
    | Tick(elapsed: nat)
    | Event(entity: EntityId)             // an evaluate message from a webhook, reminder or reconciliation
    | AskFlush(entity: EntityId)          // FlushAll hands this entity to the flush handler
    | Ignore(entity: EntityId)            // aggregate: entity not found
    | Acquire(entity: EntityId, id: ExecutionId)
    | Lose(entity: EntityId)
    | Enqueue(entity: EntityId)
    | Renew(id: ExecutionId)
    | Release(id: ExecutionId)
    | Abandon(id: ExecutionId)            // the evaluation ends without ReleaseLock taking effect
    | Skip(id: ExecutionId)               // the executor's handler is closed: no evaluation, no flush message
    | PublishFlush(entity: EntityId)
    | Flush(entity: EntityId)
    | Republish(entity: EntityId)

  ghost predicate Enabled(s: State, step: Step) {
    var m := s.messages;
    match step
    case Tick(_) => true
    case Event(_) => true
    case AskFlush(_) => true
    case Ignore(e) => e in m.evaluate && e !in s.entities
    case Acquire(e, id) =>
      e in m.evaluate && e in s.entities && id !in s.home && Lockable(s.locks, e, s.now, s.interval)
    case Lose(e) => e in m.evaluate && e in s.entities && !Lockable(s.locks, e, s.now, s.interval)
    case Enqueue(e) => e in m.losers
    case Renew(id) => id in s.running
    case Release(id) => id in s.running
    case Abandon(id) => id in s.running
    case Skip(id) => id in s.running
    case PublishFlush(e) => e in m.finishing
    case Flush(e) => e in m.flush
    case Republish(e) => e in m.flushed
  }

  ghost function Next(s: State, step: Step): State
    requires Enabled(s, step)
  {
    var m, c := s.messages, s.tally;
    match step
    case Tick(elapsed) => s.(now := s.now + elapsed)
    case Event(e) =>
      s.(messages := m.(evaluate := m.evaluate + multiset{e}), tally := c.(events := c.events + 1))
    case AskFlush(e) => s.(messages := m.(flush := m.flush + multiset{e}))
    case Ignore(e) =>
      s.(messages := m.(evaluate := m.evaluate - multiset{e}), tally := c.(dropped := c.dropped + 1))
    case Acquire(e, id) =>
      s.(locks := s.locks[e := LockRow(id, s.now)],
         running := s.running[id := Execution(e, s.now)],
         home := s.home[id := e],
         messages := m.(evaluate := m.evaluate - multiset{e}),
         tally := c.(acquired := c.acquired + 1))
    case Lose(e) =>
      s.(messages := m.(evaluate := m.evaluate - multiset{e}, losers := m.losers + multiset{e}))
    case Enqueue(e) =>
      s.(flushCache := s.flushCache + {e},
         messages := m.(losers := m.losers - multiset{e}),
         tally := if e in s.flushCache then c.(merged := c.merged + 1) else c)
    case Renew(id) =>
      var x := s.running[id];
      s.(locks := Renewed(s.locks, x.entity, id, s.now), running := s.running[id := x.(renewedAt := s.now)])
    case Release(id) =>
      var e := s.running[id].entity;
      s.(locks := Released(s.locks, e, id),
         running := s.running - {id},
         messages := m.(finishing := m.finishing + multiset{e}))
    case Abandon(id) =>
      s.(running := s.running - {id}, messages := m.(finishing := m.finishing + multiset{s.running[id].entity}))
    case Skip(id) => s.(running := s.running - {id})
    case PublishFlush(e) =>
      s.(messages := m.(finishing := m.finishing - multiset{e}, flush := m.flush + multiset{e}))
    case Flush(e) =>
      s.(flushCache := s.flushCache - {e},
         messages := m.(flush := m.flush - multiset{e},
                        flushed := if e in s.flushCache then m.flushed + multiset{e} else m.flushed))
    case Republish(e) =>
      s.(messages := m.(flushed := m.flushed - multiset{e}, evaluate := m.evaluate + multiset{e}))
  }

  ghost predicate Init(s: State) {
    && s.locks == map[] && s.flushCache == {} && s.running == map[] && s.home == map[]
    && s.messages == Messages(multiset{}, multiset{}, multiset{}, multiset{}, multiset{})
    && s.tally == Tally(0, 0, 0, 0)
  }

  ghost predicate IsStep(s: State, step: Step, t: State) {
    Enabled(s, step) && t == Next(s, step)
  }

  /** Any interleaving of steps, from any state. */
  ghost predicate IsRunFragment(states: seq<State>, steps: seq<Step>) {
    && |states| == |steps| + 1
    && forall i {:trigger steps[i]} :: 0 <= i < |steps| ==> IsStep(states[i], steps[i], states[i + 1])
  }

  ghost predicate IsRun(states: seq<State>, steps: seq<Step>) {
    IsRunFragment(states, steps) && Init(states[0])
  }

  // ---------------------------------------------------------------------------------------------------------------
  // What every reachable state satisfies

  /** Lock rows and running executions are where their id says; an id is generated once, for one entity. */
  ghost predicate Inv(s: State) {
    && (forall e :: e in s.locks ==> s.locks[e].lockedBy in s.home && s.home[s.locks[e].lockedBy] == e)
    && (forall id :: id in s.running ==> id in s.home && s.home[id] == s.running[id].entity)
    && (forall e :: e in s.locks ==> e in s.entities)
  }

  lemma InvStep(s: State, step: Step)
    requires Inv(s) && Enabled(s, step)
    ensures Inv(Next(s, step))
  {
    match step
    case Acquire(e, id) =>
    case Renew(id) =>
    case Release(id) =>
    case Abandon(id) =>
    case Skip(id) =>
    case _ =>
      var t := Next(s, step);
      assert t.locks == s.locks && t.running == s.running && t.home == s.home && t.entities == s.entities;
  }

  lemma {:induction false} InvHolds(states: seq<State>, steps: seq<Step>, k: nat)
    requires IsRun(states, steps) && k < |states|
    ensures Inv(states[k])
  {
    if k > 0 {
      InvHolds(states, steps, k - 1);
      assert IsStep(states[k - 1], steps[k - 1], states[k]);
      InvStep(states[k - 1], steps[k - 1]);
    }
  }

  /** Every event is accounted for: it led to an execution, is in flight or carried, is the cached row of its entity,
      or was merged into such a row or dropped. */
  ghost predicate Balanced(s: State) {
    var m, c := s.messages, s.tally;
    c.events == c.acquired + |m.evaluate| + |m.losers| + |m.flushed| + |s.flushCache| + c.merged + c.dropped
  }

  lemma BalanceStep(s: State, step: Step)
    requires Enabled(s, step) && Balanced(s)
    ensures Balanced(Next(s, step))
  {
    var t := Next(s, step);
    match step
    case Enqueue(e) => assert e in s.flushCache ==> t.flushCache == s.flushCache;
    case Flush(e) => assert e !in s.flushCache ==> t.flushCache == s.flushCache;
    case _ => assert t.flushCache == s.flushCache;
  }

  lemma {:induction false} WorkIsConserved(states: seq<State>, steps: seq<Step>, k: nat)
    requires IsRun(states, steps) && k < |states|
    ensures Balanced(states[k])
    ensures var s, m, c := states[k], states[k].messages, states[k].tally;
            && c.events == c.acquired + |m.evaluate| + |m.losers| + |m.flushed| + |s.flushCache| + c.merged + c.dropped
            && c.acquired <= c.events
  {
    if k > 0 {
      WorkIsConserved(states, steps, k - 1);
      assert IsStep(states[k - 1], steps[k - 1], states[k]);
      BalanceStep(states[k - 1], steps[k - 1]);
    }
  }

  function Selected(steps: seq<Step>, k: nat, kind: Step -> bool): set<int>
    requires k <= |steps|
  {
    set i | 0 <= i < k && kind(steps[i])
  }

  lemma NoneSelected(steps: seq<Step>, kind: Step -> bool)
    ensures |Selected(steps, 0, kind)| == 0
  {
  }

  lemma SelectedGrows(steps: seq<Step>, k: nat, kind: Step -> bool)
    requires k < |steps|
    ensures |Selected(steps, k + 1, kind)| == |Selected(steps, k, kind)| + if kind(steps[k]) then 1 else 0
  {
    assert Selected(steps, k + 1, kind) == Selected(steps, k, kind) + if kind(steps[k]) then {k} else {};
  }

  lemma TallyStep(s: State, step: Step)
    requires Enabled(s, step)
    ensures Next(s, step).tally.events == s.tally.events + if step.Event? then 1 else 0
    ensures Next(s, step).tally.acquired == s.tally.acquired + if step.Acquire? then 1 else 0
    ensures Next(s, step).tally.dropped == s.tally.dropped + if step.Ignore? then 1 else 0
  {
  }

  /** The tallies are the numbers of steps taken; so no more executions were started than events came from outside. */
  lemma {:induction false} TalliesCountSteps(states: seq<State>, steps: seq<Step>, k: nat)
    requires IsRun(states, steps) && k < |states|
    ensures states[k].tally.events == |Selected(steps, k, (step: Step) => step.Event?)|
    ensures states[k].tally.acquired == |Selected(steps, k, (step: Step) => step.Acquire?)|
    ensures states[k].tally.dropped == |Selected(steps, k, (step: Step) => step.Ignore?)|
  {
    hide Enabled, Next, Selected;
    if k > 0 {
      TalliesCountSteps(states, steps, k - 1);
      assert IsStep(states[k - 1], steps[k - 1], states[k]);
      TallyStep(states[k - 1], steps[k - 1]);
      SelectedGrows(steps, k - 1, (step: Step) => step.Event?);
      SelectedGrows(steps, k - 1, (step: Step) => step.Acquire?);
      SelectedGrows(steps, k - 1, (step: Step) => step.Ignore?);
    } else {
      NoneSelected(steps, (step: Step) => step.Event?);
      NoneSelected(steps, (step: Step) => step.Acquire?);
      NoneSelected(steps, (step: Step) => step.Ignore?);
    }
  }

  // ---------------------------------------------------------------------------------------------------------------
  // Coalescing loses nothing

  /** A message for the entity is in flight, is being carried between two statements of a handler, or is cached. */
  ghost predicate Covered(s: State, e: EntityId) {
    e in s.messages.evaluate || e in s.messages.losers || e in s.messages.flushed || e in s.flushCache
  }

  lemma CoveredStep(s: State, step: Step, e: EntityId)
    requires Enabled(s, step) && e in s.entities && !(step.Acquire? && step.entity == e)
    requires Covered(s, e) || step == Event(e)
    ensures Covered(Next(s, step), e) && e in Next(s, step).entities
  {
    match step
    case Event(_) =>
    case Ignore(_) =>
    case Acquire(_, _) =>
    case Lose(_) =>
    case Enqueue(_) =>
    case Flush(_) =>
    case Republish(_) =>
    case _ =>
      var m, n := s.messages, Next(s, step).messages;
      assert n.evaluate == m.evaluate && n.losers == m.losers && n.flushed == m.flushed;
  }

  /** An event that no execution has started after, is covered: for every interleaving. */
  lemma {:induction false} CoalescingLosesNothing(states: seq<State>, steps: seq<Step>, e: EntityId, i: nat, k: nat)
    requires IsRunFragment(states, steps) && i < k < |states|
    requires e in states[i].entities
    requires steps[i] == Event(e)
    requires forall m :: i < m < k && steps[m].Acquire? ==> steps[m].entity != e
    ensures Covered(states[k], e) && e in states[k].entities
  {
    hide Covered, Enabled, Next;
    if i + 1 < k {
      CoalescingLosesNothing(states, steps, e, i, k - 1);
    }
    assert IsStep(states[k - 1], steps[k - 1], states[k]);
    assert steps[k - 1].Acquire? ==> steps[k - 1].entity != e;
    CoveredStep(states[k - 1], steps[k - 1], e);
  }

  // ---------------------------------------------------------------------------------------------------------------
  // Mutual exclusion

  /** Execution `x` is running and has not renewed its lease within the interval. */
  ghost predicate Overdue(s: State, x: ExecutionId) {
    x in s.running && s.now - s.running[x].renewedAt > s.interval
  }

  /** At step `m` another execution acquires the entity while `x` is running and overdue. */
  ghost predicate TakenOverAt(states: seq<State>, steps: seq<Step>, e: EntityId, x: ExecutionId, m: nat)
    requires m < |steps| && |states| == |steps| + 1
  {
    steps[m].Acquire? && steps[m].entity == e && steps[m].id != x && Overdue(states[m], x)
  }

  /** The row of `x` is stamped with its last renewal. */
  ghost predicate Holds(s: State, e: EntityId, x: ExecutionId) {
    && x in s.running && s.running[x].entity == e
    && e in s.locks && s.locks[e] == LockRow(x, s.running[x].renewedAt)
  }

  lemma HoldsStep(s: State, step: Step, e: EntityId, x: ExecutionId)
    requires Inv(s) && Enabled(s, step) && Holds(s, e, x) && x in Next(s, step).running
    ensures if step.Acquire? && step.entity == e then step.id != x && Overdue(s, x) else Holds(Next(s, step), e, x)
  {
    match step
    case Acquire(e', id) =>
    case Renew(id) => if id != x { assert s.running[id].entity == e ==> !HeldBy(s.locks, e, id); }
    case Release(id) => assert id != x;
    case Abandon(id) =>
    case Skip(id) =>
    case _ => assert Next(s, step).locks == s.locks && Next(s, step).running == s.running;
  }

  lemma IssuedStaysIssued(states: seq<State>, steps: seq<Step>, x: ExecutionId, i: nat, k: nat)
    requires IsRunFragment(states, steps) && i <= k < |states| && x in states[i].home
    ensures x in states[k].home && states[k].home[x] == states[i].home[x]
  {
    if i < k {
      IssuedStaysIssued(states, steps, x, i, k - 1);
      assert IsStep(states[k - 1], steps[k - 1], states[k]);
    }
  }

  lemma JustAcquired(s: State, e: EntityId, x: ExecutionId)
    requires Enabled(s, Acquire(e, x))
    ensures Holds(Next(s, Acquire(e, x)), e, x) && x in Next(s, Acquire(e, x)).home
  {
  }

  /** An id that was generated before is not started again. */
  lemma WasRunning(s: State, step: Step, x: ExecutionId)
    requires Enabled(s, step) && x in s.home && x in Next(s, step).running
    ensures x in s.running && Next(s, step).running[x].entity == s.running[x].entity
  {
  }

  /** From its acquisition on, a running execution holds the row, stamped with its last renewal, until it is taken
      over for being overdue. */
  lemma {:induction false} HoldsUntilTakenOver(
    states: seq<State>, steps: seq<Step>, e: EntityId, x: ExecutionId, i: nat, k: nat)
    requires IsRunFragment(states, steps) && i < k < |states|
    requires forall m :: i <= m <= k ==> Inv(states[m])
    requires steps[i] == Acquire(e, x) && x in states[k].running
    ensures states[k].running[x].entity == e
    ensures
      || (exists m :: i < m < k && TakenOverAt(states, steps, e, x, m))
      || (e in states[k].locks && states[k].locks[e] == LockRow(x, states[k].running[x].renewedAt))
  {
    hide Inv, Next, Enabled;
    var s, step := states[k - 1], steps[k - 1];
    assert IsStep(s, step, states[k]);
    if i + 1 == k {
      JustAcquired(s, e, x);
    } else {
      assert IsStep(states[i], steps[i], states[i + 1]);
      JustAcquired(states[i], e, x);
      IssuedStaysIssued(states, steps, x, i + 1, k - 1);
      WasRunning(s, step, x);
      HoldsUntilTakenOver(states, steps, e, x, i, k - 1);
      if !exists m :: i < m < k - 1 && TakenOverAt(states, steps, e, x, m) {
        HoldsStep(s, step, e, x);
        assert steps[k - 1].Acquire? && steps[k - 1].entity == e ==> TakenOverAt(states, steps, e, x, k - 1);
      }
    }
  }

  /** Whenever a younger execution `y` acquires the entity of a running execution `x`, the older one let its lease
      run out before: at some acquisition of that entity no later than y's. */
  lemma OverlapMeansOverrun(
    states: seq<State>, steps: seq<Step>, e: EntityId, x: ExecutionId, y: ExecutionId, i: nat, j: nat)
    requires IsRun(states, steps) && i < j < |steps|
    requires steps[i] == Acquire(e, x) && steps[j] == Acquire(e, y)
    requires x in states[j].running
    ensures exists m :: i < m <= j && TakenOverAt(states, steps, e, x, m)
  {
    forall m | i <= m <= j ensures Inv(states[m]) {
      InvHolds(states, steps, m);
    }
    assert IsStep(states[j], steps[j], states[j + 1]);
    HoldsUntilTakenOver(states, steps, e, x, i, j);
    if m :| i < m < j && TakenOverAt(states, steps, e, x, m) {
      assert i < m <= j;
    } else {
      assert TakenOverAt(states, steps, e, x, j);
    }
  }

  /** Every running execution acquired its entity at some earlier step. */
  lemma {:induction false} AcquisitionOf(states: seq<State>, steps: seq<Step>, x: ExecutionId, k: nat) returns (i: nat)
    requires IsRun(states, steps) && k < |states| && x in states[k].running
    ensures i < k && steps[i] == Acquire(states[k].running[x].entity, x)
  {
    assert IsStep(states[k - 1], steps[k - 1], states[k]);
    InvHolds(states, steps, k - 1);
    if x in states[k - 1].running {
      i := AcquisitionOf(states, steps, x, k - 1);
    } else {
      i := k - 1;
    }
  }

  /** A running execution has been running since it acquired. */
  lemma {:induction false} RunningSince(states: seq<State>, steps: seq<Step>, x: ExecutionId, i: nat, j: nat, k: nat)
    requires IsRunFragment(states, steps) && i < j <= k < |states|
    requires steps[i].Acquire? && steps[i].id == x && x in states[k].running
    ensures x in states[j].running
  {
    if j < k {
      assert IsStep(states[i], steps[i], states[i + 1]);
      IssuedStaysIssued(states, steps, x, i + 1, k - 1);
      assert IsStep(states[k - 1], steps[k - 1], states[k]);
      RunningSince(states, steps, x, i, j, k - 1);
    }
  }

  /** Two running executions of which neither was overdue before, are for different entities. */
  lemma MutualExclusion(states: seq<State>, steps: seq<Step>, k: nat, x: ExecutionId, y: ExecutionId)
    requires IsRun(states, steps) && k < |states|
    requires forall m :: 0 <= m < k && x in states[m].running ==>
               states[m].now - states[m].running[x].renewedAt <= states[m].interval
    requires forall m :: 0 <= m < k && y in states[m].running ==>
               states[m].now - states[m].running[y].renewedAt <= states[m].interval
    requires x in states[k].running && y in states[k].running && x != y
    ensures states[k].running[x].entity != states[k].running[y].entity
  {
    if states[k].running[x].entity == states[k].running[y].entity {
      var i := AcquisitionOf(states, steps, x, k);
      var j := AcquisitionOf(states, steps, y, k);
      var e := states[k].running[x].entity;
      if i < j {
        RunningSince(states, steps, x, i, j, k);
        OverlapMeansOverrun(states, steps, e, x, y, i, j);
      } else {
        RunningSince(states, steps, y, j, i, k);
        OverlapMeansOverrun(states, steps, e, y, x, j, i);
      }
      assert false;
    }
  }

  // ---------------------------------------------------------------------------------------------------------------
  // Expiry

  /** An entity that has a message in flight can be acquired exactly if it is not locked or its row is older than the
      interval. */
  lemma AcquiredWhen(s: State, e: EntityId, id: ExecutionId)
    requires e in s.messages.evaluate && e in s.entities && id !in s.home
    ensures Enabled(s, Acquire(e, id)) <==> (e in s.locks ==> s.locks[e].lastLockTime < s.now - s.interval)
    ensures Enabled(s, Lose(e)) <==> e in s.locks && s.locks[e].lastLockTime >= s.now - s.interval
  {
  }

  /** No row is stamped later than now. */
  lemma {:induction false} NoRowFromTheFuture(states: seq<State>, steps: seq<Step>, k: nat, e: EntityId)
    requires IsRun(states, steps) && k < |states| && e in states[k].locks
    ensures states[k].locks[e].lastLockTime <= states[k].now
  {
    if k > 0 {
      assert IsStep(states[k - 1], steps[k - 1], states[k]);
      if e in states[k - 1].locks {
        NoRowFromTheFuture(states, steps, k - 1, e);
      }
    }
  }

  /** In any reachable state, an execution that ends without releasing its lock keeps its entity locked no longer than
      the interval: then a message for the entity acquires it. */
  lemma AbandonedLockExpires(
    states: seq<State>, steps: seq<Step>, k: nat, id: ExecutionId, elapsed: nat, next: ExecutionId)
    requires IsRun(states, steps) && k < |states| && id in states[k].running
    requires elapsed > states[k].interval && next !in states[k].home
    ensures var s, e := states[k], states[k].running[id].entity;
            var t := Next(Next(s, Abandon(id)), Tick(elapsed));
            && t.locks == s.locks
            && (e in s.messages.evaluate && e in s.entities ==>
                  && Enabled(t, Acquire(e, next))
                  && Next(t, Acquire(e, next)).locks == s.locks[e := LockRow(next, s.now + elapsed)])
  {
    var e := states[k].running[id].entity;
    if e in states[k].locks {
      NoRowFromTheFuture(states, steps, k, e);
    }
  }

  // ---------------------------------------------------------------------------------------------------------------
  // Fencing

  /** No lock row belongs to this id. */
  ghost predicate Displaced(s: State, x: ExecutionId) {
    forall e :: e in s.locks ==> s.locks[e].lockedBy != x
  }

  lemma DisplacedStep(s: State, step: Step, x: ExecutionId)
    requires Enabled(s, step) && x in s.home && Displaced(s, x)
    ensures Displaced(Next(s, step), x) && x in Next(s, step).home
    ensures step == Renew(x) || step == Release(x) ==> Next(s, step).locks == s.locks
  {
    match step
    case Acquire(e, id) => assert id != x;
    case Renew(id) =>
    case Release(id) =>
    case _ => assert Next(s, step).locks == s.locks && Next(s, step).home == s.home;
  }

  /** Once an execution has lost its row, it never owns one again, and nothing it sends changes the lock table:
      through any number of further takeovers. */
  lemma {:induction false} FencedForever(states: seq<State>, steps: seq<Step>, x: ExecutionId, i: nat, k: nat)
    requires IsRunFragment(states, steps) && i <= k < |states|
    requires x in states[i].home && Displaced(states[i], x)
    ensures Displaced(states[k], x) && x in states[k].home
    ensures k < |steps| && (steps[k] == Renew(x) || steps[k] == Release(x)) ==> states[k + 1].locks == states[k].locks
  {
    if i < k {
      FencedForever(states, steps, x, i, k - 1);
      assert IsStep(states[k - 1], steps[k - 1], states[k]);
      DisplacedStep(states[k - 1], steps[k - 1], x);
    }
    if k < |steps| {
      assert IsStep(states[k], steps[k], states[k + 1]);
      DisplacedStep(states[k], steps[k], x);
    }
  }

  /** A takeover displaces the execution that held the row. */
  lemma TakeoverDisplaces(states: seq<State>, steps: seq<Step>, x: ExecutionId, j: nat)
    requires IsRun(states, steps) && j < |steps|
    requires x in states[j].home && steps[j].Acquire? && steps[j].entity == states[j].home[x]
    ensures x in states[j + 1].home && Displaced(states[j + 1], x)
  {
    InvHolds(states, steps, j);
    InvHolds(states, steps, j + 1);
    assert IsStep(states[j], steps[j], states[j + 1]);
  }

  // ---------------------------------------------------------------------------------------------------------------
  // Quiescence

  ghost function Weight(m: Messages): nat {
    13 * |m.flushed| + 12 * |m.evaluate| + 11 * |m.losers| + 5 * |m.finishing| + 4 * |m.flush|
  }

  /** The weight of everything that is still under way. */
  ghost function Measure(s: State): nat {
    Weight(s.messages) + 10 * |s.flushCache| + 6 * |s.running.Keys|
  }

  ghost predicate FromOutside(step: Step) {
    step.Event? || step.AskFlush?
  }

  /** The steps that move work along: all but the clock, lease renewals and arrivals from outside. */
  ghost predicate IsWork(step: Step) {
    !step.Tick? && !step.Renew? && !FromOutside(step)
  }

  ghost function WorkSteps(steps: seq<Step>): nat {
    if steps == [] then 0 else WorkSteps(steps[..|steps| - 1]) + if IsWork(steps[|steps| - 1]) then 1 else 0
  }

  lemma WeightTaken(m: Messages, e: EntityId)
    ensures e in m.evaluate ==> Weight(m.(evaluate := m.evaluate - multiset{e})) == Weight(m) - 12
    ensures e in m.losers ==> Weight(m.(losers := m.losers - multiset{e})) == Weight(m) - 11
    ensures e in m.flushed ==> Weight(m.(flushed := m.flushed - multiset{e})) == Weight(m) - 13
    ensures e in m.finishing ==> Weight(m.(finishing := m.finishing - multiset{e})) == Weight(m) - 5
    ensures e in m.flush ==> Weight(m.(flush := m.flush - multiset{e})) == Weight(m) - 4
  {
  }

  lemma WeightAdded(m: Messages, e: EntityId)
    ensures Weight(m.(evaluate := m.evaluate + multiset{e})) == Weight(m) + 12
    ensures Weight(m.(losers := m.losers + multiset{e})) == Weight(m) + 11
    ensures Weight(m.(flushed := m.flushed + multiset{e})) == Weight(m) + 13
    ensures Weight(m.(finishing := m.finishing + multiset{e})) == Weight(m) + 5
    ensures Weight(m.(flush := m.flush + multiset{e})) == Weight(m) + 4
  {
  }

  lemma AggregateMeasure(s: State, step: Step)
    requires Enabled(s, step) && (step.Ignore? || step.Acquire? || step.Lose?)
    ensures Measure(Next(s, step)) < Measure(s)
  {
    var m, e := s.messages, step.entity;
    WeightTaken(m, e);
    if step.Acquire? {
      assert Next(s, step).running.Keys == s.running.Keys + {step.id};
    } else {
      WeightAdded(m.(evaluate := m.evaluate - multiset{e}), e);
    }
  }

  lemma CacheMeasure(s: State, step: Step)
    requires Enabled(s, step) && (step.Enqueue? || step.Flush?)
    ensures Measure(Next(s, step)) < Measure(s)
  {
    var m, e := s.messages, step.entity;
    WeightTaken(m, e);
    if step.Enqueue? {
      assert e in s.flushCache ==> s.flushCache + {e} == s.flushCache;
    } else {
      WeightAdded(m.(flush := m.flush - multiset{e}), e);
      assert e !in s.flushCache ==> s.flushCache - {e} == s.flushCache;
    }
  }

  lemma PublishMeasure(s: State, step: Step)
    requires Enabled(s, step) && (step.PublishFlush? || step.Republish?)
    ensures Measure(Next(s, step)) < Measure(s)
  {
    var m, e := s.messages, step.entity;
    WeightTaken(m, e);
    WeightAdded(m.(finishing := m.finishing - multiset{e}), e);
    WeightAdded(m.(flushed := m.flushed - multiset{e}), e);
  }

  lemma ExecutionMeasure(s: State, step: Step)
    requires Enabled(s, step) && (step.Release? || step.Abandon? || step.Skip?)
    ensures Measure(Next(s, step)) < Measure(s)
  {
    WeightAdded(s.messages, s.running[step.id].entity);
    assert Next(s, step).running.Keys == s.running.Keys - {step.id};
  }

  lemma StepMeasure(s: State, step: Step)
    requires Enabled(s, step) && !FromOutside(step)
    ensures Measure(Next(s, step)) + (if IsWork(step) then 1 else 0) <= Measure(s)
  {
    if step.Ignore? || step.Acquire? || step.Lose? {
      AggregateMeasure(s, step);
    } else if step.Enqueue? || step.Flush? {
      CacheMeasure(s, step);
    } else if step.Release? || step.Abandon? || step.Skip? {
      ExecutionMeasure(s, step);
    } else if IsWork(step) {
      PublishMeasure(s, step);
    } else {
      assert Next(s, step).running.Keys == s.running.Keys;
    }
  }

  /** Without arrivals from outside, the acquire, enqueue, flush and republish cycle stops: no run fragment has more
      work steps than the measure of its first state. */
  lemma {:induction false} WorkRunsOut(states: seq<State>, steps: seq<Step>)
    requires IsRunFragment(states, steps)
    requires forall i :: 0 <= i < |steps| ==> !FromOutside(steps[i])
    ensures WorkSteps(steps) + Measure(states[|steps|]) <= Measure(states[0])
    decreases |steps|
  {
    if steps == [] {
    } else {
      var n := |steps| - 1;
      forall i | 0 <= i < n ensures IsStep(states[..n + 1][i], steps[..n][i], states[..n + 1][i + 1]) {
        assert IsStep(states[i], steps[i], states[i + 1]);
      }
      WorkRunsOut(states[..n + 1], steps[..n]);
      assert IsStep(states[n], steps[n], states[n + 1]);
      StepMeasure(states[n], steps[n]);
    }
  }

  lemma {:induction false} AllAreWork(steps: seq<Step>)
    requires forall i :: 0 <= i < |steps| ==> IsWork(steps[i])
    ensures WorkSteps(steps) == |steps|
  {
    if steps != [] {
      AllAreWork(steps[..|steps| - 1]);
    }
  }

  /** In plain numbers: while the clock stands, no lease is renewed and nothing arrives from outside, there are at most
      thirteen steps for everything that is under way. */
  lemma AtMostThirteenStepsEach(states: seq<State>, steps: seq<Step>)
    requires IsRunFragment(states, steps)
    requires forall i :: 0 <= i < |steps| ==>
               !steps[i].Event? && !steps[i].AskFlush? && !steps[i].Tick? && !steps[i].Renew?
    ensures var s, m := states[0], states[0].messages;
            |steps| <= 13 * (|m.flushed| + |m.evaluate| + |m.losers| + |m.finishing| + |m.flush|
                             + |s.flushCache| + |s.running|)
  {
    AllAreWork(steps);
    WorkRunsOut(states, steps);
    assert |states[0].running| == |states[0].running.Keys|;
  }

  // ---------------------------------------------------------------------------------------------------------------
  // Cached rows and the flush message they wait for

  ghost predicate IsEvaluated(s: State, e: EntityId) {
    exists id :: id in s.running && s.running[id].entity == e
  }

  /** A flush message for the entity is in flight or will still be published. */
  ghost predicate Awaited(s: State, e: EntityId) {
    e in s.messages.finishing || e in s.messages.flush || IsEvaluated(s, e)
  }

  /** A cached row that nothing under way will flush: it stays until the next event or FlushAll. */
  ghost predicate Stranded(s: State, e: EntityId) {
    e in s.flushCache && !Awaited(s, e)
  }

  /** The last execution that a cached row was waiting for is skipped. */
  ghost predicate SkipsLast(s: State, step: Step, e: EntityId) {
    && step.Skip? && e in s.flushCache && e !in s.messages.finishing && e !in s.messages.flush
    && forall id :: id in s.running && s.running[id].entity == e ==> id == step.id
  }

  /** The step strands the row: it is inserted after its entity's last execution has flushed, or that execution is
      skipped at shutdown. */
  ghost predicate Strands(s: State, step: Step, e: EntityId) {
    (step == Enqueue(e) && e !in s.flushCache && !Awaited(s, e)) || SkipsLast(s, step, e)
  }

  lemma SameRunning(s: State, step: Step, e: EntityId)
    requires Enabled(s, step) && Next(s, step).running == s.running
    ensures IsEvaluated(Next(s, step), e) == IsEvaluated(s, e)
  {
  }

  /** These steps leave the cache alone, and an entity that awaits a flush message goes on to do so. */
  lemma StillAwaited(s: State, step: Step, e: EntityId)
    requires Enabled(s, step) && Inv(s) && (step.Release? || step.Abandon? || step.Acquire? || step.Renew?)
    ensures Stranded(Next(s, step), e) ==> Stranded(s, e)
  {
    var t := Next(s, step);
    if id :| id in s.running && s.running[id].entity == e {
      assert id in t.running ==> t.running[id].entity == e;
    }
  }

  lemma SkippedWhen(s: State, id: ExecutionId, e: EntityId)
    requires Enabled(s, Skip(id)) && !Stranded(s, e)
    ensures Stranded(Next(s, Skip(id)), e) <==> SkipsLast(s, Skip(id), e)
  {
    var t := Next(s, Skip(id));
    if other :| other in s.running && s.running[other].entity == e && other != id {
      assert other in t.running && t.running[other].entity == e;
    }
  }

  lemma CachedWhen(s: State, step: Step, e: EntityId)
    requires Enabled(s, step) && (step.Enqueue? || step.Flush?) && !Stranded(s, e)
    ensures Stranded(Next(s, step), e) <==> step == Enqueue(e) && e !in s.flushCache && !Awaited(s, e)
  {
    hide IsEvaluated;
    SameRunning(s, step, e);
  }

  /** These steps touch neither the cache nor the executions, and take no flush message away. */
  lemma QuietWhen(s: State, step: Step, e: EntityId)
    requires Enabled(s, step)
    requires step.Tick? || step.Event? || step.AskFlush? || step.Ignore? || step.Lose? || step.PublishFlush?
             || step.Republish?
    ensures Stranded(Next(s, step), e) ==> Stranded(s, e)
  {
    hide IsEvaluated;
    SameRunning(s, step, e);
  }

  lemma StrandedWhen(s: State, step: Step, e: EntityId)
    requires Enabled(s, step) && Inv(s) && !Stranded(s, e)
    ensures Stranded(Next(s, step), e) <==> Strands(s, step, e)
  {
    hide Stranded, Inv, Next, Enabled;
    match step
    case Skip(id) => SkippedWhen(s, id, e);
    case Release(id) => StillAwaited(s, step, e);
    case Abandon(id) => StillAwaited(s, step, e);
    case Acquire(_, _) => StillAwaited(s, step, e);
    case Renew(id) => StillAwaited(s, step, e);
    case Enqueue(_) => CachedWhen(s, step, e);
    case Flush(_) => CachedWhen(s, step, e);
    case _ => QuietWhen(s, step, e);
  }

  lemma NoneAtFirst(s: State, e: EntityId)
    requires Init(s)
    ensures !Stranded(s, e)
  {
  }

  /** No row of the entity is stranded up to some state exactly if no step before it strands one. */
  lemma {:induction false} NeverStranded(states: seq<State>, steps: seq<Step>, k: nat, e: EntityId)
    requires IsRun(states, steps) && k < |states|
    ensures (forall m :: 0 <= m <= k ==> !Stranded(states[m], e)) <==>
            forall i :: 0 <= i < k ==> !Strands(states[i], steps[i], e)
  {
    hide Stranded, Strands, Inv, Enabled, Next;
    if k > 0 {
      NeverStranded(states, steps, k - 1, e);
      InvHolds(states, steps, k - 1);
      assert IsStep(states[k - 1], steps[k - 1], states[k]);
      if !Stranded(states[k - 1], e) {
        StrandedWhen(states[k - 1], steps[k - 1], e);
      }
    } else {
      NoneAtFirst(states[0], e);
    }
  }

  /** A run and a fragment from its last state are one run. */
  lemma Joined(states: seq<State>, steps: seq<Step>, later: seq<State>, laterSteps: seq<Step>)
    requires IsRun(states, steps) && IsRunFragment(later, laterSteps) && later[0] == states[|steps|]
    ensures IsRun(states + later[1..], steps + laterSteps)
  {
    var states', steps' := states + later[1..], steps + laterSteps;
    forall i | 0 <= i < |steps'| ensures IsStep(states'[i], steps'[i], states'[i + 1]) {
      if i < |steps| {
        assert IsStep(states[i], steps[i], states[i + 1]);
      } else {
        assert IsStep(later[i - |steps|], laterSteps[i - |steps|], later[i - |steps| + 1]);
      }
    }
  }

  /** The state after `id` has acquired `e` and while a second event for `e` is in flight. */
  ghost function TwoEventsMet(e: EntityId, id: ExecutionId, now: Time, interval: int): State {
    State(now, interval, {e}, map[e := LockRow(id, now)], {}, map[id := Execution(e, now)], map[id := e],
          Messages(multiset{e}, multiset{}, multiset{}, multiset{}, multiset{}), Tally(2, 1, 0, 0))
  }

  lemma TwoEventsMeet(e: EntityId, id: ExecutionId, now: Time, interval: nat)
    returns (states: seq<State>, steps: seq<Step>)
    ensures IsRun(states, steps) && states[|steps|] == TwoEventsMet(e, id, now, interval)
  {
    var none := Messages(multiset{}, multiset{}, multiset{}, multiset{}, multiset{});
    var s0 := State(now, interval, {e}, map[], {}, map[], map[], none, Tally(0, 0, 0, 0));
    var s1 := s0.(messages := none.(evaluate := multiset{e}), tally := Tally(1, 0, 0, 0));
    var s2 := s0.(messages := none.(evaluate := multiset{e, e}), tally := Tally(2, 0, 0, 0));
    assert IsStep(s0, Event(e), s1);
    assert IsStep(s1, Event(e), s2);
    assert IsStep(s2, Acquire(e, id), TwoEventsMet(e, id, now, interval));
    hide IsStep;
    states, steps := [s0, s1, s2, TwoEventsMet(e, id, now, interval)], [Event(e), Event(e), Acquire(e, id)];
  }

  /** From there the second event loses, the winner's flush message is handled, and only then the loser is cached. */
  lemma CachedTooLate(e: EntityId, id: ExecutionId, now: Time, interval: nat)
    returns (states: seq<State>, steps: seq<Step>)
    ensures IsRunFragment(states, steps) && states[0] == TwoEventsMet(e, id, now, interval)
    ensures var s := states[|steps|];
            && s.flushCache == {e} && s.locks == map[] && s.running == map[]
            && s.messages == Messages(multiset{}, multiset{}, multiset{}, multiset{}, multiset{})
  {
    var s3 := TwoEventsMet(e, id, now, interval);
    var s4 := s3.(messages := Messages(multiset{}, multiset{e}, multiset{}, multiset{}, multiset{}));
    var s7 := s4.(locks := map[], running := map[]);
    var s5 := s7.(messages := s4.messages.(finishing := multiset{e}));
    var s6 := s7.(messages := s4.messages.(flush := multiset{e}));
    var s8 := s7.(flushCache := {e}, messages := s4.messages.(losers := multiset{}));
    assert IsStep(s3, Lose(e), s4);
    assert IsStep(s4, Release(id), s5);
    assert IsStep(s5, PublishFlush(e), s6);
    assert IsStep(s6, Flush(e), s7);
    assert IsStep(s7, Enqueue(e), s8);
    hide IsStep;
    states, steps := [s3, s4, s5, s6, s7, s8], [Lose(e), Release(id), PublishFlush(e), Flush(e), Enqueue(e)];
  }

  /** A run in which two events meet, the winner flushes before the loser is cached, and nothing is left under way
      but the loser's row. */
  lemma LostWakeup(e: EntityId, id: ExecutionId, now: Time, interval: nat)
    returns (states: seq<State>, steps: seq<Step>)
    ensures IsRun(states, steps)
    ensures var s := states[|steps|];
            && Stranded(s, e) && s.locks == map[] && s.running == map[]
            && s.messages == Messages(multiset{}, multiset{}, multiset{}, multiset{}, multiset{})
  {
    hide IsStep, TwoEventsMet;
    states, steps := TwoEventsMeet(e, id, now, interval);
    var later, laterSteps := CachedTooLate(e, id, now, interval);
    Joined(states, steps, later, laterSteps);
    states, steps := states + later[1..], steps + laterSteps;
  }
}
