/** The handlers of the Event Execution Aggregator and of the executor, run without interruption. What happens when
    others run between their statements is the subject of `AggregatorProtocol`. */
module Aggregator {
  import opened Wrappers
  import opened Identifiers
  import opened ExecutionLock

  /** What loading a cached entity comes to: it is there, it no longer exists, or it cannot be loaded. */
  datatype Loaded = Ready | Missing | Broken

  class EEA {
    const store: LockStore
    const lockInterval: int
    /** The evaluate messages published by the flush handler. */
    var published: seq<EntityId>

    constructor (store: LockStore, lockInterval: int)
      ensures this.store == store && this.lockInterval == lockInterval && published == []
    {
      this.store, this.lockInterval, published := store, lockInterval, [];
    }

    /** Passes the message on with an execution id, or keeps it back. `entity` is None when the message carries no
        entity id; `entities` are the rows of `entity_instances`. */
    method Aggregate(entity: Option<EntityId>, entities: set<EntityId>, now: Time, freshId: ExecutionId)
      returns (execution: Option<ExecutionId>)
      modifies store
      ensures execution.Some? <==>
              entity.Some? && entity.value in entities
              && (entity.value in old(store.locks) ==>
                    old(store.locks)[entity.value].lastLockTime < now - lockInterval)
      ensures execution.Some? ==>
              && execution.value == freshId && HeldBy(store.locks, entity.value, freshId)
              && store.locks == old(store.locks)[entity.value := LockRow(freshId, now)]
              && store.flushCache == old(store.flushCache)
      ensures execution.None? ==> store.locks == old(store.locks)
      ensures execution.None? ==>
              store.flushCache == old(store.flushCache)
              + if entity.Some? && entity.value in entities then {entity.value} else {}
    {
      execution := None;
      if entity.None? {
        return;
      }
      if entity.value !in entities {
        return;
      }
      var row := store.LockIfThresholdNotExceeded(entity.value, lockInterval, now, freshId);
      if row.None? {
        var _ := store.EnqueueFlush(entity.value);
        return;
      }
      execution := Some(row.value.lockedBy);
    }

    /** A cached row becomes an evaluate message; without a row there is nothing to do. */
    method FlushMessageHandler(entity: EntityId)
      modifies this`published, store`flushCache
      ensures store.flushCache == old(store.flushCache) - {entity}
      ensures published == old(published) + if entity in old(store.flushCache) then [entity] else []
    {
      var deleted := store.FlushCache(entity);
      if deleted {
        published := published + [entity];
      }
    }

    /** Flushes every row whose entity can be loaded. Every row removed is published once, also when the loop stops at
        a row that cannot be loaded; it does so exactly when there is one. */
    method FlushAll(load: EntityId -> Loaded) returns (ok: bool)
      modifies this`published, store`flushCache
      ensures ok <==> forall e :: e in old(store.flushCache) ==> load(e) != Broken
      ensures old(published) <= published
      ensures var flushed := published[|old(published)|..];
              && (forall i, j :: 0 <= i < j < |flushed| ==> flushed[i] != flushed[j])
              && (forall e :: e in flushed ==> e in old(store.flushCache) && load(e) == Ready)
              && (forall e :: e in store.flushCache <==> e in old(store.flushCache) && e !in flushed)
              && (ok ==> forall e :: e in store.flushCache ==> load(e) == Missing)
    {
      var rows := store.ListFlushCache();
      ghost var flushed: seq<EntityId> := [];
      for n := 0 to |rows|
        invariant published == old(published) + flushed
        invariant forall i, j :: 0 <= i < j < |flushed| ==> flushed[i] != flushed[j]
        invariant forall e :: e in flushed <==> e in rows[..n] && load(e) == Ready
        invariant forall i :: 0 <= i < n ==> load(rows[i]) != Broken
        invariant forall e :: e in store.flushCache <==> e in old(store.flushCache) && e !in flushed
      {
        match load(rows[n])
        case Missing =>
        case Broken =>
          return false;
        case Ready =>
          assert rows[n] in store.flushCache;
          FlushMessageHandler(rows[n]);
          flushed := flushed + [rows[n]];
      }
      ok := true;
    }
  }

  /** How evaluating one rule ends: an error before the lease renewal is set up, an error in or after the evaluation,
      or a result that is stored, or skipped silently. */
  datatype RuleOutcome = NotSetUp | NotStored | Stored

  /** The number of rules of all profiles. */
  function RuleCount(profiles: seq<seq<RuleOutcome>>): nat {
    if profiles == [] then 0 else RuleCount(profiles[..|profiles| - 1]) + |profiles[|profiles| - 1]|
  }

  lemma {:induction false} PlacesInRow(p: int, k: nat)
    ensures |set n | 0 <= n < k :: (p, n)| == k
  {
    if k > 0 {
      PlacesInRow(p, k - 1);
      assert (set n | 0 <= n < k :: (p, n)) == (set n | 0 <= n < k - 1 :: (p, n)) + {(p, k - 1)};
    }
  }

  /** Every rule has a place in its profile, and each place counts once. */
  lemma {:induction false} RuleCountIsNumberOfPlaces(profiles: seq<seq<RuleOutcome>>)
    ensures RuleCount(profiles) == |set p, n | 0 <= p < |profiles| && 0 <= n < |profiles[p]| :: (p, n)|
  {
    var places := set p, n | 0 <= p < |profiles| && 0 <= n < |profiles[p]| :: (p, n);
    if profiles != [] {
      var last := |profiles| - 1;
      RuleCountIsNumberOfPlaces(profiles[..last]);
      var before := set p, n | 0 <= p < |profiles[..last]| && 0 <= n < |profiles[..last][p]| :: (p, n);
      var here := set n | 0 <= n < |profiles[last]| :: (last, n);
      PlacesInRow(last, |profiles[last]|);
      assert places == before + here;
    }
  }

  /** Rule `n` of profile `p` is the first one that is not stored. */
  predicate FailsFirst(profiles: seq<seq<RuleOutcome>>, p: nat, n: nat) {
    && p < |profiles| && n < |profiles[p]| && profiles[p][n] != Stored
    && (forall q, m :: 0 <= q < p && 0 <= m < |profiles[q]| ==> profiles[q][m] == Stored)
    && (forall m :: 0 <= m < n ==> profiles[p][m] == Stored)
  }

  /** The renewals when the evaluation stops at this rule: one for each rule before it, and one for it if it was set
      up. */
  function RenewalsUntil(profiles: seq<seq<RuleOutcome>>, p: nat, n: nat): nat
    requires p < |profiles| && n < |profiles[p]|
  {
    RuleCount(profiles[..p]) + n + if profiles[p][n] == NotSetUp then 0 else 1
  }

  /** The number of renewals when the rules are evaluated up to the first error. */
  ghost predicate RenewsPerRule(profiles: seq<seq<RuleOutcome>>, renewals: int) {
    || (renewals == RuleCount(profiles)
        && forall p, n :: 0 <= p < |profiles| && 0 <= n < |profiles[p]| ==> profiles[p][n] == Stored)
    || exists p: nat, n: nat :: FailsFirst(profiles, p, n) && renewals == RenewalsUntil(profiles, p, n)
  }

  /** The lock table after the renewals from number `first` up to, but not including, `next`: what the last of them
      leaves. */
  function Stamped(
    locks: LockTable, entity: EntityId, id: ExecutionId, first: nat, next: nat, clock: nat -> Time): LockTable
    requires first <= next
  {
    if first == next then locks else Renewed(locks, entity, id, clock(next - 1))
  }

  class Executor {
    const store: LockStore
    /** The flush messages published. */
    var flushes: seq<EntityId>
    /** The number of UpdateLease statements sent. */
    var renewals: nat

    constructor (store: LockStore)
      ensures this.store == store && flushes == [] && renewals == 0
    {
      this.store, flushes, renewals := store, [], 0;
    }

    /** Evaluates one rule; the lease is renewed on every way out that lies after its set-up. */
    method EvaluateRule(entity: EntityId, id: ExecutionId, outcome: RuleOutcome, now: Time) returns (ok: bool)
      modifies this`renewals, store`locks
      ensures ok == outcome.Stored?
      ensures renewals == old(renewals) + if outcome.NotSetUp? then 0 else 1
      ensures store.locks ==
              if outcome.NotSetUp? then old(store.locks) else Renewed(old(store.locks), entity, id, now)
    {
      if outcome.NotSetUp? {
        return false;
      }
      store.UpdateLease(entity, id, now);
      renewals := renewals + 1;
      ok := outcome.Stored?;
    }

    /** Evaluates profile by profile, up to the first error. Afterwards the lock table is as the last renewal alone
        leaves it: the row is stamped if this execution holds it, and no other row is touched. */
    method EvaluateAll(entity: EntityId, id: ExecutionId, profiles: seq<seq<RuleOutcome>>, clock: nat -> Time)
      returns (ok: bool)
      modifies this`renewals, store`locks
      ensures ok <==> forall p, n :: 0 <= p < |profiles| && 0 <= n < |profiles[p]| ==> profiles[p][n] == Stored
      ensures ok ==> renewals == old(renewals) + RuleCount(profiles)
      ensures !ok ==> exists p: nat, n: nat ::
                FailsFirst(profiles, p, n) && renewals == old(renewals) + RenewalsUntil(profiles, p, n)
      ensures renewals >= old(renewals)
      ensures store.locks == Stamped(old(store.locks), entity, id, old(renewals), renewals, clock)
      ensures store.locks.Keys == old(store.locks).Keys
      ensures forall e :: e in store.locks ==>
                store.locks[e] == if e == entity && old(store.locks)[e].lockedBy == id && renewals > old(renewals)
                                  then LockRow(id, clock(renewals - 1)) else old(store.locks)[e]
    {
      for p := 0 to |profiles|
        invariant forall q, m :: 0 <= q < p && 0 <= m < |profiles[q]| ==> profiles[q][m] == Stored
        invariant renewals == old(renewals) + RuleCount(profiles[..p])
        invariant store.locks == Stamped(old(store.locks), entity, id, old(renewals), renewals, clock)
      {
        var rules := profiles[p];
        for n := 0 to |rules|
          invariant forall m :: 0 <= m < n ==> rules[m] == Stored
          invariant renewals == old(renewals) + RuleCount(profiles[..p]) + n
          invariant store.locks == Stamped(old(store.locks), entity, id, old(renewals), renewals, clock)
        {
          ok := EvaluateRule(entity, id, rules[n], clock(renewals));
          if !ok {
            assert FailsFirst(profiles, p, n);
            return false;
          }
        }
        assert profiles[..p + 1][..p] == profiles[..p];
      }
      assert profiles[..|profiles|] == profiles;
      ok := true;
    }

    /** Evaluates the rules of all profiles, up to the first error. From the moment the provider is there, the lock is
        given up on every way out, if it is still held; before that it is left to expire. */
    method EvalEntityEvent(
      entity: EntityId, id: ExecutionId, provider: bool, profilesLoaded: bool,
      profiles: seq<seq<RuleOutcome>>, clock: nat -> Time) returns (ok: bool)
      modifies this`renewals, store`locks
      ensures store.locks == if provider then Released(old(store.locks), entity, id) else old(store.locks)
      ensures provider ==> !(entity in store.locks && store.locks[entity].lockedBy == id)
      ensures forall e :: e in old(store.locks) && (e != entity || old(store.locks)[e].lockedBy != id) ==>
                e in store.locks && store.locks[e] == old(store.locks)[e]
      ensures if provider && profilesLoaded then RenewsPerRule(profiles, renewals - old(renewals))
              else renewals == old(renewals)
      ensures ok <==> provider && profilesLoaded
                      && forall p, n :: 0 <= p < |profiles| && 0 <= n < |profiles[p]| ==> profiles[p][n] == Stored
    {
      if !provider {
        return false;
      }
      ok := false;
      if profilesLoaded {
        ok := EvaluateAll(entity, id, profiles, clock);
      }
      store.ReleaseLock(entity, id);
    }

    /** Runs one message: without an execution id nothing happens; with one, a flush message follows however the
        evaluation ends. */
    method HandleMessage(
      entity: EntityId, id: Option<ExecutionId>, provider: bool, profilesLoaded: bool,
      profiles: seq<seq<RuleOutcome>>, clock: nat -> Time)
      modifies this, store`locks
      ensures flushes == old(flushes) + if id.Some? then [entity] else []
      ensures if id.Some? && provider && profilesLoaded then RenewsPerRule(profiles, renewals - old(renewals))
              else renewals == old(renewals)
      ensures store.locks ==
              if id.Some? && provider then Released(old(store.locks), entity, id.value) else old(store.locks)
    {
      if id.None? {
        return;
      }
      var _ := EvalEntityEvent(entity, id.value, provider, profilesLoaded, profiles, clock);
      flushes := flushes + [entity];
    }
  }
}
