/** The tables `entity_execution_lock` and `flush_cache`, and the five statements that change them. Each statement is
    atomic: the database runs it as a whole. */
module ExecutionLock {
  import opened Wrappers
  import opened Identifiers

  /** The value of `gen_random_uuid()` that names one execution. */
  type ExecutionId = nat

  /** A point in time, in the unit of the configured lock interval. */
  type Time = int

  datatype LockRow = LockRow(lockedBy: ExecutionId, lastLockTime: Time)

  /** `entity_execution_lock`; `entity_instance_id` carries a unique index, hence a map. */
  type LockTable = map<EntityId, LockRow>

  /** The insert goes through, or the conflicting row is strictly older than the interval. */
  predicate Lockable(locks: LockTable, entity: EntityId, now: Time, interval: int) {
    entity in locks ==> locks[entity].lastLockTime < now - interval
  }

  /** The row is there and belongs to this execution: the WHERE clause of UpdateLease and ReleaseLock. */
  predicate HeldBy(locks: LockTable, entity: EntityId, owner: ExecutionId) {
    entity in locks && locks[entity].lockedBy == owner
  }

  function Renewed(locks: LockTable, entity: EntityId, owner: ExecutionId, now: Time): LockTable {
    if HeldBy(locks, entity, owner) then locks[entity := LockRow(owner, now)] else locks
  }

  function Released(locks: LockTable, entity: EntityId, owner: ExecutionId): LockTable {
    if HeldBy(locks, entity, owner) then locks - {entity} else locks
  }

  class LockStore {
    var locks: LockTable
    /** `flush_cache`; `entity_instance_id` carries a unique index, hence a set. */
    var flushCache: set<EntityId>

    constructor ()
      ensures locks == map[] && flushCache == {}
    {
      locks, flushCache := map[], {};
    }

    /** `freshId` stands for the value of `gen_random_uuid()`. The result is None when no row is returned. */
    method LockIfThresholdNotExceeded(entity: EntityId, interval: int, now: Time, freshId: ExecutionId)
      returns (row: Option<LockRow>)
      modifies this`locks
      ensures row == if Lockable(old(locks), entity, now, interval) then Some(LockRow(freshId, now)) else None
      ensures entity !in old(locks) ==> row.Some?
      ensures entity in old(locks) ==> (row.Some? <==> old(locks)[entity].lastLockTime < now - interval)
      ensures locks == if row.Some? then old(locks)[entity := row.value] else old(locks)
    {
      if entity !in locks {
        locks := locks[entity := LockRow(freshId, now)];
        row := Some(locks[entity]);
      } else if locks[entity].lastLockTime < now - interval {
        locks := locks[entity := locks[entity].(lockedBy := freshId, lastLockTime := now)];
        row := Some(locks[entity]);
      } else {
        row := None;
      }
    }

    method UpdateLease(entity: EntityId, owner: ExecutionId, now: Time)
      modifies this`locks
      ensures locks == Renewed(old(locks), entity, owner, now)
      ensures locks.Keys == old(locks).Keys
      ensures forall e :: e in locks ==>
                locks[e] == if e == entity && old(locks)[e].lockedBy == owner then LockRow(owner, now)
                            else old(locks)[e]
    {
      if entity in locks && locks[entity].lockedBy == owner {
        locks := locks[entity := locks[entity].(lastLockTime := now)];
      }
    }

    method ReleaseLock(entity: EntityId, owner: ExecutionId)
      modifies this`locks
      ensures locks == Released(old(locks), entity, owner)
      ensures forall e :: e in locks <==> e in old(locks) && (e == entity ==> old(locks)[e].lockedBy != owner)
      ensures forall e :: e in locks ==> locks[e] == old(locks)[e]
    {
      if entity in locks && locks[entity].lockedBy == owner {
        locks := locks - {entity};
      }
    }

    /** Inserts a row unless there is one; reports whether it did. */
    method EnqueueFlush(entity: EntityId) returns (inserted: bool)
      modifies this`flushCache
      ensures inserted == (entity !in old(flushCache))
      ensures flushCache == old(flushCache) + {entity}
    {
      inserted := entity !in flushCache;
      flushCache := flushCache + {entity};
    }

    /** Deletes the row if there is one; reports whether it did. */
    method FlushCache(entity: EntityId) returns (deleted: bool)
      modifies this`flushCache
      ensures deleted == (entity in old(flushCache))
      ensures flushCache == old(flushCache) - {entity}
    {
      deleted := entity in flushCache;
      flushCache := flushCache - {entity};
    }

    /** Lists the rows, each once, in the order the database happens to return them. */
    method ListFlushCache() returns (rows: seq<EntityId>)
      ensures forall e :: e in rows <==> e in flushCache
      ensures forall i, j :: 0 <= i < j < |rows| ==> rows[i] != rows[j]
    {
      rows := [];
      var rest := flushCache;
      while rest != {}
        invariant rest <= flushCache
        invariant forall e :: e in rows <==> e in flushCache - rest
        invariant forall i, j :: 0 <= i < j < |rows| ==> rows[i] != rows[j]
        decreases |rest|
      {
        var e :| e in rest;
        rest := rest - {e};
        rows := rows + [e];
      }
    }
  }
}
