/** The statements of the evaluation history one by one, the transaction that stores one evaluation, and the purge. */
module HistoryStore {
  import opened Wrappers
  import opened Identifiers
  import opened HistoryRow
  import opened HistoryTables
  import StatusView

  datatype Statement =
    | BeginTransaction | SelectLatest | InsertRuleEntity | InsertEvaluation | UpsertLatest | InsertRemediation
    | InsertAlert | Commit

  datatype StoreError = DatabaseError(statement: Statement) | ForeignKeyViolation

  /** The statements of one stored evaluation meet an error: the one that the database refuses is executed, or the pair
      is new and its rule or entity is gone. */
  ghost predicate StoreFails(t: Tables, o: Outcome, refused: Option<Statement>) {
    || (refused.Some? && (refused.value == InsertRuleEntity ==> Lookup(t, o.rule, o.entity).None?))
    || (Lookup(t, o.rule, o.entity).None? && !(o.rule in t.rules && o.entity in t.entities))
  }

  /** Finding or inserting the row of the outcome's pair meets an error. */
  ghost predicate RowFails(t: Tables, o: Outcome, refused: Option<Statement>) {
    || refused == Some(SelectLatest)
    || (Lookup(t, o.rule, o.entity).None?
        && (refused == Some(InsertRuleEntity) || o.rule !in t.rules || o.entity !in t.entities))
  }

  /** The refused statement is one of those that `StoreEvaluationStatus` sends. */
  predicate IsForEvaluation(refused: Option<Statement>) {
    refused.Some? && match refused.value
      case SelectLatest | InsertRuleEntity | InsertEvaluation | UpsertLatest => true
      case _ => false
  }

  lemma FailsInParts(t: Tables, o: Outcome, refused: Option<Statement>)
    ensures StoreFails(t, o, if IsForEvaluation(refused) then refused else None) <==>
            RowFails(t, o, refused) || refused == Some(InsertEvaluation) || refused == Some(UpsertLatest)
  {
    hide Lookup;
  }

  /** The tables after the evaluation and the pointer were written, and no event yet. */
  ghost function WithoutEvents(t: Tables, o: Outcome): Tables {
    Stored(t, o).(remediations := t.remediations, alerts := t.alerts, nextId := EvaluationFor(t, o) + 1)
  }

  /** How many of these evaluations there are. */
  function Count(t: Tables, ids: set<RowId>): nat {
    |ids * t.evaluations.Keys|
  }

  datatype Purge = Purge(tables: Tables, deleted: nat, refused: bool)

  /** The size of the next batch: the last one may be smaller. */
  function BatchLength(records: seq<RowId>, batchSize: nat): nat {
    if batchSize > |records| then |records| else batchSize
  }

  function NextBatch(records: seq<RowId>, batchSize: nat): set<RowId> {
    StatusView.RowSet(records[..BatchLength(records, batchSize)])
  }

  function Purged(t: Tables, records: seq<RowId>, batchSize: nat): Purge
    requires batchSize > 0 || records == []
    decreases |records|
  {
    if records == [] then Purge(t, 0, false)
    else
      var n, batch := BatchLength(records, batchSize), NextBatch(records, batchSize);
      if Pointed(t, batch) then Purge(t, 0, true)
      else
        var rest := Purged(Deleted(t, batch), records[n..], batchSize);
        rest.(deleted := Count(t, batch) + rest.deleted)
  }

  /** What is left, on top of what was deleted, is what there is to do in all. */
  predicate LeftToDo(all: Purge, t: Tables, rest: seq<RowId>, batchSize: nat, deleted: nat) {
    && (batchSize > 0 || rest == [])
    && all == Purged(t, rest, batchSize).(deleted := deleted + Purged(t, rest, batchSize).deleted)
  }

  lemma AllToDo(t: Tables, records: seq<RowId>, batchSize: nat)
    requires batchSize > 0 || records == []
    ensures LeftToDo(Purged(t, records, batchSize), t, records, batchSize, 0)
  {
  }

  lemma OneBatch(all: Purge, t: Tables, rest: seq<RowId>, batchSize: nat, deleted: nat)
    requires LeftToDo(all, t, rest, batchSize, deleted) && rest != []
    ensures var n := if batchSize > |rest| then |rest| else batchSize;
            var batch := StatusView.RowSet(rest[..n]);
            && (Pointed(t, batch) ==> all == Purge(t, deleted, true))
            && (!Pointed(t, batch) ==>
                  LeftToDo(all, Deleted(t, batch), rest[n..], batchSize, deleted + Count(t, batch)))
  {
    hide Deleted, Pointed;
  }

  lemma NothingToDo(all: Purge, t: Tables, batchSize: nat, deleted: nat)
    requires LeftToDo(all, t, [], batchSize, deleted)
    ensures all == Purge(t, deleted, false)
  {
  }

  /** The first `n` records are deleted; a pointer refers to the batch after them. */
  ghost predicate StopsAt(t: Tables, end: Tables, records: seq<RowId>, n: nat, batchSize: nat) {
    && n < |records| && end == Deleted(t, StatusView.RowSet(records[..n]))
    && !Pointed(t, StatusView.RowSet(records[..n]))
    && Pointed(t, NextBatch(records[n..], batchSize))
  }

  lemma WithoutInParts<S>(events: map<RowId, Event<S>>, a: set<RowId>, b: set<RowId>)
    ensures WithoutEventsOf(WithoutEventsOf(events, a), b) == WithoutEventsOf(events, a + b)
  {
  }

  lemma CountInParts(keys: set<RowId>, a: set<RowId>, b: set<RowId>)
    ensures |a * keys| + |b * (keys - a)| == |(a + b) * keys|
  {
    assert (a + b) * keys == a * keys + b * (keys - a);
  }

  lemma PointedInParts(t: Tables, a: set<RowId>, b: set<RowId>)
    ensures Pointed(t, a + b) <==> Pointed(t, a) || Pointed(t, b)
    ensures Pointed(Deleted(t, a), b) <==> Pointed(t, b)
  {
  }

  lemma DeletedInParts(t: Tables, a: set<RowId>, b: set<RowId>)
    ensures Deleted(Deleted(t, a), b) == Deleted(t, a + b)
    ensures Pointed(t, a + b) <==> Pointed(t, a) || Pointed(t, b)
    ensures Pointed(Deleted(t, a), b) <==> Pointed(t, b)
    ensures Count(t, a) + Count(Deleted(t, a), b) == Count(t, a + b)
  {
    hide WithoutEventsOf, Pointed;
    assert t.evaluations - a - b == t.evaluations - (a + b);
    WithoutInParts(t.remediations, a, b);
    WithoutInParts(t.alerts, a, b);
    CountInParts(t.evaluations.Keys, a, b);
    assert Deleted(t, a).evaluations.Keys == t.evaluations.Keys - a;
    PointedInParts(t, a, b);
  }

  lemma NoRows()
    ensures StatusView.RowSet([]) == {}
  {
  }

  lemma RowsInParts(records: seq<RowId>, n: nat)
    requires n <= |records|
    ensures StatusView.RowSet(records) == StatusView.RowSet(records[..n]) + StatusView.RowSet(records[n..])
  {
    assert records == records[..n] + records[n..];
  }

  /** All is deleted, and what existed is counted, exactly if no pointer refers to any of the records. */
  lemma {:induction false} PurgeIsWhole(t: Tables, records: seq<RowId>, batchSize: nat)
    requires batchSize > 0 || records == []
    ensures var purged, all := Purged(t, records, batchSize), StatusView.RowSet(records);
            && (purged.refused <==> Pointed(t, all))
            && (!purged.refused ==> purged.tables == Deleted(t, all) && purged.deleted == Count(t, all))
    decreases |records|
  {
    hide Deleted, Pointed, StatusView.RowSet;
    if records == [] {
      NoRows();
      StatusView.DeletesNothing(t);
    } else {
      var n := BatchLength(records, batchSize);
      RowsInParts(records, n);
      DeletedInParts(t, StatusView.RowSet(records[..n]), StatusView.RowSet(records[n..]));
      PurgeIsWhole(Deleted(t, StatusView.RowSet(records[..n])), records[n..], batchSize);
    }
  }

  lemma StopsAtFirst(t: Tables, records: seq<RowId>, batchSize: nat)
    requires batchSize > 0 && records != []
    requires Pointed(t, StatusView.RowSet(records[..BatchLength(records, batchSize)]))
    ensures StopsAt(t, t, records, 0, batchSize)
  {
    StatusView.DeletesNothing(t);
    NoRows();
    assert records[..0] == [] && records[0..] == records;
  }

  lemma Slices(records: seq<RowId>, n: nat, m: nat)
    requires n + m <= |records|
    ensures records[..n + m][..n] == records[..n] && records[..n + m][n..] == records[n..][..m]
    ensures records[n + m..] == records[n..][m..]
  {
  }

  lemma StopsLater(t: Tables, end: Tables, records: seq<RowId>, n: nat, m: nat, batchSize: nat)
    requires n <= |records| && !Pointed(t, StatusView.RowSet(records[..n]))
    requires StopsAt(Deleted(t, StatusView.RowSet(records[..n])), end, records[n..], m, batchSize)
    ensures StopsAt(t, end, records, n + m, batchSize)
  {
    hide Deleted, Pointed, StatusView.RowSet, NextBatch;
    var done, more := StatusView.RowSet(records[..n]), StatusView.RowSet(records[n..][..m]);
    Slices(records, n, m);
    RowsInParts(records[..n + m], n);
    DeletedInParts(t, done, more);
    DeletedInParts(t, done, NextBatch(records[n..][m..], batchSize));
  }

  lemma BatchAt(records: seq<RowId>, n: nat, batchSize: nat)
    requires n <= |records|
    ensures NextBatch(records[n..], batchSize)
            == StatusView.RowSet(if n + batchSize > |records| then records[n..] else records[n..n + batchSize])
  {
    if n + batchSize <= |records| {
      assert records[n..][..batchSize] == records[n..n + batchSize];
    } else {
      assert records[n..][..|records| - n] == records[n..];
    }
  }

  /** A purge that fails has deleted the batches before the first one that a pointer refers to. */
  lemma {:induction false} PurgeStopsBeforeBatch(t: Tables, records: seq<RowId>, batchSize: nat)
    returns (n: nat, batches: nat)
    requires batchSize > 0 && Purged(t, records, batchSize).refused
    ensures StopsAt(t, Purged(t, records, batchSize).tables, records, n, batchSize)
    ensures n == batches * batchSize
    decreases |records|
  {
    hide Deleted, Pointed, StatusView.RowSet, StopsAt;
    var first := BatchLength(records, batchSize);
    if Pointed(t, StatusView.RowSet(records[..first])) {
      n, batches := 0, 0;
      StopsAtFirst(t, records, batchSize);
    } else {
      n, batches := PurgeStopsBeforeBatch(Deleted(t, StatusView.RowSet(records[..first])), records[first..], batchSize);
      StopsLater(t, Purged(t, records, batchSize).tables, records, first, n, batchSize);
      assert batches * batchSize + batchSize == (batches + 1) * batchSize;
      n, batches := first + n, batches + 1;
    }
  }

  /** The same in terms of the records: whole batches are deleted, and a pointer refers to the next one. */
  lemma PurgeStopsAtPointer(t: Tables, records: seq<RowId>, batchSize: nat) returns (n: nat, batches: nat)
    requires batchSize > 0 && Purged(t, records, batchSize).refused
    ensures n == batches * batchSize && n < |records|
    ensures Purged(t, records, batchSize).tables == Deleted(t, StatusView.RowSet(records[..n]))
    ensures !Pointed(t, StatusView.RowSet(records[..n]))
    ensures Pointed(t, StatusView.RowSet(if n + batchSize > |records| then records[n..] else records[n..n + batchSize]))
  {
    hide Deleted, Pointed, StatusView.RowSet, NextBatch, Purged;
    n, batches := PurgeStopsBeforeBatch(t, records, batchSize);
    BatchAt(records, n, batchSize);
  }

  /** The variables of the loop over the batches. */
  datatype Loop = Loop(tables: Tables, rest: seq<RowId>, size: nat, deleted: nat, refused: bool)

  predicate Ended(l: Loop) {
    l.rest == [] || l.refused
  }

  /** One turn of the loop; the batch size is cut to what is left. */
  function Turn(l: Loop): Loop {
    if Ended(l) then l
    else
      var size, batch := BatchLength(l.rest, l.size), NextBatch(l.rest, l.size);
      if Pointed(l.tables, batch) then l.(size := size, refused := true)
      else Loop(Deleted(l.tables, batch), l.rest[size..], size,
                l.deleted + Count(l.tables, batch), false)
  }

  function Turns(l: Loop, n: nat): Loop
    decreases n
  {
    if n == 0 then l else Turns(Turn(l), n - 1)
  }

  /** With a positive batch size the loop ends where the batch-wise deletion does. */
  lemma {:induction false} TurnsReachPurged(l: Loop) returns (n: nat)
    requires l.size > 0 && !l.refused
    ensures var end, purged := Turns(l, n), Purged(l.tables, l.rest, l.size);
            && Ended(end) && end.tables == purged.tables && end.refused == purged.refused
            && end.deleted == l.deleted + purged.deleted
    decreases |l.rest|
  {
    hide Deleted, Pointed, NextBatch;
    var next := Turn(l);
    if l.rest == [] {
      n := 0;
    } else if next.refused {
      n := 1;
      assert Turns(next, 0) == next;
    } else {
      n := TurnsReachPurged(next);
      n := n + 1;
    }
  }

  lemma {:induction false} EmptyBatchesForEver(l: Loop, n: nat)
    requires l.size == 0 && l.rest != [] && !l.refused
    ensures Turns(l, n) == l
  {
    if n > 0 {
      NoRows();
      StatusView.DeletesNothing(l.tables);
      assert l.rest[..0] == [] && l.rest[0..] == l.rest;
      EmptyBatchesForEver(l, n - 1);
    }
  }

  lemma NoTurns(l: Loop)
    requires Ended(l)
    ensures exists n: nat :: Ended(Turns(l, n))
  {
    assert Ended(Turns(l, 0));
  }

  /** The loop ends exactly if batches are not empty or there is nothing to delete. */
  lemma PurgeEnds(t: Tables, records: seq<RowId>, batchSize: nat)
    ensures (exists n: nat :: Ended(Turns(Loop(t, records, batchSize, 0, false), n))) <==>
            batchSize > 0 || records == []
  {
    hide Turns, Turn;
    var start := Loop(t, records, batchSize, 0, false);
    if batchSize > 0 {
      var n := TurnsReachPurged(start);
      assert Ended(Turns(start, n));
    } else if records == [] {
      NoTurns(start);
    } else {
      forall n: nat ensures !Ended(Turns(start, n)) {
        EmptyBatchesForEver(start, n);
      }
    }
  }

  lemma {:induction false} SizeOfDistinct(records: seq<RowId>)
    requires forall i, j :: 0 <= i < j < |records| ==> records[i] != records[j]
    ensures |StatusView.RowSet(records)| == |records|
  {
    if records != [] {
      var front, last := records[..|records| - 1], records[|records| - 1];
      SizeOfDistinct(front);
      assert StatusView.RowSet(records) == StatusView.RowSet(front) + {last};
    }
  }

  lemma AllListedExist(t: Tables, threshold: Time, limit: nat, records: seq<RowId>)
    requires StatusView.IsStaleListing(t, threshold, limit, records)
    ensures |StatusView.RowSet(records) * t.evaluations.Keys| == |records|
  {
    forall id | id in records ensures id in t.evaluations {
      assert StatusView.IsStale(t, threshold, id);
    }
    assert StatusView.RowSet(records) * t.evaluations.Keys == StatusView.RowSet(records);
    SizeOfDistinct(records);
  }

  lemma NoneLeft(t: Tables, threshold: Time, limit: nat, records: seq<RowId>)
    requires StatusView.IsStaleListing(t, threshold, limit, records)
    ensures |records| < limit ==>
              forall id :: !StatusView.IsStale(Deleted(t, StatusView.RowSet(records)), threshold, id)
  {
    if |records| < limit {
      forall id ensures !StatusView.IsStale(Deleted(t, StatusView.RowSet(records)), threshold, id) {
        assert StatusView.IsStale(t, threshold, id) ==> id in records;
      }
    }
  }

  lemma NotPointed(t: Tables, records: seq<RowId>)
    requires forall id :: id in records ==> StatusView.Superseded(t, id)
    ensures forall id, re :: id in records && re in t.latest ==> t.latest[re].evaluation != id
  {
  }

  /** What the listing lists, and what a purge of it leaves, record by record. */
  lemma ListedRecords(t: Tables, threshold: Time, limit: nat, records: seq<RowId>)
    requires Inv(t) && StatusView.IsStaleListing(t, threshold, limit, records)
    ensures forall id :: id in records ==>
              && id in t.evaluations && t.evaluations[id].time < threshold
              && forall re :: re in t.latest ==> t.latest[re].evaluation != id
    ensures var u := Deleted(t, StatusView.RowSet(records));
            && (forall id :: id in u.evaluations <==> id in t.evaluations && id !in records)
            && (|records| < limit ==> forall id :: id in u.evaluations && u.evaluations[id].time < threshold ==>
                                        exists re :: re in t.latest && t.latest[re].evaluation == id)
  {
    hide FreshIds, OneEventEach, OneRowPerPair, RowsRefer, RuleNamesUnique, StatusView.Superseded, WithoutEventsOf;
    StatusView.ListedIsSuperseded(t, threshold, limit, records);
    forall id | id in records
      ensures id in t.evaluations && t.evaluations[id].time < threshold
      ensures StatusView.Superseded(t, id)
    {
      assert StatusView.IsStale(t, threshold, id);
    }
    NotPointed(t, records);
    NoneLeft(t, threshold, limit, records);
    var u := Deleted(t, StatusView.RowSet(records));
    if |records| < limit {
      forall id | id in u.evaluations && u.evaluations[id].time < threshold
        ensures exists re :: re in t.latest && t.latest[re].evaluation == id
      {
        assert !StatusView.IsStale(u, threshold, id);
      }
    }
  }

  /** What is not older than the threshold, and what a pointer refers to, is still there. */
  ghost predicate SurvivesPurge(t: Tables, u: Tables, threshold: Time) {
    && u.latest == t.latest && u.ruleEntities == t.ruleEntities && u.rules == t.rules
    && (forall id :: id in t.evaluations && t.evaluations[id].time >= threshold ==>
          id in u.evaluations && u.evaluations[id] == t.evaluations[id])
    && (forall re :: re in t.latest && t.latest[re].evaluation in t.evaluations ==>
          t.latest[re].evaluation in u.evaluations
          && u.evaluations[t.latest[re].evaluation] == t.evaluations[t.latest[re].evaluation])
  }

  lemma PurgeSpares(t: Tables, threshold: Time, limit: nat, records: seq<RowId>)
    requires Inv(t) && StatusView.IsStaleListing(t, threshold, limit, records)
    ensures SurvivesPurge(t, Deleted(t, StatusView.RowSet(records)), threshold) && SurvivesPurge(t, t, threshold)
  {
    hide Inv, StatusView.IsStaleListing;
    ListedRecords(t, threshold, limit, records);
  }

  /** What a purge of all listed records comes to. */
  lemma StaleListingPurged(
    t: Tables, threshold: Time, limit: nat, records: seq<RowId>, batchSize: nat, dryRun: bool)
    requires Inv(t) && StatusView.IsStaleListing(t, threshold, limit, records)
    requires batchSize > 0 || dryRun || records == []
    ensures var u := Deleted(t, StatusView.RowSet(records));
            && Inv(u) && (records == [] ==> u == t)
            && (!dryRun ==> Purged(t, records, batchSize) == Purge(u, |records|, false))
            && (|records| < limit ==> forall id :: !StatusView.IsStale(u, threshold, id))
  {
    hide Inv, Pointed, Deleted, Purged, StatusView.RowSet, StatusView.IsStaleListing;
    StatusView.ListedIsSuperseded(t, threshold, limit, records);
    StatusView.ListedNotPointed(t, records);
    if batchSize > 0 || records == [] {
      PurgeIsWhole(t, records, batchSize);
    }
    DeleteKeepsInv(t, StatusView.RowSet(records));
    AllListedExist(t, threshold, limit, records);
    if records == [] {
      NoRows();
      StatusView.DeletesNothing(t);
    }
    NoneLeft(t, threshold, limit, records);
  }

  lemma OneWithKey(t: Tables, rule: RuleInstance, r: RowId)
    requires Inv(t) && r in t.rules && SameKey(t.rules[r], rule)
    ensures Upserted(t, rule) == t.(rules := t.rules[r := t.rules[r].(ruleType := rule.ruleType)])
    ensures SameKey(t.rules[r].(ruleType := rule.ruleType), rule)
  {
    hide Lower, FreshIds, PointersHit, OneEventEach, OneRowPerPair, RowsRefer, EvaluationsRefer;
    forall s | s in t.rules && SameKey(t.rules[s], rule) ensures s == r {
      assert SameKey(t.rules[s], t.rules[r]);
    }
  }

  lemma NoneWithKey(t: Tables, rule: RuleInstance)
    requires forall r :: r in t.rules ==> !SameKey(t.rules[r], rule)
    ensures Upserted(t, rule) == t.(rules := t.rules[t.nextId := rule], nextId := t.nextId + 1)
    ensures SameKey(rule, rule)
  {
    hide Lower;
  }

  /** The tables with the row of the outcome's pair. */
  ghost function RowWritten(t: Tables, o: Outcome): Tables {
    if Lookup(t, o.rule, o.entity).Some? then t
    else t.(ruleEntities := t.ruleEntities[t.nextId := RuleEntity(o.rule, o.entity, o.entityType)],
            nextId := t.nextId + 1)
  }

  /** First the row, then the evaluation and its pointer. */
  lemma EvaluationWritten(t: Tables, o: Outcome)
    ensures var u, re := RowWritten(t, o), RowFor(t, o);
            && u.nextId == EvaluationFor(t, o) && u.latest == t.latest
            && (Lookup(t, o.rule, o.entity).None? ==> re in u.ruleEntities)
            && (Lookup(t, o.rule, o.entity).Some? ==> u.ruleEntities == t.ruleEntities)
            && WithoutEvents(t, o) == u.(
                 evaluations := u.evaluations[u.nextId := Evaluation(re, o.status, o.details, o.time)],
                 latest := u.latest[
                   re := Pointer(u.nextId, if re in u.latest then u.latest[re].profile else o.profile)],
                 nextId := u.nextId + 1)
  {
    hide Lookup;
  }

  lemma RowsFound(t: Tables, rule: RowId, entity: EntityId)
    requires Inv(t)
    ensures forall re :: re in LookupRows(t, rule, entity) ==>
              re in t.ruleEntities && Lookup(t, rule, entity) == Some(re)
    ensures LookupRows(t, rule, entity) == {} ==> Lookup(t, rule, entity) == None
    ensures Lookup(t, rule, entity).Some? ==> Lookup(t, rule, entity).value in t.ruleEntities
  {
    LookupFindsThePair(t, rule, entity);
  }

  /** With the invariant, a pair that is found has its rule and its entity. */
  lemma KnownPair(t: Tables, o: Outcome)
    requires Inv(t) && !StoreFails(t, o, None)
    ensures o.rule in t.rules && o.entity in t.entities
  {
    LookupFindsThePair(t, o.rule, o.entity);
  }

  // ---------------------------------------------------------------------------------------------------------------
  // The functions above in terms of the tables

  /** A deletion takes the evaluations, and the events of theirs, and nothing else. */
  lemma DeletedByMembers(t: Tables, ids: set<RowId>)
    ensures var u := Deleted(t, ids);
            && (forall id :: id in u.evaluations <==> id in t.evaluations && id !in ids)
            && (forall id :: id in u.evaluations ==> u.evaluations[id] == t.evaluations[id])
            && (forall id :: id in u.remediations <==> id in t.remediations && t.remediations[id].evaluation !in ids)
            && (forall id :: id in u.remediations ==> u.remediations[id] == t.remediations[id])
            && (forall id :: id in u.alerts <==> id in t.alerts && t.alerts[id].evaluation !in ids)
            && (forall id :: id in u.alerts ==> u.alerts[id] == t.alerts[id])
            && u.latest == t.latest && u.ruleEntities == t.ruleEntities && u.rules == t.rules && u.nextId == t.nextId
    ensures Pointed(t, ids) <==> exists re :: re in t.latest && t.latest[re].evaluation in ids
  {
  }

  /** A rule upsert changes the type of the one rule with the same profile, entity type and name up to case, or adds the
      rule if there is none. */
  lemma UpsertedByKey(t: Tables, rule: RuleInstance, id: RowId)
    requires Inv(t)
    ensures id in t.rules && t.rules[id].profile == rule.profile && t.rules[id].entityType == rule.entityType
              && SameUpToCase(t.rules[id].name, rule.name) ==>
              Upserted(t, rule) == t.(rules := t.rules[id := t.rules[id].(ruleType := rule.ruleType)])
    ensures (forall other :: other in t.rules ==>
               || t.rules[other].profile != rule.profile || t.rules[other].entityType != rule.entityType
               || !SameUpToCase(t.rules[other].name, rule.name)) ==>
              Upserted(t, rule) == t.(rules := t.rules[t.nextId := rule], nextId := t.nextId + 1)
  {
    hide Inv, SameKey, SameUpToCase, Upserted;
    forall other | other in t.rules
      ensures SameKey(t.rules[other], rule) <==>
              && t.rules[other].profile == rule.profile && t.rules[other].entityType == rule.entityType
              && SameUpToCase(t.rules[other].name, rule.name)
    {
      KeyIs(t.rules[other], rule);
    }
    if id in t.rules && SameKey(t.rules[id], rule) {
      OneWithKey(t, rule, id);
    }
    if forall other :: other in t.rules ==> !SameKey(t.rules[other], rule) {
      NoneWithKey(t, rule);
    }
  }

  /** Storing fails exactly if a statement is refused that is sent, or if a new pair has no rule or no entity. */
  lemma StoreFailsWhen(t: Tables, o: Outcome, refused: Option<Statement>)
    requires Inv(t)
    ensures StoreFails(t, o, refused) <==>
            || (refused.Some? && refused.value != InsertRuleEntity)
            || ((forall re :: !IsRowOf(t, re, o.rule, o.entity))
                && (refused == Some(InsertRuleEntity) || o.rule !in t.rules || o.entity !in t.entities))
  {
    hide Lookup, FreshIds, OneEventEach, RuleNamesUnique;
    LookupFindsThePair(t, o.rule, o.entity);
    if Lookup(t, o.rule, o.entity).Some? {
      var re :| re in t.ruleEntities && t.ruleEntities[re].rule == o.rule && t.ruleEntities[re].entity == o.entity;
      assert IsRowOf(t, re, o.rule, o.entity);
    }
  }

  class HistoryStore {
    var rules: map<RowId, RuleInstance>
    var entities: map<EntityId, EntityInstance>
    var ruleEntities: map<RowId, RuleEntity>
    var evaluations: map<RowId, Evaluation>
    var latest: map<RowId, Pointer>
    var remediations: map<RowId, Event<RemediationStatus>>
    var alerts: map<RowId, Event<AlertStatus>>
    var nextId: RowId

    constructor (entities: map<EntityId, EntityInstance>)
      ensures View() == Tables(map[], entities, map[], map[], map[], map[], map[], 0)
    {
      this.entities := entities;
      rules, ruleEntities, evaluations, latest := map[], map[], map[], map[];
      remediations, alerts, nextId := map[], map[], 0;
    }

    function View(): Tables
      reads this
    {
      Tables(rules, entities, ruleEntities, evaluations, latest, remediations, alerts, nextId)
    }

    // -------------------------------------------------------------------------------------------------------------
    // Statements

    /** The first row of the join, in whatever order the database finds them. */
    method GetLatestEvalStateForRuleEntity(rule: RowId, entity: EntityId, refused: Option<Statement>)
      returns (r: Result<Option<RowId>, StoreError>)
      ensures r.Err? <==> refused == Some(SelectLatest)
      ensures r.Ok? && r.value.None? ==> LookupRows(View(), rule, entity) == {}
      ensures r.Ok? && r.value.Some? ==> r.value.value in LookupRows(View(), rule, entity)
    {
      if refused == Some(SelectLatest) {
        return Err(DatabaseError(SelectLatest));
      }
      var rows := LookupRows(View(), rule, entity);
      if rows == {} {
        return Ok(None);
      }
      var re :| re in rows;
      return Ok(Some(re));
    }

    method InsertEvaluationRuleEntity(row: RuleEntity, refused: Option<Statement>)
      returns (r: Result<RowId, StoreError>)
      modifies this
      ensures r.Ok? <==> refused != Some(InsertRuleEntity) && row.rule in rules && row.entity in entities
      ensures r.Ok? ==> r.value == old(nextId) && View() == old(View()).(
                ruleEntities := old(ruleEntities)[r.value := row], nextId := r.value + 1)
      ensures r.Err? ==> View() == old(View())
    {
      if refused == Some(InsertRuleEntity) {
        return Err(DatabaseError(InsertRuleEntity));
      }
      if row.rule !in rules || row.entity !in entities {
        return Err(ForeignKeyViolation);
      }
      r := Ok(nextId);
      ruleEntities, nextId := ruleEntities[nextId := row], nextId + 1;
    }

    method InsertEvaluationStatus(e: Evaluation, refused: Option<Statement>) returns (r: Result<RowId, StoreError>)
      modifies this
      ensures r.Ok? <==> refused != Some(InsertEvaluation) && e.ruleEntity in ruleEntities
      ensures r.Ok? ==> r.value == old(nextId) && View() == old(View()).(
                evaluations := old(evaluations)[r.value := e], nextId := r.value + 1)
      ensures r.Err? ==> View() == old(View())
    {
      if refused == Some(InsertEvaluation) {
        return Err(DatabaseError(InsertEvaluation));
      }
      if e.ruleEntity !in ruleEntities {
        return Err(ForeignKeyViolation);
      }
      r := Ok(nextId);
      evaluations, nextId := evaluations[nextId := e], nextId + 1;
    }

    /** On conflict only the evaluation is replaced: the pointer keeps its profile. */
    method UpsertLatestEvaluationStatus(
      re: RowId, evaluation: RowId, profile: ProfileId, refused: Option<Statement>)
      returns (error: Option<StoreError>)
      modifies this
      ensures error.None? <==> refused != Some(UpsertLatest) && re in ruleEntities && evaluation in evaluations
      ensures error.None? ==> View() == old(View()).(latest := old(latest)[
                re := Pointer(evaluation, if re in old(latest) then old(latest)[re].profile else profile)])
      ensures error.Some? ==> View() == old(View())
    {
      if refused == Some(UpsertLatest) {
        return Some(DatabaseError(UpsertLatest));
      }
      if re !in ruleEntities || evaluation !in evaluations {
        return Some(ForeignKeyViolation);
      }
      if re in latest {
        latest := latest[re := latest[re].(evaluation := evaluation)];
      } else {
        latest := latest[re := Pointer(evaluation, profile)];
      }
      error := None;
    }

    method InsertRemediationEvent(event: Event<RemediationStatus>, refused: Option<Statement>)
      returns (error: Option<StoreError>)
      modifies this
      ensures error.None? <==> refused != Some(InsertRemediation) && event.evaluation in evaluations
      ensures error.None? ==> View() == old(View()).(
                remediations := old(remediations)[old(nextId) := event], nextId := old(nextId) + 1)
      ensures error.Some? ==> View() == old(View())
    {
      if refused == Some(InsertRemediation) {
        return Some(DatabaseError(InsertRemediation));
      }
      if event.evaluation !in evaluations {
        return Some(ForeignKeyViolation);
      }
      remediations, nextId := remediations[nextId := event], nextId + 1;
      error := None;
    }

    method InsertAlertEvent(event: Event<AlertStatus>, refused: Option<Statement>) returns (error: Option<StoreError>)
      modifies this
      ensures error.None? <==> refused != Some(InsertAlert) && event.evaluation in evaluations
      ensures error.None? ==> View() == old(View()).(
                alerts := old(alerts)[old(nextId) := event], nextId := old(nextId) + 1)
      ensures error.Some? ==> View() == old(View())
    {
      if refused == Some(InsertAlert) {
        return Some(DatabaseError(InsertAlert));
      }
      if event.evaluation !in evaluations {
        return Some(ForeignKeyViolation);
      }
      alerts, nextId := alerts[nextId := event], nextId + 1;
      error := None;
    }

    /** Refused as a whole if a pointer refers to one of the evaluations. Returns how many rows were deleted. */
    method DeleteEvaluationHistoryByIDs(ids: set<RowId>) returns (r: Result<nat, StoreError>)
      modifies this
      ensures r.Err? <==> Pointed(old(View()), ids)
      ensures r.Err? ==> r.error == ForeignKeyViolation
      ensures r.Err? ==> View() == old(View())
      ensures r.Ok? ==> View() == Deleted(old(View()), ids) && r.value == Count(old(View()), ids)
    {
      if exists re :: re in latest && latest[re].evaluation in ids {
        return Err(ForeignKeyViolation);
      }
      r := Ok(|ids * evaluations.Keys|);
      evaluations := evaluations - ids;
      remediations := WithoutEventsOf(remediations, ids);
      alerts := WithoutEventsOf(alerts, ids);
    }

    /** Returns the id of the rule with this key: the one that is there, with the new rule type, or a new one. */
    method UpsertRuleInstance(rule: RuleInstance) returns (id: RowId)
      requires Inv(View())
      modifies this
      ensures Inv(View()) && View() == Upserted(old(View()), rule)
      ensures id in rules && SameKey(rules[id], rule) && rules[id].ruleType == rule.ruleType
    {
      hide Inv, Lower, Upserted, SameKey;
      ghost var t := View();
      UpsertKeepsInv(t, rule);
      if found :| found in rules && SameKey(rules[found], rule) {
        id := found;
        OneWithKey(t, rule, found);
        rules := rules[id := rules[id].(ruleType := rule.ruleType)];
      } else {
        id := nextId;
        NoneWithKey(t, rule);
        rules, nextId := rules[nextId := rule], nextId + 1;
      }
    }

    // -------------------------------------------------------------------------------------------------------------
    // Storing one evaluation

    /** The row of the outcome's pair: the one that is found, or a new one. */
    method RuleEntityFor(o: Outcome, refused: Option<Statement>) returns (r: Result<RowId, StoreError>)
      requires Inv(View())
      modifies this
      ensures r.Err? <==> RowFails(old(View()), o, refused)
      ensures r.Ok? ==> r.value == RowFor(old(View()), o) && View() == RowWritten(old(View()), o)
    {
      hide Inv, LookupRows, Lookup;
      RowsFound(View(), o.rule, o.entity);
      var found := GetLatestEvalStateForRuleEntity(o.rule, o.entity, refused);
      match found {
        case Err(e) =>
          return Err(e);
        case Ok(None) =>
          r := InsertEvaluationRuleEntity(RuleEntity(o.rule, o.entity, o.entityType), refused);
        case Ok(Some(row)) =>
          r := Ok(row);
      }
    }

    method StoreEvaluationStatus(o: Outcome, refused: Option<Statement>) returns (r: Result<RowId, StoreError>)
      requires Inv(View())
      modifies this
      ensures r.Ok? <==> !StoreFails(old(View()), o, if IsForEvaluation(refused) then refused else None)
      ensures r.Ok? ==> r.value == EvaluationFor(old(View()), o) && View() == WithoutEvents(old(View()), o)
    {
      hide Inv, LookupRows, Lookup, WithoutEvents, RowWritten, StoreFails, RowFails, IsForEvaluation;
      EvaluationWritten(View(), o);
      FailsInParts(View(), o, refused);
      RowsFound(View(), o.rule, o.entity);
      var re := RuleEntityFor(o, refused);
      if re.Err? {
        return re;
      }
      r := CreateNewStatus(re.value, o, refused);
    }

    method CreateNewStatus(re: RowId, o: Outcome, refused: Option<Statement>) returns (r: Result<RowId, StoreError>)
      modifies this
      ensures r.Ok? <==>
              re in old(ruleEntities) && refused != Some(InsertEvaluation) && refused != Some(UpsertLatest)
      ensures r.Ok? ==> r.value == old(nextId) && View() == old(View()).(
                evaluations := old(evaluations)[r.value := Evaluation(re, o.status, o.details, o.time)],
                latest := old(latest)[
                  re := Pointer(r.value, if re in old(latest) then old(latest)[re].profile else o.profile)],
                nextId := r.value + 1)
    {
      r := InsertEvaluationStatus(Evaluation(re, o.status, o.details, o.time), refused);
      if r.Err? {
        return;
      }
      var error := UpsertLatestEvaluationStatus(re, r.value, o.profile, refused);
      if error.Some? {
        return Err(error.value);
      }
    }

    /** What runs inside the transaction. */
    method WriteOutcome(o: Outcome, refused: Option<Statement>) returns (error: Option<StoreError>)
      requires Inv(View())
      modifies this
      ensures error.None? ==> View() == Stored(old(View()), o)
      ensures error.Some? <==> StoreFails(old(View()), o,
                if refused.Some? && refused.value in {BeginTransaction, Commit} then None else refused)
    {
      var evaluation := StoreEvaluationStatus(o, refused);
      if evaluation.Err? {
        return Some(evaluation.error);
      }
      error := InsertRemediationEvent(Event(evaluation.value, o.remediation, o.remediationDetails), refused);
      if error.Some? {
        return;
      }
      error := InsertAlertEvent(Event(evaluation.value, o.alert, o.alertDetails), refused);
    }

    /** One evaluation with its pointer and both events, or nothing: a rollback puts back what was there. An evaluation
        that asks to be skipped silently writes nothing at all. */
    method CreateOrUpdateEvalStatus(o: Outcome, skipSilently: bool, refused: Option<Statement>)
      returns (error: Option<StoreError>)
      requires Inv(View())
      modifies this
      ensures Inv(View())
      ensures View() == if skipSilently || error.Some? then old(View()) else Stored(old(View()), o)
      ensures error.Some? <==> !skipSilently && StoreFails(old(View()), o, refused)
    {
      if skipSilently {
        return None;
      }
      if refused == Some(BeginTransaction) {
        return Some(DatabaseError(BeginTransaction));
      }
      var before := View();
      error := WriteOutcome(o, refused);
      if error.None? && refused == Some(Commit) {
        error := Some(DatabaseError(Commit));
      }
      if error.Some? {
        Rollback(before);
      } else {
        KnownPair(before, o);
        StoreKeepsInv(before, o);
      }
    }

    method Rollback(t: Tables)
      modifies this
      ensures View() == t
    {
      rules, entities, ruleEntities := t.rules, t.entities, t.ruleEntities;
      evaluations, latest, remediations, alerts := t.evaluations, t.latest, t.remediations, t.alerts;
      nextId := t.nextId;
    }

    // -------------------------------------------------------------------------------------------------------------
    // The purge

    /** Deletes the records batch by batch, each batch in its own transaction. */
    method DeleteEvaluationHistory(records: seq<RowId>, batchSize: nat) returns (r: Result<nat, StoreError>)
      requires batchSize > 0 || records == []
      modifies this
      ensures var purged := Purged(old(View()), records, batchSize);
              View() == purged.tables && r == if purged.refused then Err(ForeignKeyViolation) else Ok(purged.deleted)
    {
      hide Count, Purged, LeftToDo, Deleted, Pointed, BatchLength, NextBatch, StatusView.RowSet;
      ghost var all := Purged(View(), records, batchSize);
      var rest, size, deleted: nat := records, batchSize, 0;
      AllToDo(View(), records, batchSize);
      while rest != []
        invariant rest != [] ==> size == batchSize > 0
        invariant LeftToDo(all, View(), rest, batchSize, deleted)
        decreases |rest|
      {
        OneBatch(all, View(), rest, batchSize, deleted);
        if size > |rest| {
          size := |rest|;
        }
        var partial := DeleteEvaluationHistoryByIDs(StatusView.RowSet(rest[..size]));
        if partial.Err? {
          return partial;
        }
        rest, deleted := rest[size..], deleted + partial.value;
      }
      NothingToDo(all, View(), batchSize, deleted);
      r := Ok(deleted);
    }

    /** One purge, with the answer of the listing. Afterwards nothing that was listed is left; no pointer was in the
        way; and if the listing was not cut at its limit, no stale record is left. */
    method PurgeLoop(threshold: Time, limit: nat, records: seq<RowId>, batchSize: nat, dryRun: bool)
      returns (r: Result<nat, StoreError>)
      requires Inv(View()) && StatusView.IsStaleListing(View(), threshold, limit, records)
      requires batchSize > 0 || dryRun || records == []
      modifies this
      ensures Inv(View())
      ensures r == Ok(if dryRun then 0 else |records|)
      ensures View() == if dryRun then old(View()) else Deleted(old(View()), StatusView.RowSet(records))
      ensures !dryRun && |records| < limit ==> forall id :: !StatusView.IsStale(View(), threshold, id)
      ensures SurvivesPurge(old(View()), View(), threshold)
    {
      StaleListingPurged(View(), threshold, limit, records, batchSize, dryRun);
      PurgeSpares(View(), threshold, limit, records);
      hide Inv, SurvivesPurge, StatusView.IsStaleListing, StatusView.IsStale, StatusView.RowSet, Deleted, Purged;
      if records == [] {
        return Ok(0);
      }
      r := Ok(0);
      if !dryRun {
        r := DeleteEvaluationHistory(records, batchSize);
      }
    }
  }
}
