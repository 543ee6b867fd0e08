/** The status view: the join that reads the latest evaluation of every rule of a profile, over any run of stores,
    rule upserts and purges. */
module StatusView {
  import opened Wrappers
  import opened Identifiers
  import opened HistoryRow
  import opened HistoryTables

  // ---------------------------------------------------------------------------------------------------------------
  // The view

  /** A row of the view. It names the rows it is joined from, so that two ways of joining are two rows. */
  datatype StatusRow = StatusRow(
    ruleEntity: RowId, evaluation: RowId, remediationEvent: RowId, alertEvent: RowId,
    rule: RowId, entity: EntityId, entityType: Entities,
    status: EvalStatus, details: string, time: Time,
    remediation: RemediationStatus, remediationDetails: string,
    alert: AlertStatus, alertDetails: string)

  /** The optional conditions of the query. */
  datatype Restriction = Restriction(
    entity: Option<EntityId>, entityName: Option<string>, ruleType: Option<string>, ruleName: Option<string>)

  predicate Meets(t: Tables, r: Restriction, rule: RowId, entity: EntityId)
    requires rule in t.rules && entity in t.entities
  {
    && (r.entity.None? || r.entity.value == entity)
    && (r.entityName.None? || r.entityName.value == t.entities[entity].name)
    && (r.ruleType.None? || r.ruleType.value == t.rules[rule].ruleType)
    && (r.ruleName.None? || Lower(r.ruleName.value) == Lower(t.rules[rule].name))
  }

  /** The inner joins: a pointer, its rule/entity row, its evaluation, and an event of each kind. */
  predicate Joins(t: Tables, re: RowId, rd: RowId, ad: RowId) {
    && re in t.latest && re in t.ruleEntities
    && t.latest[re].evaluation in t.evaluations
    && rd in t.remediations && t.remediations[rd].evaluation == t.latest[re].evaluation
    && ad in t.alerts && t.alerts[ad].evaluation == t.latest[re].evaluation
    && t.ruleEntities[re].rule in t.rules && t.ruleEntities[re].entity in t.entities
  }

  function JoinedRow(t: Tables, re: RowId, rd: RowId, ad: RowId): StatusRow
    requires Joins(t, re, rd, ad)
  {
    var row, e := t.ruleEntities[re], t.evaluations[t.latest[re].evaluation];
    StatusRow(re, t.latest[re].evaluation, rd, ad, row.rule, row.entity, row.entityType,
              e.status, e.details, e.time,
              t.remediations[rd].status, t.remediations[rd].details, t.alerts[ad].status, t.alerts[ad].details)
  }

  function ListRuleEvaluationsByProfileId(t: Tables, profile: ProfileId, r: Restriction): set<StatusRow> {
    set re, rd, ad | re in t.latest && rd in t.remediations && ad in t.alerts
                     && Joins(t, re, rd, ad) && t.latest[re].profile == profile
                     && Meets(t, r, t.ruleEntities[re].rule, t.ruleEntities[re].entity)
      :: JoinedRow(t, re, rd, ad)
  }

  const UNRESTRICTED := Restriction(None, None, None, None)

  /** Every row of a view has its rule and its entity. */
  lemma RowsHaveRules(t: Tables, profile: ProfileId, r: Restriction)
    ensures forall row :: row in ListRuleEvaluationsByProfileId(t, profile, r) ==>
              row.rule in t.rules && row.entity in t.entities
  {
  }

  /** A restriction keeps exactly the rows of which each column that it gives has the given value; the name of the rule
      in upper or lower case. */
  lemma RestrictionByColumns(t: Tables, profile: ProfileId, r: Restriction, row: StatusRow)
    ensures row in ListRuleEvaluationsByProfileId(t, profile, r) <==>
            && row in ListRuleEvaluationsByProfileId(t, profile, UNRESTRICTED)
            && row.rule in t.rules && row.entity in t.entities
            && (r.entity.Some? ==> row.entity == r.entity.value)
            && (r.entityName.Some? ==> t.entities[row.entity].name == r.entityName.value)
            && (r.ruleType.Some? ==> t.rules[row.rule].ruleType == r.ruleType.value)
            && (r.ruleName.Some? ==> SameUpToCase(r.ruleName.value, t.rules[row.rule].name))
  {
    hide Lower, SameUpToCase;
    if row.rule in t.rules && r.ruleName.Some? {
      LowerIgnoresCase(r.ruleName.value, t.rules[row.rule].name);
    }
  }

  datatype TooManyRows = ExpectedOneRow(got: nat)

  /** The current row of one rule on one entity: none, one, or an error if there are several. */
  method GetRuleEvaluationByProfileIdAndRuleType(
    t: Tables, profile: ProfileId, ruleName: Option<string>, entity: EntityId, ruleType: Option<string>)
    returns (row: Result<Option<StatusRow>, TooManyRows>)
    ensures var rows := ListRuleEvaluationsByProfileId(
              t, profile, Restriction(Some(entity), None, ruleType, ruleName));
            match row
            case Ok(None) => rows == {}
            case Ok(Some(one)) => rows == {one}
            case Err(e) => |rows| == e.got >= 2
    ensures forall one :: row == Ok(Some(one)) ==>
              && one in ListRuleEvaluationsByProfileId(t, profile, UNRESTRICTED)
              && one.rule in t.rules && one.entity == entity
              && (ruleType.Some? ==> t.rules[one.rule].ruleType == ruleType.value)
              && (ruleName.Some? ==> SameUpToCase(ruleName.value, t.rules[one.rule].name))
    ensures row == Ok(None) ==>
              forall one :: one in ListRuleEvaluationsByProfileId(t, profile, UNRESTRICTED) && one.entity == entity ==>
                && one.rule in t.rules
                && ((ruleType.Some? && t.rules[one.rule].ruleType != ruleType.value)
                    || (ruleName.Some? && !SameUpToCase(ruleName.value, t.rules[one.rule].name)))
  {
    hide ListRuleEvaluationsByProfileId;
    RowsHaveRules(t, profile, UNRESTRICTED);
    forall one
      ensures one in ListRuleEvaluationsByProfileId(
                t, profile, Restriction(Some(entity), None, ruleType, ruleName)) <==>
              && one in ListRuleEvaluationsByProfileId(t, profile, UNRESTRICTED)
              && one.rule in t.rules && one.entity in t.entities && one.entity == entity
              && (ruleType.Some? ==> t.rules[one.rule].ruleType == ruleType.value)
              && (ruleName.Some? ==> SameUpToCase(ruleName.value, t.rules[one.rule].name))
    {
      RestrictionByColumns(t, profile, Restriction(Some(entity), None, ruleType, ruleName), one);
    }
    var rows := ListRuleEvaluationsByProfileId(
      t, profile, Restriction(Some(entity), None, ruleType, ruleName));
    if |rows| == 0 {
      return Ok(None);
    } else if |rows| == 1 {
      var one :| one in rows;
      assert |rows - {one}| == 0;
      assert rows == {one} + (rows - {one});
      return Ok(Some(one));
    }
    row := Err(ExpectedOneRow(|rows|));
  }

  // ---------------------------------------------------------------------------------------------------------------
  // Runs

  /** The tables and what a purge that is under way has listed and not yet deleted. */
  datatype System = System(t: Tables, listed: seq<RowId>)

  datatype Op =
    | Store(outcome: Outcome)
    | Upsert(rule: RuleInstance)
    | List(threshold: Time, limit: nat, rows: seq<RowId>)
    | Purge(batch: nat)

  /** Older than the threshold, and no pointer refers to it. */
  predicate IsStale(t: Tables, threshold: Time, id: RowId) {
    id in t.evaluations && t.evaluations[id].time < threshold
    && !(t.evaluations[id].ruleEntity in t.latest && t.latest[t.evaluations[id].ruleEntity].evaluation == id)
  }

  /** A possible answer to the listing of stale records: oldest first, cut at the limit. */
  ghost predicate IsStaleListing(t: Tables, threshold: Time, limit: nat, rows: seq<RowId>) {
    && (forall i :: 0 <= i < |rows| ==> IsStale(t, threshold, rows[i]))
    && (forall i, j :: 0 <= i < j < |rows| ==>
          rows[i] != rows[j] && t.evaluations[rows[i]].time <= t.evaluations[rows[j]].time)
    && |rows| <= limit
    && (forall id :: IsStale(t, threshold, id) && id !in rows ==>
          |rows| == limit && forall i :: 0 <= i < |rows| ==> t.evaluations[rows[i]].time <= t.evaluations[id].time)
  }

  function RowSet(rows: seq<RowId>): set<RowId> {
    set id | id in rows
  }

  ghost predicate Enabled(s: System, op: Op) {
    match op
    case Store(o) => o.rule in s.t.rules && o.entity in s.t.entities
    case Upsert(_) => true
    case List(threshold, limit, rows) => IsStaleListing(s.t, threshold, limit, rows)
    case Purge(batch) => batch <= |s.listed|
  }

  /** A purge deletes its next batch; if a pointer refers to one of these records, the statement fails and nothing is
      deleted. */
  ghost function Next(s: System, op: Op): System
    requires Enabled(s, op)
  {
    match op
    case Store(o) => s.(t := Stored(s.t, o))
    case Upsert(rule) => s.(t := Upserted(s.t, rule))
    case List(_, _, rows) => s.(listed := rows)
    case Purge(batch) =>
      var ids := RowSet(s.listed[..batch]);
      if Pointed(s.t, ids) then s.(listed := []) else System(Deleted(s.t, ids), s.listed[batch..])
  }

  ghost predicate IsStep(s: System, op: Op, u: System) {
    Enabled(s, op) && u == Next(s, op)
  }

  ghost predicate Init(s: System) {
    && s.listed == []
    && s.t == Tables(map[], s.t.entities, map[], map[], map[], map[], map[], 0)
  }

  ghost predicate IsRun(systems: seq<System>, ops: seq<Op>) {
    && |systems| == |ops| + 1 && Init(systems[0])
    && forall i {:trigger ops[i]} :: 0 <= i < |ops| ==> IsStep(systems[i], ops[i], systems[i + 1])
  }

  // ---------------------------------------------------------------------------------------------------------------
  // The plain map: the last outcome of every pair

  predicate Stores(op: Op, rule: RowId, entity: EntityId) {
    op.Store? && op.outcome.rule == rule && op.outcome.entity == entity
  }

  function First(ops: seq<Op>, rule: RowId, entity: EntityId): Option<Outcome> {
    if ops == [] then None
    else
      var first := First(ops[..|ops| - 1], rule, entity);
      if first.None? && Stores(ops[|ops| - 1], rule, entity) then Some(ops[|ops| - 1].outcome) else first
  }

  function Last(ops: seq<Op>, rule: RowId, entity: EntityId): Option<Outcome> {
    if ops == [] then None
    else if Stores(ops[|ops| - 1], rule, entity) then Some(ops[|ops| - 1].outcome)
    else Last(ops[..|ops| - 1], rule, entity)
  }

  /** The last outcome of a pair is that of its latest store, the first one that of its earliest. */
  lemma {:induction false} LatestStoreIsLast(ops: seq<Op>, i: nat, rule: RowId, entity: EntityId)
    requires i < |ops| && ops[i].Store? && ops[i].outcome.rule == rule && ops[i].outcome.entity == entity
    requires forall j :: i < j < |ops| && ops[j].Store? ==>
               ops[j].outcome.rule != rule || ops[j].outcome.entity != entity
    ensures Last(ops, rule, entity) == Some(ops[i].outcome)
  {
    if i < |ops| - 1 {
      LatestStoreIsLast(ops[..|ops| - 1], i, rule, entity);
    }
  }

  lemma {:induction false} NotStoredYet(ops: seq<Op>, rule: RowId, entity: EntityId)
    requires forall j :: 0 <= j < |ops| && ops[j].Store? ==>
               ops[j].outcome.rule != rule || ops[j].outcome.entity != entity
    ensures First(ops, rule, entity) == None && Last(ops, rule, entity) == None
  {
    if ops != [] {
      NotStoredYet(ops[..|ops| - 1], rule, entity);
    }
  }

  lemma {:induction false} EarliestStoreIsFirst(ops: seq<Op>, i: nat, rule: RowId, entity: EntityId)
    requires i < |ops| && ops[i].Store? && ops[i].outcome.rule == rule && ops[i].outcome.entity == entity
    requires forall j :: 0 <= j < i && ops[j].Store? ==>
               ops[j].outcome.rule != rule || ops[j].outcome.entity != entity
    ensures First(ops, rule, entity) == Some(ops[i].outcome)
  {
    if i < |ops| - 1 {
      EarliestStoreIsFirst(ops[..|ops| - 1], i, rule, entity);
    } else {
      NotStoredYet(ops[..i], rule, entity);
    }
  }

  // ---------------------------------------------------------------------------------------------------------------
  // The tables refine the map

  /** The pointer of the row leads to this outcome: evaluation and both events. */
  predicate LeadsTo(t: Tables, re: RowId, o: Outcome)
    requires re in t.latest && t.latest[re].evaluation in t.evaluations
  {
    var ev := t.latest[re].evaluation;
    && t.evaluations[ev] == Evaluation(re, o.status, o.details, o.time)
    && (forall id :: id in t.remediations && t.remediations[id].evaluation == ev ==>
          t.remediations[id] == Event(ev, o.remediation, o.remediationDetails))
    && (forall id :: id in t.alerts && t.alerts[id].evaluation == ev ==>
          t.alerts[id] == Event(ev, o.alert, o.alertDetails))
  }

  /** The row was made by the first outcome, and its pointer leads to the last one, which is its newest evaluation. */
  ghost predicate Shows(t: Tables, re: RowId, first: Option<Outcome>, last: Option<Outcome>) {
    && re in t.ruleEntities && re in t.latest && t.latest[re].evaluation in t.evaluations
    && first.Some? && last.Some?
    && t.ruleEntities[re].entityType == first.value.entityType
    && t.latest[re].profile == first.value.profile
    && LeadsTo(t, re, last.value)
    && forall ev :: ev in t.evaluations && t.evaluations[ev].ruleEntity == re ==> ev <= t.latest[re].evaluation
  }

  /** A pair has a row exactly when it was stored, and the row shows its first and its last outcome. */
  ghost predicate Refines(t: Tables, ops: seq<Op>) {
    && (forall re, rule, entity :: IsRowOf(t, re, rule, entity) ==>
          Shows(t, re, First(ops, rule, entity), Last(ops, rule, entity)))
    && (forall rule, entity :: Last(ops, rule, entity).Some? ==> exists re :: IsRowOf(t, re, rule, entity))
  }

  /** An id that was given out and that no pointer refers to. */
  predicate Superseded(t: Tables, id: RowId) {
    id < t.nextId && forall re :: re in t.latest ==> t.latest[re].evaluation != id
  }

  ghost predicate SystemInv(s: System, ops: seq<Op>) {
    && Inv(s.t) && Refines(s.t, ops)
    && forall id :: id in s.listed ==> Superseded(s.t, id)
  }

  lemma LastAndFirst(ops: seq<Op>, op: Op, rule: RowId, entity: EntityId)
    ensures Last(ops + [op], rule, entity) ==
            if Stores(op, rule, entity) then Some(op.outcome) else Last(ops, rule, entity)
    ensures First(ops + [op], rule, entity) ==
            if First(ops, rule, entity).Some? then First(ops, rule, entity)
            else if Stores(op, rule, entity) then Some(op.outcome) else None
  {
    assert (ops + [op])[..|ops|] == ops;
  }

  lemma {:induction false} LastIffFirst(ops: seq<Op>, rule: RowId, entity: EntityId)
    ensures Last(ops, rule, entity).Some? == First(ops, rule, entity).Some?
  {
    if ops == [] {
    } else {
      LastIffFirst(ops[..|ops| - 1], rule, entity);
    }
  }

  lemma RowFound(t: Tables, o: Outcome)
    ensures Lookup(t, o.rule, o.entity).Some? ==> IsRowOf(t, RowFor(t, o), o.rule, o.entity)
  {
  }

  /** A store adds or uses the row of its own pair, and leaves the rows of other pairs. */
  lemma RowsAfterStore(t: Tables, o: Outcome, re: RowId, rule: RowId, entity: EntityId)
    requires Inv(t)
    ensures IsRowOf(Stored(t, o), re, rule, entity) <==>
            if re == RowFor(t, o) then rule == o.rule && entity == o.entity else IsRowOf(t, re, rule, entity)
    ensures rule == o.rule && entity == o.entity && IsRowOf(t, re, rule, entity) ==> re == RowFor(t, o)
    ensures RowFor(t, o) in t.ruleEntities ==> IsRowOf(t, RowFor(t, o), o.rule, o.entity)
  {
    hide LookupRows, OneEventEach, RowsRefer, EvaluationsRefer, RuleNamesUnique;
    LookupFindsThePair(t, o.rule, o.entity);
    assert t.nextId !in t.ruleEntities;
    RowFound(t, o);
  }

  lemma StoreLeadsToOutcome(t: Tables, o: Outcome)
    requires Inv(t)
    ensures var u, re := Stored(t, o), RowFor(t, o);
            re in u.latest && u.latest[re].evaluation in u.evaluations && LeadsTo(u, re, o)
  {
    hide LookupRows, Lookup, PointersHit, OneRowPerPair, RowsRefer, EvaluationsRefer, RuleNamesUnique;
  }

  lemma StoreShowsOutcome(t: Tables, o: Outcome, first: Option<Outcome>, last: Option<Outcome>)
    requires Inv(t) && o.rule in t.rules && o.entity in t.entities
    requires if RowFor(t, o) in t.ruleEntities then Shows(t, RowFor(t, o), first, last) else first == None
    ensures Shows(Stored(t, o), RowFor(t, o), if first.Some? then first else Some(o), Some(o))
  {
    hide LookupRows, Lookup, OneEventEach, OneRowPerPair, RowsRefer, RuleNamesUnique, LeadsTo;
    StoreLeadsToOutcome(t, o);
    RowFound(t, o);
  }

  lemma StoreLeavesOthers(t: Tables, o: Outcome, re: RowId, first: Option<Outcome>, last: Option<Outcome>)
    requires Inv(t) && o.rule in t.rules && o.entity in t.entities
    requires re != RowFor(t, o) && Shows(t, re, first, last)
    ensures Shows(Stored(t, o), re, first, last)
  {
    hide LookupRows, OneRowPerPair, RowsRefer, EvaluationsRefer, RuleNamesUnique;
  }

  lemma StoreRefines(t: Tables, ops: seq<Op>, o: Outcome)
    requires Inv(t) && Refines(t, ops) && o.rule in t.rules && o.entity in t.entities
    ensures Refines(Stored(t, o), ops + [Store(o)])
  {
    hide Inv, Shows, Last, First, Stored, RowFor;
    var u, ops' := Stored(t, o), ops + [Store(o)];
    forall re, rule, entity | IsRowOf(u, re, rule, entity)
      ensures Shows(u, re, First(ops', rule, entity), Last(ops', rule, entity))
    {
      LastAndFirst(ops, Store(o), rule, entity);
      LastIffFirst(ops, rule, entity);
      RowsAfterStore(t, o, re, rule, entity);
      if re == RowFor(t, o) {
        if Last(ops, rule, entity).Some? {
          var mine :| IsRowOf(t, mine, rule, entity);
          RowsAfterStore(t, o, mine, rule, entity);
        }
        StoreShowsOutcome(t, o, First(ops, rule, entity), Last(ops, rule, entity));
      } else {
        StoreLeavesOthers(t, o, re, First(ops, rule, entity), Last(ops, rule, entity));
      }
    }
    forall rule, entity | Last(ops', rule, entity).Some? ensures exists re :: IsRowOf(u, re, rule, entity) {
      LastAndFirst(ops, Store(o), rule, entity);
      RowsAfterStore(t, o, RowFor(t, o), o.rule, o.entity);
      if !Stores(Store(o), rule, entity) {
        var re :| IsRowOf(t, re, rule, entity);
        RowsAfterStore(t, o, re, rule, entity);
      }
    }
  }

  // ---------------------------------------------------------------------------------------------------------------
  // Every step keeps the invariant

  lemma SupersededStep(s: System, op: Op, id: RowId)
    requires Enabled(s, op) && Superseded(s.t, id)
    ensures Superseded(Next(s, op).t, id)
  {
    hide LookupRows, Lookup, Upserted, Pointed;
    if op.Upsert? {
      OnlyRulesChange(s.t, op.rule);
    }
  }

  lemma ListedIsSuperseded(t: Tables, threshold: Time, limit: nat, rows: seq<RowId>)
    requires Inv(t) && IsStaleListing(t, threshold, limit, rows)
    ensures forall id :: id in rows ==> Superseded(t, id)
  {
    hide OneEventEach, OneRowPerPair, RowsRefer, EvaluationsRefer, RuleNamesUnique;
    forall id | id in rows ensures Superseded(t, id) {
      assert IsStale(t, threshold, id);
    }
  }

  lemma SamePast(ops: seq<Op>, op: Op)
    requires !op.Store?
    ensures forall rule, entity :: Last(ops + [op], rule, entity) == Last(ops, rule, entity)
    ensures forall rule, entity :: First(ops + [op], rule, entity) == First(ops, rule, entity)
  {
    forall rule, entity ensures Last(ops + [op], rule, entity) == Last(ops, rule, entity)
                                && First(ops + [op], rule, entity) == First(ops, rule, entity) {
      LastAndFirst(ops, op, rule, entity);
    }
  }

  lemma UpsertRefines(t: Tables, ops: seq<Op>, rule: RuleInstance)
    requires Refines(t, ops)
    ensures Refines(Upserted(t, rule), ops + [Upsert(rule)])
  {
    hide Last, First, Upserted;
    var u := Upserted(t, rule);
    OnlyRulesChange(t, rule);
    SamePast(ops, Upsert(rule));
    forall re, rule, entity | IsRowOf(t, re, rule, entity)
      ensures IsRowOf(u, re, rule, entity) && Shows(u, re, First(ops, rule, entity), Last(ops, rule, entity))
    {
    }
  }

  lemma DeleteRefines(t: Tables, ops: seq<Op>, op: Op, ids: set<RowId>)
    requires Refines(t, ops) && !Pointed(t, ids) && !op.Store?
    ensures Refines(Deleted(t, ids), ops + [op])
  {
    hide Last, First;
    var u := Deleted(t, ids);
    SamePast(ops, op);
    forall re, rule, entity | IsRowOf(t, re, rule, entity)
      ensures IsRowOf(u, re, rule, entity) && Shows(u, re, First(ops, rule, entity), Last(ops, rule, entity))
    {
    }
  }

  lemma DeletesNothing(t: Tables)
    ensures Deleted(t, {}) == t && !Pointed(t, {})
  {
    assert t.evaluations - {} == t.evaluations;
    assert WithoutEventsOf(t.remediations, {}) == t.remediations;
    assert WithoutEventsOf(t.alerts, {}) == t.alerts;
  }

  lemma ListedNotPointed(t: Tables, rows: seq<RowId>)
    requires forall id :: id in rows ==> Superseded(t, id)
    ensures !Pointed(t, RowSet(rows))
  {
  }

  lemma SystemInvStep(s: System, op: Op, ops: seq<Op>)
    requires SystemInv(s, ops) && Enabled(s, op)
    ensures SystemInv(Next(s, op), ops + [op])
  {
    hide Inv, Refines, Superseded, Stored, Upserted, Deleted;
    forall id | id in s.listed ensures Superseded(Next(s, op).t, id) {
      SupersededStep(s, op, id);
    }
    match op
    case Store(o) =>
      StoreKeepsInv(s.t, o);
      StoreRefines(s.t, ops, o);
    case Upsert(rule) =>
      UpsertKeepsInv(s.t, rule);
      UpsertRefines(s.t, ops, rule);
    case List(threshold, limit, rows) =>
      ListedIsSuperseded(s.t, threshold, limit, rows);
      DeleteRefines(s.t, ops, op, {});
      DeletesNothing(s.t);
    case Purge(batch) =>
      ListedNotPointed(s.t, s.listed[..batch]);
      DeleteKeepsInv(s.t, RowSet(s.listed[..batch]));
      DeleteRefines(s.t, ops, op, RowSet(s.listed[..batch]));
  }

  lemma EmptyTables(s: System)
    requires Init(s)
    ensures SystemInv(s, [])
  {
  }

  lemma {:induction false} SystemInvHolds(systems: seq<System>, ops: seq<Op>, k: nat)
    requires IsRun(systems, ops) && k < |systems|
    ensures SystemInv(systems[k], ops[..k])
  {
    if k > 0 {
      SystemInvHolds(systems, ops, k - 1);
      assert IsStep(systems[k - 1], ops[k - 1], systems[k]);
      assert ops[..k] == ops[..k - 1] + [ops[k - 1]];
      SystemInvStep(systems[k - 1], ops[k - 1], ops[..k - 1]);
    } else {
      EmptyTables(systems[0]);
    }
  }

  // ---------------------------------------------------------------------------------------------------------------
  // Over whole runs

  /** The status and details of an evaluation and of its two events. */
  predicate ShowsOutcome(row: StatusRow, o: Outcome) {
    && row.rule == o.rule && row.entity == o.entity
    && row.status == o.status && row.details == o.details && row.time == o.time
    && row.remediation == o.remediation && row.remediationDetails == o.remediationDetails
    && row.alert == o.alert && row.alertDetails == o.alertDetails
  }

  lemma {:induction false} LastIsStored(ops: seq<Op>, rule: RowId, entity: EntityId)
    ensures Last(ops, rule, entity).Some? ==>
            Last(ops, rule, entity).value.rule == rule && Last(ops, rule, entity).value.entity == entity
  {
    if ops != [] {
      LastIsStored(ops[..|ops| - 1], rule, entity);
    }
  }

  lemma MeetsByColumns(t: Tables, r: Restriction, rule: RowId, entity: EntityId)
    requires rule in t.rules && entity in t.entities
    ensures Meets(t, r, rule, entity) <==>
            && (r.entity.Some? ==> entity == r.entity.value)
            && (r.entityName.Some? ==> t.entities[entity].name == r.entityName.value)
            && (r.ruleType.Some? ==> t.rules[rule].ruleType == r.ruleType.value)
            && (r.ruleName.Some? ==> SameUpToCase(r.ruleName.value, t.rules[rule].name))
  {
    hide Lower, SameUpToCase;
    if r.ruleName.Some? {
      LowerIgnoresCase(r.ruleName.value, t.rules[rule].name);
    }
  }

  /** Every row of the view is joined from a pointer of the profile. */
  lemma RowsOfView(t: Tables, profile: ProfileId, r: Restriction)
    ensures forall row :: row in ListRuleEvaluationsByProfileId(t, profile, r) ==>
              && IsRowOf(t, row.ruleEntity, row.rule, row.entity)
              && Joins(t, row.ruleEntity, row.remediationEvent, row.alertEvent)
              && row == JoinedRow(t, row.ruleEntity, row.remediationEvent, row.alertEvent)
              && t.latest[row.ruleEntity].profile == profile && Meets(t, r, row.rule, row.entity)
  {
  }

  /** The row of a pair is in the view of its pointer's profile, in one way only. */
  lemma RowIsShown(
    t: Tables, re: RowId, profile: ProfileId, r: Restriction, first: Option<Outcome>, last: Option<Outcome>)
    requires Inv(t) && Shows(t, re, first, last)
    requires last.value.rule == t.ruleEntities[re].rule && last.value.entity == t.ruleEntities[re].entity
    ensures t.ruleEntities[re].rule in t.rules && t.ruleEntities[re].entity in t.entities
    ensures var view := ListRuleEvaluationsByProfileId(t, profile, r);
            && (first.value.profile == profile && Meets(t, r, t.ruleEntities[re].rule, t.ruleEntities[re].entity) ==>
                  exists row :: row in view && row.ruleEntity == re && row.rule == t.ruleEntities[re].rule
                                && row.entity == t.ruleEntities[re].entity)
            && (forall row :: row in view && row.ruleEntity == re ==>
                  ShowsOutcome(row, last.value) && row.entityType == first.value.entityType)
            && (forall row, other :: row in view && other in view && row.ruleEntity == re && other.ruleEntity == re ==>
                  row == other)
  {
    var ev := t.latest[re].evaluation;
    RowsOfView(t, profile, r);
    var rd := TheEvent(t.evaluations.Keys, t.remediations, ev);
    var ad := TheEvent(t.evaluations.Keys, t.alerts, ev);
    assert Joins(t, re, rd, ad);
    if first.value.profile == profile && Meets(t, r, t.ruleEntities[re].rule, t.ruleEntities[re].entity) {
      assert JoinedRow(t, re, rd, ad) in ListRuleEvaluationsByProfileId(t, profile, r);
    }
  }

  /** The view of the profile has, for a pair first stored for it that meets the restriction, one row, and it shows the
      last outcome of that pair; for other pairs it has none. */
  ghost predicate ViewShowsLast(
    t: Tables, past: seq<Op>, profile: ProfileId, r: Restriction, rule: RowId, entity: EntityId)
  {
    var view := ListRuleEvaluationsByProfileId(t, profile, r);
    var first, last := First(past, rule, entity), Last(past, rule, entity);
    && (first.Some? ==> last.Some? && rule in t.rules && entity in t.entities)
    && ((exists row :: row in view && row.rule == rule && row.entity == entity) <==>
        && first.Some? && first.value.profile == profile
        && (r.entity.Some? ==> entity == r.entity.value)
        && (r.entityName.Some? ==> t.entities[entity].name == r.entityName.value)
        && (r.ruleType.Some? ==> t.rules[rule].ruleType == r.ruleType.value)
        && (r.ruleName.Some? ==> SameUpToCase(r.ruleName.value, t.rules[rule].name)))
    && (forall row :: row in view && row.rule == rule && row.entity == entity ==>
          ShowsOutcome(row, last.value) && row.entityType == first.value.entityType)
    && (forall row, other ::
          row in view && other in view && (row.rule, row.entity) == (other.rule, other.entity) == (rule, entity)
          ==> row == other)
  }

  lemma OneRowEachPair(t: Tables, re: RowId, rule: RowId, entity: EntityId)
    requires Inv(t) && IsRowOf(t, re, rule, entity)
    ensures forall other :: IsRowOf(t, other, rule, entity) ==> other == re
  {
  }

  lemma RefiningViewShowsLast(
    t: Tables, past: seq<Op>, profile: ProfileId, r: Restriction, rule: RowId, entity: EntityId)
    requires Inv(t) && Refines(t, past)
    ensures ViewShowsLast(t, past, profile, r, rule, entity)
  {
    hide Inv, Meets, First, Last, ShowsOutcome, LeadsTo, ListRuleEvaluationsByProfileId, SameUpToCase;
    if rule in t.rules && entity in t.entities {
      MeetsByColumns(t, r, rule, entity);
    }
    LastIffFirst(past, rule, entity);
    LastIsStored(past, rule, entity);
    if Last(past, rule, entity).Some? {
      var re :| IsRowOf(t, re, rule, entity);
      RowIsShown(t, re, profile, r, First(past, rule, entity), Last(past, rule, entity));
      OneRowEachPair(t, re, rule, entity);
    }
    RowsOfView(t, profile, r);
  }

  /** Whatever was stored, changed and purged before. */
  lemma StatusViewIsLastStore(
    systems: seq<System>, ops: seq<Op>, k: nat, profile: ProfileId, r: Restriction, rule: RowId, entity: EntityId)
    requires IsRun(systems, ops) && k < |systems|
    ensures ViewShowsLast(systems[k].t, ops[..k], profile, r, rule, entity)
  {
    SystemInvHolds(systems, ops, k);
    RefiningViewShowsLast(systems[k].t, ops[..k], profile, r, rule, entity);
  }

  /** Nothing is found for a pair as long as it was never stored; then always its one row, and its pointer is to the
      newest evaluation of that row. */
  ghost predicate PointsToNewest(t: Tables, rule: RowId, entity: EntityId) {
    && (Lookup(t, rule, entity).None? <==> !exists re :: IsRowOf(t, re, rule, entity))
    && forall re :: IsRowOf(t, re, rule, entity) ==>
         && Lookup(t, rule, entity) == Some(re)
         && re in t.latest && t.latest[re].evaluation in t.evaluations
         && t.evaluations[t.latest[re].evaluation].ruleEntity == re
         && forall ev :: ev in t.evaluations && t.evaluations[ev].ruleEntity == re ==> ev <= t.latest[re].evaluation
  }

  lemma PointerOfPair(t: Tables, ops: seq<Op>, rule: RowId, entity: EntityId)
    requires Inv(t) && Refines(t, ops)
    ensures PointsToNewest(t, rule, entity)
    ensures Lookup(t, rule, entity).None? <==> Last(ops, rule, entity).None?
  {
    hide Last, First, Lookup, LookupRows, OneEventEach, RowsRefer, EvaluationsRefer, RuleNamesUnique;
    LookupFindsThePair(t, rule, entity);
    forall re | IsRowOf(t, re, rule, entity) ensures Shows(t, re, First(ops, rule, entity), Last(ops, rule, entity)) {
    }
    if Lookup(t, rule, entity).Some? {
      var re :| re in t.ruleEntities && t.ruleEntities[re].rule == rule && t.ruleEntities[re].entity == entity;
      assert IsRowOf(t, re, rule, entity);
    }
  }

  lemma PointerIsLastInserted(systems: seq<System>, ops: seq<Op>, k: nat, rule: RowId, entity: EntityId)
    requires IsRun(systems, ops) && k < |systems|
    ensures PointsToNewest(systems[k].t, rule, entity)
    ensures Lookup(systems[k].t, rule, entity).None? <==> Last(ops[..k], rule, entity).None?
  {
    SystemInvHolds(systems, ops, k);
    PointerOfPair(systems[k].t, ops[..k], rule, entity);
  }

  /** What was superseded is never the latest again. */
  lemma {:induction false} SupersededForever(systems: seq<System>, ops: seq<Op>, i: nat, k: nat, id: RowId)
    requires IsRun(systems, ops) && i <= k < |systems| && Superseded(systems[i].t, id)
    ensures Superseded(systems[k].t, id)
  {
    if i < k {
      SupersededForever(systems, ops, i, k - 1, id);
      assert IsStep(systems[k - 1], ops[k - 1], systems[k]);
      SupersededStep(systems[k - 1], ops[k - 1], id);
    }
  }

  lemma DeleteKeepsView(t: Tables, ids: set<RowId>, profile: ProfileId, r: Restriction)
    requires !Pointed(t, ids)
    ensures ListRuleEvaluationsByProfileId(Deleted(t, ids), profile, r) == ListRuleEvaluationsByProfileId(t, profile, r)
  {
    var u := Deleted(t, ids);
    forall re, rd, ad ensures Joins(t, re, rd, ad) <==> Joins(u, re, rd, ad) {
    }
    forall re, rd, ad | Joins(t, re, rd, ad) ensures JoinedRow(t, re, rd, ad) == JoinedRow(u, re, rd, ad) {
    }
    assert ListRuleEvaluationsByProfileId(u, profile, r) <= ListRuleEvaluationsByProfileId(t, profile, r) by {
      RowsOfView(u, profile, r);
    }
    assert ListRuleEvaluationsByProfileId(t, profile, r) <= ListRuleEvaluationsByProfileId(u, profile, r) by {
      RowsOfView(t, profile, r);
    }
  }

  /** A purge deletes from a list however old: it is never refused, and no view of any profile changes. */
  lemma PurgeKeepsView(systems: seq<System>, ops: seq<Op>, i: nat, profile: ProfileId, r: Restriction)
    requires IsRun(systems, ops) && i < |ops| && ops[i].Purge?
    ensures systems[i + 1].t == Deleted(systems[i].t, RowSet(systems[i].listed[..ops[i].batch]))
    ensures ListRuleEvaluationsByProfileId(systems[i + 1].t, profile, r)
            == ListRuleEvaluationsByProfileId(systems[i].t, profile, r)
  {
    hide Inv, Refines, ListRuleEvaluationsByProfileId, Deleted;
    SystemInvHolds(systems, ops, i);
    assert IsStep(systems[i], ops[i], systems[i + 1]);
    var rows := systems[i].listed[..ops[i].batch];
    ListedNotPointed(systems[i].t, rows);
    DeleteKeepsView(systems[i].t, RowSet(rows), profile, r);
  }

  // ---------------------------------------------------------------------------------------------------------------
  // One row for one rule name and entity

  /** The caller hands over the rule's own profile, and an entity of the rule's type. */
  predicate Truthful(t: Tables, op: Op) {
    op.Store? && op.outcome.rule in t.rules && op.outcome.entity in t.entities ==>
      && t.rules[op.outcome.rule].profile == op.outcome.profile
      && t.rules[op.outcome.rule].entityType == t.entities[op.outcome.entity].entityType
  }

  ghost predicate ProfilesAgree(t: Tables) {
    forall re, rule, entity ::
      IsRowOf(t, re, rule, entity) && re in t.latest && rule in t.rules && entity in t.entities ==>
      && t.latest[re].profile == t.rules[rule].profile
      && t.rules[rule].entityType == t.entities[entity].entityType
  }

  lemma RowsAndPointers(t: Tables)
    requires Inv(t)
    ensures t.latest.Keys == t.ruleEntities.Keys && RowsRefer(t.ruleEntities, t.rules.Keys, t.entities.Keys)
  {
  }

  lemma StoreKeepsProfiles(t: Tables, o: Outcome)
    requires Inv(t) && ProfilesAgree(t) && o.rule in t.rules && o.entity in t.entities && Truthful(t, Store(o))
    ensures ProfilesAgree(Stored(t, o))
  {
    hide Inv, IsRowOf, LookupRows, Lookup;
    forall re, rule, entity | IsRowOf(Stored(t, o), re, rule, entity)
      ensures re != RowFor(t, o) ==> IsRowOf(t, re, rule, entity)
      ensures re == RowFor(t, o) ==> rule == o.rule && entity == o.entity
    {
      RowsAfterStore(t, o, re, rule, entity);
    }
    RowsAfterStore(t, o, RowFor(t, o), o.rule, o.entity);
    RowsAndPointers(t);
  }

  lemma KeyParts(r: RuleInstance, s: RuleInstance)
    requires SameKey(r, s)
    ensures r.profile == s.profile && r.entityType == s.entityType
  {
  }

  lemma UpsertKeepsProfiles(t: Tables, rule: RuleInstance)
    requires Inv(t) && ProfilesAgree(t)
    ensures ProfilesAgree(Upserted(t, rule))
  {
    hide Upserted, Inv, SameKey;
    var u := Upserted(t, rule);
    UpsertKeepsInv(t, rule);
    OnlyRulesChange(t, rule);
    forall re, of, entity | IsRowOf(u, re, of, entity) && re in u.latest && of in u.rules && entity in u.entities
      ensures u.latest[re].profile == u.rules[of].profile && u.rules[of].entityType == u.entities[entity].entityType
    {
      RowsAndPointers(t);
      assert IsRowOf(t, re, of, entity);
      assert SameKey(u.rules[of], t.rules[of]);
      KeyParts(u.rules[of], t.rules[of]);
    }
  }

  lemma ProfilesAgreeStep(s: System, op: Op)
    requires Inv(s.t) && Enabled(s, op) && ProfilesAgree(s.t) && Truthful(s.t, op)
    ensures ProfilesAgree(Next(s, op).t)
  {
    hide Stored, Upserted, Inv;
    match op
    case Store(o) => StoreKeepsProfiles(s.t, o);
    case Upsert(rule) => UpsertKeepsProfiles(s.t, rule);
    case List(_, _, _) =>
    case Purge(_) =>
  }

  lemma NothingToAgree(s: System)
    requires Init(s)
    ensures ProfilesAgree(s.t)
  {
  }

  lemma {:induction false} ProfilesAgreeHolds(systems: seq<System>, ops: seq<Op>, k: nat)
    requires IsRun(systems, ops) && k < |systems|
    requires forall i :: 0 <= i < |ops| ==> Truthful(systems[i].t, ops[i])
    ensures ProfilesAgree(systems[k].t)
  {
    hide Inv, Refines, Superseded, ProfilesAgree, Enabled, Next;
    if k > 0 {
      assert IsStep(systems[k - 1], ops[k - 1], systems[k]);
      ProfilesAgreeHolds(systems, ops, k - 1);
      SystemInvHolds(systems, ops, k - 1);
      assert Truthful(systems[k - 1].t, ops[k - 1]);
      ProfilesAgreeStep(systems[k - 1], ops[k - 1]);
    } else {
      NothingToAgree(systems[0]);
    }
  }

  lemma OneRow(t: Tables, profile: ProfileId, r: Restriction, row: StatusRow, other: StatusRow)
    requires Inv(t) && ProfilesAgree(t) && r.entity.Some? && r.ruleName.Some?
    requires row in ListRuleEvaluationsByProfileId(t, profile, r)
    requires other in ListRuleEvaluationsByProfileId(t, profile, r)
    ensures row == other
  {
    hide ListRuleEvaluationsByProfileId, RowsRefer, EvaluationsRefer, Lower;
    RowsOfView(t, profile, r);
    assert SameKey(t.rules[row.rule], t.rules[other.rule]);
    assert row.ruleEntity == other.ruleEntity;
  }

  /** The lookup by rule name never meets two rows. It rests on the unique index of the rules, as two rules of one
      profile may have one name if they are for different entity types. */
  lemma AtMostOneRow(
    systems: seq<System>, ops: seq<Op>, k: nat,
    profile: ProfileId, ruleName: string, entity: EntityId, ruleType: Option<string>)
    requires IsRun(systems, ops) && k < |systems|
    requires forall i :: 0 <= i < |ops| ==> Truthful(systems[i].t, ops[i])
    ensures |ListRuleEvaluationsByProfileId(
               systems[k].t, profile, Restriction(Some(entity), None, ruleType, Some(ruleName)))| <= 1
  {
    hide ListRuleEvaluationsByProfileId, IsRun, Truthful;
    var t, r := systems[k].t, Restriction(Some(entity), None, ruleType, Some(ruleName));
    var view := ListRuleEvaluationsByProfileId(t, profile, r);
    SystemInvHolds(systems, ops, k);
    ProfilesAgreeHolds(systems, ops, k);
    forall row, other | row in view && other in view ensures row == other {
      OneRow(t, profile, r, row, other);
    }
    if row :| row in view {
      assert view == {row};
    }
  }
}
