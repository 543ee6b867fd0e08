/** The tables behind the evaluation history, the statements of one stored evaluation as a whole, and what every state
    of the tables satisfies. */
module HistoryTables {
  import opened Wrappers
  import opened Identifiers
  import opened HistoryRow

  type ProfileId = nat

  /** The values of `gen_random_uuid()`, here drawn from one counter: an id is never used twice, not even after its row
      was deleted. */
  type RowId = nat

  datatype RuleInstance = RuleInstance(profile: ProfileId, entityType: Entities, name: string, ruleType: string)

  datatype EntityInstance = EntityInstance(entityType: Entities, name: string)

  datatype RuleEntity = RuleEntity(rule: RowId, entity: EntityId, entityType: Entities)

  datatype Evaluation = Evaluation(ruleEntity: RowId, status: EvalStatus, details: string, time: Time)

  datatype Pointer = Pointer(evaluation: RowId, profile: ProfileId)

  datatype Event<S> = Event(evaluation: RowId, status: S, details: string)

  datatype Tables = Tables(
    rules: map<RowId, RuleInstance>,                    // rule_instances
    entities: map<EntityId, EntityInstance>,            // entity_instances, fixed
    ruleEntities: map<RowId, RuleEntity>,               // evaluation_rule_entities
    evaluations: map<RowId, Evaluation>,                // evaluation_statuses
    latest: map<RowId, Pointer>,                        // latest_evaluation_statuses, by rule_entity_id
    remediations: map<RowId, Event<RemediationStatus>>, // remediation_events
    alerts: map<RowId, Event<AlertStatus>>,             // alert_events
    nextId: RowId)

  /** One evaluation of a rule on an entity, as the executor hands it over. */
  datatype Outcome = Outcome(
    rule: RowId, profile: ProfileId, entity: EntityId, entityType: Entities,
    status: EvalStatus, details: string, time: Time,
    remediation: RemediationStatus, remediationDetails: string,
    alert: AlertStatus, alertDetails: string)

  predicate IsRowOf(t: Tables, re: RowId, rule: RowId, entity: EntityId) {
    re in t.ruleEntities && t.ruleEntities[re].rule == rule && t.ruleEntities[re].entity == entity
  }

  /** The rule/entity rows that the lookup of the latest evaluation finds: the join with the pointer and with the
      evaluation it points to. */
  function LookupRows(t: Tables, rule: RowId, entity: EntityId): set<RowId> {
    set re | re in t.ruleEntities && re in t.latest && t.latest[re].evaluation in t.evaluations
             && t.ruleEntities[re].rule == rule && t.ruleEntities[re].entity == entity
  }

  ghost function Lookup(t: Tables, rule: RowId, entity: EntityId): Option<RowId> {
    if LookupRows(t, rule, entity) == {} then None
    else
      var re :| re in LookupRows(t, rule, entity);
      Some(re)
  }

  /** The rule/entity row that is written to: the one found, or a new one. */
  function RowOf(t: Tables, found: Option<RowId>): RowId {
    if found.Some? then found.value else t.nextId
  }

  /** The id of the new evaluation, which comes after that of a new row; its events get the two ids after it. */
  function EvaluationOf(t: Tables, found: Option<RowId>): RowId {
    if found.Some? then t.nextId else t.nextId + 1
  }

  ghost function RowFor(t: Tables, o: Outcome): RowId {
    RowOf(t, Lookup(t, o.rule, o.entity))
  }

  ghost function EvaluationFor(t: Tables, o: Outcome): RowId {
    EvaluationOf(t, Lookup(t, o.rule, o.entity))
  }

  /** The tables after the writes for one evaluation whose lookup found this row, or none: the evaluation, its pointer,
      remediation event and alert event. An existing pointer is moved and keeps its profile. */
  function Written(t: Tables, o: Outcome, found: Option<RowId>): Tables {
    var re, n := RowOf(t, found), EvaluationOf(t, found);
    t.(ruleEntities :=
         if found.Some? then t.ruleEntities else t.ruleEntities[re := RuleEntity(o.rule, o.entity, o.entityType)],
       evaluations := t.evaluations[n := Evaluation(re, o.status, o.details, o.time)],
       latest := t.latest[re := Pointer(n, if re in t.latest then t.latest[re].profile else o.profile)],
       remediations := t.remediations[n + 1 := Event(n, o.remediation, o.remediationDetails)],
       alerts := t.alerts[n + 2 := Event(n, o.alert, o.alertDetails)],
       nextId := n + 3)
  }

  /** The tables after one evaluation was stored, lookup and writes in one. */
  ghost function Stored(t: Tables, o: Outcome): Tables {
    Written(t, o, Lookup(t, o.rule, o.entity))
  }

  /** Some pointer refers to one of these evaluations: the foreign key does not let them be deleted. */
  predicate Pointed(t: Tables, ids: set<RowId>) {
    exists re :: re in t.latest && t.latest[re].evaluation in ids
  }

  function WithoutEventsOf<S>(events: map<RowId, Event<S>>, ids: set<RowId>): map<RowId, Event<S>> {
    map id | id in events && events[id].evaluation !in ids :: events[id]
  }

  /** The tables without these evaluations; their events go with them. */
  function Deleted(t: Tables, ids: set<RowId>): Tables {
    t.(evaluations := t.evaluations - ids,
       remediations := WithoutEventsOf(t.remediations, ids),
       alerts := WithoutEventsOf(t.alerts, ids))
  }

  // ---------------------------------------------------------------------------------------------------------------
  // The invariant

  ghost predicate Below(ids: set<RowId>, next: RowId) {
    forall id :: id in ids ==> id < next
  }

  ghost predicate FreshIds(t: Tables) {
    && Below(t.rules.Keys, t.nextId) && Below(t.ruleEntities.Keys, t.nextId) && Below(t.evaluations.Keys, t.nextId)
    && Below(t.remediations.Keys, t.nextId) && Below(t.alerts.Keys, t.nextId)
  }

  /** Every rule/entity row has its pointer, to an existing evaluation of that row. */
  predicate PointersHit(rows: set<RowId>, latest: map<RowId, Pointer>, evaluations: map<RowId, Evaluation>) {
    && latest.Keys == rows
    && forall re :: re in latest ==>
         latest[re].evaluation in evaluations && evaluations[latest[re].evaluation].ruleEntity == re
  }

  /** No pair of rule and entity has two rows. */
  predicate OneRowPerPair(rows: map<RowId, RuleEntity>) {
    forall p, q :: p in rows && q in rows && rows[p].rule == rows[q].rule && rows[p].entity == rows[q].entity ==> p == q
  }

  /** Every evaluation has exactly one event in the table, and events belong to evaluations. */
  ghost predicate OneEventEach<S>(evaluations: set<RowId>, events: map<RowId, Event<S>>) {
    && (forall id :: id in events ==> events[id].evaluation in evaluations)
    && (forall p, q :: p in events && q in events && events[p].evaluation == events[q].evaluation ==> p == q)
    && (forall ev :: ev in evaluations ==> exists id :: id in events && events[id].evaluation == ev)
  }

  predicate RowsRefer(rows: map<RowId, RuleEntity>, rules: set<RowId>, entities: set<EntityId>) {
    forall re :: re in rows ==> rows[re].rule in rules && rows[re].entity in entities
  }

  predicate EvaluationsRefer(evaluations: map<RowId, Evaluation>, rows: set<RowId>) {
    forall ev :: ev in evaluations ==> evaluations[ev].ruleEntity in rows
  }

  /** `lower`, for the letters of ASCII. */
  function Lower(s: string): string {
    if s == "" then "" else [if 'A' <= s[0] <= 'Z' then s[0] - 'A' + 'a' else s[0]] + Lower(s[1..])
  }

  /** The same letters, each in upper or lower case. */
  predicate SameUpToCase(a: string, b: string) {
    |a| == |b| && forall i :: 0 <= i < |a| ==>
      || a[i] == b[i]
      || ('A' <= a[i] <= 'Z' && b[i] == a[i] - 'A' + 'a') || ('A' <= b[i] <= 'Z' && a[i] == b[i] - 'A' + 'a')
  }

  lemma {:induction false} LowerLength(s: string)
    ensures |Lower(s)| == |s|
  {
    if s != "" {
      LowerLength(s[1..]);
    }
  }

  lemma CaseByCase(a: string, b: string)
    requires a != "" && b != ""
    ensures SameUpToCase(a, b) <==> SameUpToCase(a[..1], b[..1]) && SameUpToCase(a[1..], b[1..])
  {
    if SameUpToCase(a[..1], b[..1]) && SameUpToCase(a[1..], b[1..]) {
      forall i | 1 <= i < |a| ensures a[i] == a[1..][i - 1] && b[i] == b[1..][i - 1] {
      }
      assert a[..1][0] == a[0] && b[..1][0] == b[0];
    }
    if SameUpToCase(a, b) {
      forall i | 0 <= i < |a[1..]| ensures a[1..][i] == a[i + 1] && b[1..][i] == b[i + 1] {
      }
    }
  }

  lemma {:induction false} LowerIgnoresCase(a: string, b: string)
    ensures Lower(a) == Lower(b) <==> SameUpToCase(a, b)
  {
    LowerLength(a);
    LowerLength(b);
    if a != "" && b != "" {
      LowerIgnoresCase(a[1..], b[1..]);
      assert Lower(a)[0] == Lower(b)[0] && Lower(a)[1..] == Lower(b)[1..] <==> Lower(a) == Lower(b);
      assert SameUpToCase(a, b) <==> SameUpToCase(a[..1], b[..1]) && SameUpToCase(a[1..], b[1..]) by {
        CaseByCase(a, b);
      }
    }
  }

  /** The unique index of `rule_instances`: profile, entity type and name in lower case. */
  predicate SameKey(r: RuleInstance, s: RuleInstance) {
    r.profile == s.profile && r.entityType == s.entityType && Lower(r.name) == Lower(s.name)
  }

  lemma KeyIs(r: RuleInstance, s: RuleInstance)
    ensures SameKey(r, s) <==> r.profile == s.profile && r.entityType == s.entityType && SameUpToCase(r.name, s.name)
  {
    LowerIgnoresCase(r.name, s.name);
  }

  predicate RuleNamesUnique(rules: map<RowId, RuleInstance>) {
    forall r, s :: r in rules && s in rules && SameKey(rules[r], rules[s]) ==> r == s
  }

  ghost predicate Inv(t: Tables) {
    && FreshIds(t)
    && PointersHit(t.ruleEntities.Keys, t.latest, t.evaluations)
    && OneRowPerPair(t.ruleEntities)
    && RowsRefer(t.ruleEntities, t.rules.Keys, t.entities.Keys)
    && EvaluationsRefer(t.evaluations, t.ruleEntities.Keys)
    && RuleNamesUnique(t.rules)
    && OneEventEach(t.evaluations.Keys, t.remediations)
    && OneEventEach(t.evaluations.Keys, t.alerts)
  }

  /** The lookup finds nothing exactly when the pair has no row; so no second row is ever inserted. */
  lemma LookupFindsThePair(t: Tables, rule: RowId, entity: EntityId)
    requires PointersHit(t.ruleEntities.Keys, t.latest, t.evaluations) && OneRowPerPair(t.ruleEntities)
    ensures Lookup(t, rule, entity).None? <==>
            !exists re :: re in t.ruleEntities && t.ruleEntities[re].rule == rule && t.ruleEntities[re].entity == entity
    ensures forall re :: re in t.ruleEntities && t.ruleEntities[re].rule == rule && t.ruleEntities[re].entity == entity
              ==> Lookup(t, rule, entity) == Some(re)
    ensures forall re :: re in LookupRows(t, rule, entity) ==> Lookup(t, rule, entity) == Some(re)
  {
    forall re | re in t.ruleEntities && t.ruleEntities[re].rule == rule && t.ruleEntities[re].entity == entity
      ensures re in LookupRows(t, rule, entity)
    {
    }
  }

  lemma EventAdded<S>(evaluations: set<RowId>, events: map<RowId, Event<S>>, ev: RowId, id: RowId, event: Event<S>)
    requires OneEventEach(evaluations, events) && ev !in evaluations && id !in events && event.evaluation == ev
    ensures OneEventEach(evaluations + {ev}, events[id := event])
  {
    var events' := events[id := event];
    forall e | e in evaluations + {ev} ensures exists x :: x in events' && events'[x].evaluation == e {
      if e == ev {
        assert events'[id].evaluation == e;
      } else {
        var x :| x in events && events[x].evaluation == e;
        assert events'[x].evaluation == e;
      }
    }
  }

  lemma EventsDeleted<S>(evaluations: set<RowId>, events: map<RowId, Event<S>>, ids: set<RowId>)
    requires OneEventEach(evaluations, events)
    ensures OneEventEach(evaluations - ids, WithoutEventsOf(events, ids))
    ensures WithoutEventsOf(events, ids).Keys <= events.Keys
  {
    var events' := WithoutEventsOf(events, ids);
    forall e | e in evaluations - ids ensures exists x :: x in events' && events'[x].evaluation == e {
      var x :| x in events && events[x].evaluation == e;
      assert x in events' && events'[x].evaluation == e;
    }
  }

  /** A new evaluation becomes the target of its row's pointer. */
  lemma PointerMoved(
    rows: set<RowId>, latest: map<RowId, Pointer>, evaluations: map<RowId, Evaluation>,
    n: RowId, e: Evaluation, profile: ProfileId)
    requires PointersHit(rows, latest, evaluations) && n !in evaluations
    ensures PointersHit(rows + {e.ruleEntity}, latest[e.ruleEntity := Pointer(n, profile)], evaluations[n := e])
  {
  }

  lemma EvaluationAdded(evaluations: map<RowId, Evaluation>, rows: set<RowId>, n: RowId, e: Evaluation)
    requires EvaluationsRefer(evaluations, rows)
    ensures EvaluationsRefer(evaluations[n := e], rows + {e.ruleEntity})
  {
  }

  lemma StoreKeepsIds(t: Tables, o: Outcome)
    requires Inv(t)
    ensures FreshIds(Stored(t, o))
  {
    hide OneEventEach, OneRowPerPair, RowsRefer, EvaluationsRefer, RuleNamesUnique;
    LookupFindsThePair(t, o.rule, o.entity);
  }

  lemma StoreKeepsRows(t: Tables, o: Outcome)
    requires Inv(t) && o.rule in t.rules && o.entity in t.entities
    ensures var u := Stored(t, o);
            && u.ruleEntities.Keys == t.ruleEntities.Keys + {RowFor(t, o)}
            && OneRowPerPair(u.ruleEntities) && RowsRefer(u.ruleEntities, t.rules.Keys, t.entities.Keys)
  {
    hide OneEventEach, PointersHit, EvaluationsRefer, RuleNamesUnique, LookupRows;
    var u, re := Stored(t, o), RowFor(t, o);
    LookupFindsThePair(t, o.rule, o.entity);
    assert Lookup(t, o.rule, o.entity).Some? ==> u.ruleEntities == t.ruleEntities;
  }

  lemma StoreKeepsInv(t: Tables, o: Outcome)
    requires Inv(t) && o.rule in t.rules && o.entity in t.entities
    ensures Inv(Stored(t, o))
  {
    hide OneEventEach, PointersHit, OneRowPerPair, RowsRefer, EvaluationsRefer, RuleNamesUnique, LookupRows;
    var u, re, n := Stored(t, o), RowFor(t, o), EvaluationFor(t, o);
    StoreKeepsRows(t, o);
    StoreKeepsIds(t, o);
    assert u.evaluations.Keys == t.evaluations.Keys + {n};
    EventAdded(t.evaluations.Keys, t.remediations, n, n + 1, u.remediations[n + 1]);
    EventAdded(t.evaluations.Keys, t.alerts, n, n + 2, u.alerts[n + 2]);
    PointerMoved(t.ruleEntities.Keys, t.latest, t.evaluations, n, u.evaluations[n], u.latest[re].profile);
    EvaluationAdded(t.evaluations, t.ruleEntities.Keys, n, u.evaluations[n]);
  }

  lemma PointersStillHit(t: Tables, ids: set<RowId>)
    requires PointersHit(t.ruleEntities.Keys, t.latest, t.evaluations) && !Pointed(t, ids)
    requires EvaluationsRefer(t.evaluations, t.ruleEntities.Keys)
    ensures PointersHit(t.ruleEntities.Keys, t.latest, t.evaluations - ids)
    ensures EvaluationsRefer(t.evaluations - ids, t.ruleEntities.Keys)
  {
  }

  lemma DeleteKeepsInv(t: Tables, ids: set<RowId>)
    requires Inv(t) && !Pointed(t, ids)
    ensures Inv(Deleted(t, ids))
  {
    hide OneEventEach, OneRowPerPair, RowsRefer, RuleNamesUnique, WithoutEventsOf, PointersHit, EvaluationsRefer;
    var u := Deleted(t, ids);
    PointersStillHit(t, ids);
    assert u.evaluations.Keys == t.evaluations.Keys - ids;
    EventsDeleted(t.evaluations.Keys, t.remediations, ids);
    EventsDeleted(t.evaluations.Keys, t.alerts, ids);
  }

  // ---------------------------------------------------------------------------------------------------------------
  // Rule instances

  /** The rule that has this key, if there is one. */
  ghost function KeyHolder(rules: map<RowId, RuleInstance>, rule: RuleInstance): (holder: Option<RowId>)
    ensures holder.Some? ==> holder.value in rules && SameKey(rules[holder.value], rule)
    ensures holder.None? ==> forall r :: r in rules ==> !SameKey(rules[r], rule)
  {
    if r :| r in rules && SameKey(rules[r], rule) then Some(r) else None
  }

  /** A row with the same key only gets the new rule type; it keeps its profile, entity type and name. */
  ghost function Upserted(t: Tables, rule: RuleInstance): Tables {
    var holder := KeyHolder(t.rules, rule);
    if holder.Some? then t.(rules := t.rules[holder.value := t.rules[holder.value].(ruleType := rule.ruleType)])
    else t.(rules := t.rules[t.nextId := rule], nextId := t.nextId + 1)
  }

  lemma RuleTypeChanged(rules: map<RowId, RuleInstance>, r: RowId, ruleType: string)
    requires RuleNamesUnique(rules) && r in rules
    ensures RuleNamesUnique(rules[r := rules[r].(ruleType := ruleType)])
  {
    hide Lower;
    var rules' := rules[r := rules[r].(ruleType := ruleType)];
    forall p, q | p in rules' && q in rules' && SameKey(rules'[p], rules'[q]) ensures p == q {
      assert SameKey(rules[p], rules[q]);
    }
  }

  lemma RuleInserted(rules: map<RowId, RuleInstance>, id: RowId, rule: RuleInstance)
    requires RuleNamesUnique(rules) && id !in rules && forall r :: r in rules ==> !SameKey(rules[r], rule)
    ensures RuleNamesUnique(rules[id := rule])
  {
    hide Lower;
    var rules' := rules[id := rule];
    forall p, q | p in rules' && q in rules' && SameKey(rules'[p], rules'[q]) ensures p == q {
      assert p == id && q != id ==> SameKey(rules[q], rule);
    }
  }

  lemma OnlyRulesChange(t: Tables, rule: RuleInstance)
    ensures Upserted(t, rule) == t.(rules := Upserted(t, rule).rules, nextId := Upserted(t, rule).nextId)
    ensures t.nextId <= Upserted(t, rule).nextId
  {
  }

  lemma UpsertKeepsKeys(t: Tables, rule: RuleInstance)
    requires FreshIds(t) && RuleNamesUnique(t.rules)
    ensures RuleNamesUnique(Upserted(t, rule).rules) && FreshIds(Upserted(t, rule))
    ensures forall r :: r in t.rules ==> r in Upserted(t, rule).rules && SameKey(Upserted(t, rule).rules[r], t.rules[r])
  {
    hide RuleNamesUnique, Lower, KeyHolder;
    var holder := KeyHolder(t.rules, rule);
    if holder.Some? {
      RuleTypeChanged(t.rules, holder.value, rule.ruleType);
    } else {
      RuleInserted(t.rules, t.nextId, rule);
    }
  }

  lemma UpsertKeepsInv(t: Tables, rule: RuleInstance)
    requires Inv(t)
    ensures Inv(Upserted(t, rule))
    ensures forall r :: r in t.rules ==> r in Upserted(t, rule).rules && SameKey(Upserted(t, rule).rules[r], t.rules[r])
  {
    hide FreshIds, OneEventEach, PointersHit, OneRowPerPair, EvaluationsRefer, RuleNamesUnique, SameKey, Upserted;
    UpsertKeepsKeys(t, rule);
    OnlyRulesChange(t, rule);
  }

  // ---------------------------------------------------------------------------------------------------------------
  // The left joins of the history listing

  /** The ids a left join puts beside an evaluation: those of its events, or NULL if it has none. */
  function LeftJoined<S>(events: map<RowId, Event<S>>, ev: RowId): set<Option<RowId>> {
    var ids := set id | id in events && events[id].evaluation == ev;
    if ids == {} then {None} else set id | id in ids :: Some(id)
  }

  /** The rows of the history listing before filtering, as the ids of what they are joined from. */
  function HistoryJoin(t: Tables): set<(RowId, Option<RowId>, Option<RowId>)> {
    set ev, rd, ad | ev in t.evaluations && rd in LeftJoined(t.remediations, ev) && ad in LeftJoined(t.alerts, ev)
      :: (ev, rd, ad)
  }

  lemma TheEvent<S>(evaluations: set<RowId>, events: map<RowId, Event<S>>, ev: RowId) returns (id: RowId)
    requires OneEventEach(evaluations, events) && ev in evaluations
    ensures id in events && events[id].evaluation == ev
    ensures LeftJoined(events, ev) == {Some(id)}
  {
    id :| id in events && events[id].evaluation == ev;
    assert (set x | x in events && events[x].evaluation == ev) == {id};
  }

  /** The left joins neither lose nor repeat an evaluation, and never come up with NULL. */
  lemma OneHistoryRowPerEvaluation(t: Tables, ev: RowId)
    requires Inv(t) && ev in t.evaluations
    ensures exists rd, ad :: (ev, Some(rd), Some(ad)) in HistoryJoin(t)
                             && forall row :: row in HistoryJoin(t) && row.0 == ev ==> row == (ev, Some(rd), Some(ad))
  {
    var rd := TheEvent(t.evaluations.Keys, t.remediations, ev);
    var ad := TheEvent(t.evaluations.Keys, t.alerts, ev);
    assert (ev, Some(rd), Some(ad)) in HistoryJoin(t);
  }
}
