/** The rows that the history listing makes of the tables, and a walk through its pages while evaluations are stored and
    purged. */
module HistoryWalk {
  import opened Wrappers
  import opened Identifiers
  import opened HistoryRow
  import opened HistoryTables
  import opened StatusView
  import HistoryFilter
  import FilterMeaning
  import HistoryPaging
  import Cursor

  /** What the join adds from the profiles and the projects, which do not change here. */
  datatype Columns = Columns(
    profileName: ProfileId -> string, profileLabels: ProfileId -> seq<string>, project: EntityId -> ProjectId)

  predicate InnerJoins(t: Tables, ev: RowId) {
    && ev in t.evaluations && t.evaluations[ev].ruleEntity in t.ruleEntities
    && var p := t.ruleEntities[t.evaluations[ev].ruleEntity];
       p.rule in t.rules && p.entity in t.entities
  }

  function StatusOf<S>(events: map<RowId, Event<S>>, id: Option<RowId>): Option<S> {
    if id.Some? && id.value in events then Some(events[id.value].status) else None
  }

  function ListedRow(t: Tables, c: Columns, ev: RowId, rd: Option<RowId>, ad: Option<RowId>): Row
    requires InnerJoins(t, ev)
  {
    var e := t.evaluations[ev];
    var p := t.ruleEntities[e.ruleEntity];
    var profile := t.rules[p.rule].profile;
    Row(ev, e.time, c.project(p.entity), p.entityType, t.entities[p.entity].name, c.profileName(profile),
        c.profileLabels(profile), e.status, StatusOf(t.remediations, rd), StatusOf(t.alerts, ad))
  }

  function HistoryRows(t: Tables, c: Columns): set<Row> {
    set joined | joined in HistoryJoin(t) && InnerJoins(t, joined.0) :: ListedRow(t, c, joined.0, joined.1, joined.2)
  }

  /** Every evaluation is one row of the listing, with the status of its own events. */
  lemma OneRowEach(t: Tables, c: Columns, ev: RowId) returns (rd: RowId, ad: RowId)
    requires Inv(t) && ev in t.evaluations
    ensures rd in t.remediations && t.remediations[rd].evaluation == ev
    ensures ad in t.alerts && t.alerts[ad].evaluation == ev
    ensures InnerJoins(t, ev) && ListedRow(t, c, ev, Some(rd), Some(ad)) in HistoryRows(t, c)
    ensures forall row :: row in HistoryRows(t, c) && row.id == ev ==> row == ListedRow(t, c, ev, Some(rd), Some(ad))
    ensures forall row :: row in HistoryRows(t, c) && row.id == ev ==>
              && row.evaluatedAt == t.evaluations[ev].time && row.status == t.evaluations[ev].status
              && row.remediation == Some(t.remediations[rd].status) && row.alert == Some(t.alerts[ad].status)
              && var p := t.ruleEntities[t.evaluations[ev].ruleEntity];
                 && row.entityType == p.entityType && row.entityName == t.entities[p.entity].name
                 && row.project == c.project(p.entity)
                 && row.profileName == c.profileName(t.rules[p.rule].profile)
                 && row.profileLabels == c.profileLabels(t.rules[p.rule].profile)
  {
    hide FreshIds, OneRowPerPair, RuleNamesUnique, LeftJoined;
    rd := TheEvent(t.evaluations.Keys, t.remediations, ev);
    ad := TheEvent(t.evaluations.Keys, t.alerts, ev);
    assert InnerJoins(t, ev);
    assert (ev, Some(rd), Some(ad)) in HistoryJoin(t);
  }

  lemma RowsAreOfEvaluations(t: Tables, c: Columns)
    ensures forall row :: row in HistoryRows(t, c) ==>
              row.id in t.evaluations && row.evaluatedAt == t.evaluations[row.id].time
  {
  }

  // ---------------------------------------------------------------------------------------------------------------
  // What a step changes in the listing

  /** The rows of all evaluations that are still there stay as they are. */
  ghost predicate RowsLast(t: Tables, u: Tables, c: Columns) {
    forall row :: row in HistoryRows(t, c) && row.id in u.evaluations ==> row in HistoryRows(u, c)
  }

  /** The columns that a row is made of are the same in both tables. */
  ghost predicate SameSource(t: Tables, u: Tables, ev: RowId) {
    && InnerJoins(t, ev) && InnerJoins(u, ev)
    && t.evaluations[ev] == u.evaluations[ev] && t.entities == u.entities
    && t.ruleEntities[t.evaluations[ev].ruleEntity] == u.ruleEntities[t.evaluations[ev].ruleEntity]
    && t.rules[t.ruleEntities[t.evaluations[ev].ruleEntity].rule].profile
       == u.rules[t.ruleEntities[t.evaluations[ev].ruleEntity].rule].profile
    && (forall id :: id in t.remediations && t.remediations[id].evaluation == ev ==>
          id in u.remediations && u.remediations[id] == t.remediations[id])
    && (forall id :: id in t.alerts && t.alerts[id].evaluation == ev ==>
          id in u.alerts && u.alerts[id] == t.alerts[id])
  }

  lemma SameEvent(t: Tables, rd: RowId, rd': RowId, ad: RowId, ad': RowId)
    requires Inv(t) && rd in t.remediations && rd' in t.remediations && ad in t.alerts && ad' in t.alerts
    requires t.remediations[rd].evaluation == t.remediations[rd'].evaluation
    requires t.alerts[ad].evaluation == t.alerts[ad'].evaluation
    ensures rd == rd' && ad == ad'
  {
    hide FreshIds, OneRowPerPair, RuleNamesUnique, PointersHit, RowsRefer, EvaluationsRefer;
  }

  lemma SameSourceSameRow(t: Tables, u: Tables, c: Columns, row: Row)
    requires Inv(t) && Inv(u) && row in HistoryRows(t, c) && SameSource(t, u, row.id)
    ensures row in HistoryRows(u, c)
  {
    hide Inv, HistoryRows;
    var rd, ad := OneRowEach(t, c, row.id);
    var rd', ad' := OneRowEach(u, c, row.id);
    SameEvent(u, rd, rd', ad, ad');
  }

  lemma StoreSameSource(t: Tables, o: Outcome, ev: RowId)
    requires Inv(t) && ev in t.evaluations
    ensures SameSource(t, Stored(t, o), ev)
  {
    hide LookupRows, OneRowPerPair, RuleNamesUnique, OneEventEach;
    RowFound(t, o);
  }

  lemma UpsertSameSource(t: Tables, rule: RuleInstance, ev: RowId)
    requires Inv(t) && ev in t.evaluations
    ensures SameSource(t, Upserted(t, rule), ev)
  {
    hide Upserted, Lower, FreshIds, OneRowPerPair, RuleNamesUnique, OneEventEach, PointersHit;
    OnlyRulesChange(t, rule);
    UpsertKeepsInv(t, rule);
  }

  lemma DeleteSameSource(t: Tables, ids: set<RowId>, ev: RowId)
    requires Inv(t) && ev in t.evaluations && ev !in ids
    ensures SameSource(t, Deleted(t, ids), ev)
  {
    hide FreshIds, OneRowPerPair, RuleNamesUnique, OneEventEach;
  }

  lemma StepKeepsRows(s: System, op: Op, ops: seq<Op>, c: Columns)
    requires SystemInv(s, ops) && Enabled(s, op)
    ensures RowsLast(s.t, Next(s, op).t, c)
  {
    hide Inv, Refines, Superseded, HistoryRows, SameSource, Stored, Upserted;
    var t, u := s.t, Next(s, op).t;
    SystemInvStep(s, op, ops);
    RowsAreOfEvaluations(t, c);
    forall row | row in HistoryRows(t, c) && row.id in u.evaluations ensures row in HistoryRows(u, c) {
      match op {
        case Store(o) =>
          StoreSameSource(t, o, row.id);
          SameSourceSameRow(t, u, c, row);
        case Upsert(rule) =>
          UpsertSameSource(t, rule, row.id);
          SameSourceSameRow(t, u, c, row);
        case List(_, _, _) =>
        case Purge(batch) =>
          if u != t {
            DeleteSameSource(t, RowSet(s.listed[..batch]), row.id);
            SameSourceSameRow(t, u, c, row);
          }
      }
    }
  }

  /** No id is used twice: an evaluation that is gone does not come back. */
  lemma NoneComesBack(s: System, op: Op)
    requires Enabled(s, op)
    ensures s.t.nextId <= Next(s, op).t.nextId
    ensures forall ev :: ev in Next(s, op).t.evaluations && ev < s.t.nextId ==> ev in s.t.evaluations
  {
    hide LookupRows, Lookup, Upserted, Inv, Pointed;
    if op.Upsert? {
      OnlyRulesChange(s.t, op.rule);
    }
  }

  // ---------------------------------------------------------------------------------------------------------------
  // Walks

  lemma IdsBelow(t: Tables)
    requires Inv(t)
    ensures forall id :: id in t.evaluations ==> id < t.nextId
  {
  }

  lemma {:induction false} GoneForGood(systems: seq<System>, ops: seq<Op>, i: nat, j: nat, ev: RowId)
    requires IsRun(systems, ops) && i <= j < |systems| && ev < systems[i].t.nextId && ev in systems[j].t.evaluations
    ensures ev in systems[i].t.evaluations && ev < systems[j].t.nextId
    decreases j - i
  {
    hide Inv, Refines, Next, Enabled;
    if i < j {
      assert IsStep(systems[i], ops[i], systems[i + 1]);
      NoneComesBack(systems[i], ops[i]);
      GoneForGood(systems, ops, i + 1, j, ev);
    } else {
      SystemInvHolds(systems, ops, i);
      IdsBelow(systems[i].t);
    }
  }

  lemma {:induction false} IdGivenOut(systems: seq<System>, ops: seq<Op>, i: nat, j: nat, id: RowId)
    requires IsRun(systems, ops) && i <= j < |systems| && id in systems[i].t.evaluations
    ensures id < systems[j].t.nextId
  {
    hide Inv, Refines, Next, Enabled;
    if i < j {
      IdGivenOut(systems, ops, i, j - 1, id);
      assert IsStep(systems[j - 1], ops[j - 1], systems[j]);
      NoneComesBack(systems[j - 1], ops[j - 1]);
    } else {
      SystemInvHolds(systems, ops, i);
      IdsBelow(systems[i].t);
    }
  }

  /** The row of an evaluation is the same at two moments at which the evaluation exists. */
  lemma {:induction false} RowLasts(systems: seq<System>, ops: seq<Op>, c: Columns, i: nat, j: nat, row: Row)
    requires IsRun(systems, ops) && i <= j < |systems|
    requires row in HistoryRows(systems[i].t, c) && row.id in systems[j].t.evaluations
    ensures row in HistoryRows(systems[j].t, c)
  {
    hide HistoryRows, Inv, Refines, Superseded, Enabled, Next;
    if i < j {
      RowsAreOfEvaluations(systems[i].t, c);
      IdGivenOut(systems, ops, i, j - 1, row.id);
      GoneForGood(systems, ops, j - 1, j, row.id);
      RowLasts(systems, ops, c, i, j - 1, row);
      SystemInvHolds(systems, ops, j - 1);
      assert IsStep(systems[j - 1], ops[j - 1], systems[j]);
      StepKeepsRows(systems[j - 1], ops[j - 1], ops[..j - 1], c);
    }
  }

  /** What the filter keeps at the moments at which the pages are fetched. */
  ghost function KeptAt(systems: seq<System>, c: Columns, filter: HistoryFilter.SqlParams, at: seq<nat>): seq<set<Row>>
    requires forall k :: 0 <= k < |at| ==> at[k] < |systems|
  {
    seq(|at|, k requires 0 <= k < |at| => HistoryPaging.Kept(HistoryRows(systems[at[k]].t, c), filter))
  }

  ghost predicate Moments(systems: seq<System>, at: seq<nat>) {
    && at != []
    && (forall k :: 0 <= k < |at| ==> at[k] < |systems|)
    && (forall k, m :: 0 <= k < m < |at| ==> at[k] <= at[m])
  }

  lemma WalkLength(kept: seq<set<Row>>, size: nat, pages: seq<HistoryPaging.Page>)
    requires HistoryPaging.IsCompleteWalk(kept, size, pages)
    ensures |kept| == |pages|
  {
  }

  /** Between any two pages evaluations are stored, rules changed and records purged. An evaluation that exists at the
      first page and still at the last one, and that the filter keeps, is returned exactly once, provided no other that
      the filter keeps has the same time. */
  lemma LastingEvaluationReturnedOnce(
    systems: seq<System>, ops: seq<Op>, c: Columns, filter: HistoryFilter.SqlParams, at: seq<nat>, size: nat,
    pages: seq<HistoryPaging.Page>, row: Row)
    requires IsRun(systems, ops) && Moments(systems, at) && size >= 1
    requires HistoryPaging.IsCompleteWalk(KeptAt(systems, c, filter, at), size, pages)
    requires forall k :: 0 <= k < |at| ==> HistoryPaging.HasOwnTime(KeptAt(systems, c, filter, at)[k], row)
    requires row in HistoryRows(systems[at[0]].t, c) && row.id in systems[at[|at| - 1]].t.evaluations
    requires HistoryFilter.Selects(filter, row) && row.evaluatedAt < 999_999_999_999_999_999
    ensures exists k, i :: HistoryPaging.ReturnedAt(pages, row, k, i)
                           && forall m, j :: HistoryPaging.ReturnedAt(pages, row, m, j) ==> m == k && j == i
  {
    hide HistoryRows, IsRun, HistoryPaging.HasOwnTime, HistoryPaging.IsCompleteWalk, HistoryFilter.Selects;
    var kept := KeptAt(systems, c, filter, at);
    RowsAreOfEvaluations(systems[at[0]].t, c);
    forall k | 0 <= k < |at| ensures row in kept[k] {
      IdGivenOut(systems, ops, at[0], at[k], row.id);
      GoneForGood(systems, ops, at[k], at[|at| - 1], row.id);
      RowLasts(systems, ops, c, at[0], at[k], row);
      SystemInvHolds(systems, ops, at[k]);
    }
    assert |pages| == |at| by { WalkLength(kept, size, pages); }
    HistoryPaging.OwnTimeLosesNothing(kept, size, pages, row);
  }

  /** Every row that a walk returns is a row of the listing at that moment, and one that the options ask for. */
  lemma ReturnedRowsAreAskedFor(
    systems: seq<System>, c: Columns, opts: seq<HistoryFilter.FilterOpt>, at: seq<nat>, size: nat,
    pages: seq<HistoryPaging.Page>, k: nat, row: Row)
    requires HistoryFilter.Acceptable(opts) && HistoryFilter.ToSQLFilter(HistoryFilter.FilterOf(opts)).Some?
    requires Moments(systems, at) && k < |at|
    requires HistoryPaging.IsWalk(
               KeptAt(systems, c, HistoryFilter.ToSQLFilter(HistoryFilter.FilterOf(opts)).value, at), size, pages)
    requires k < |pages| && row in pages[k].data
    ensures row in HistoryRows(systems[at[k]].t, c)
    ensures (forall i :: HistoryFilter.IsLastProject(opts, i) ==> row.project == opts[i].id)
    ensures FilterMeaning.Passes(opts, HistoryFilter.EntityType, Some(EntityText(row.entityType)))
    ensures FilterMeaning.Passes(opts, HistoryFilter.EntityName, Some(row.entityName))
    ensures FilterMeaning.Passes(opts, HistoryFilter.ProfileName, Some(row.profileName))
    ensures FilterMeaning.Passes(opts, HistoryFilter.Status, Some(EvalText(row.status)))
    ensures FilterMeaning.Passes(opts, HistoryFilter.Remediation,
              if row.remediation.None? then None else Some(RemediationText(row.remediation.value)))
    ensures FilterMeaning.Passes(opts, HistoryFilter.Alert,
              if row.alert.None? then None else Some(AlertText(row.alert.value)))
    ensures FilterMeaning.LabelsPass(opts, row.profileLabels)
    ensures forall i :: HistoryFilter.IsLastFrom(opts, i) ==> opts[i].from <= row.evaluatedAt
    ensures forall i :: HistoryFilter.IsLastTo(opts, i) ==> row.evaluatedAt < opts[i].to
  {
    hide HistoryRows, HistoryFilter.Acceptable, HistoryFilter.ToSQLFilter, HistoryFilter.FilterOf;
    hide HistoryFilter.Selects;
    hide FilterMeaning.Passes, FilterMeaning.LabelsPass;
    var filter := HistoryFilter.ToSQLFilter(HistoryFilter.FilterOf(opts)).value;
    assert HistoryPaging.FetchedAt(KeptAt(systems, c, filter, at), size, pages, k);
    FilterMeaning.KeptRowsPass(opts, row);
  }
}
