/** The columns of one row of the evaluation history. */
module HistoryRow {
  import opened Wrappers
  import opened Identifiers
  import Decimal

  /** Microseconds since the epoch. */
  type Time = Decimal.Int64

  datatype Entities =
    | Repository | BuildEnvironment | Artifact | PullRequest | Release | PipelineRun | TaskRun | Build

  datatype EvalStatus = EvalSuccess | EvalFailure | EvalError | EvalSkipped | EvalPending

  datatype RemediationStatus =
    | RemSuccess | RemFailure | RemError | RemSkipped | RemNotAvailable | RemPending

  datatype AlertStatus = AlertOn | AlertOff | AlertError | AlertSkipped | AlertNotAvailable

  /** The remediation and alert status come from left joins, so either can be NULL. */
  datatype Row = Row(
    id: nat,
    evaluatedAt: Time,
    project: ProjectId,
    entityType: Entities,
    entityName: string,
    profileName: string,
    profileLabels: seq<string>,
    status: EvalStatus,
    remediation: Option<RemediationStatus>,
    alert: Option<AlertStatus>)

  function EntityText(e: Entities): string {
    match e
    case Repository => "repository"
    case BuildEnvironment => "build_environment"
    case Artifact => "artifact"
    case PullRequest => "pull_request"
    case Release => "release"
    case PipelineRun => "pipeline_run"
    case TaskRun => "task_run"
    case Build => "build"
  }

  function EvalText(s: EvalStatus): string {
    match s
    case EvalSuccess => "success"
    case EvalFailure => "failure"
    case EvalError => "error"
    case EvalSkipped => "skipped"
    case EvalPending => "pending"
  }

  function RemediationText(s: RemediationStatus): string {
    match s
    case RemSuccess => "success"
    case RemFailure => "failure"
    case RemError => "error"
    case RemSkipped => "skipped"
    case RemNotAvailable => "not_available"
    case RemPending => "pending"
  }

  function AlertText(s: AlertStatus): string {
    match s
    case AlertOn => "on"
    case AlertOff => "off"
    case AlertError => "error"
    case AlertSkipped => "skipped"
    case AlertNotAvailable => "not_available"
  }
}

/** Filter options, the filter they build, and the SQL parameters it becomes. */
module HistoryFilter {
  import opened Wrappers
  import opened Identifiers
  import opened HistoryRow

  datatype Field = EntityType | EntityName | ProfileName | Status | Remediation | Alert | Label

  const FIELDS: set<Field> := {EntityType, EntityName, ProfileName, Status, Remediation, Alert, Label}

  /** `uuid.Nil` is project 0. */
  const NIL: ProjectId := 0

  datatype FilterOpt =
    | WithProjectID(id: ProjectId)
    | WithValue(field: Field, value: string)
    | WithFrom(from: Time)
    | WithTo(to: Time)

  datatype Error = InvalidIdentifier | InclusionExclusion | InvalidProjectID | InvalidTimeRange

  datatype Lists = Lists(included: seq<string>, excluded: seq<string>)

  datatype Filter = Filter(
    project: ProjectId, lists: map<Field, Lists>, from: Option<Time>, to: Option<Time>)

  const ALLOWED_ENTITY_TYPES := ["repository", "build_environment", "artifact", "pull_request"]
  const ALLOWED_STATUSES := ["success", "failure", "error", "skipped", "pending"]
  const ALLOWED_REMEDIATIONS := ["success", "failure", "error", "skipped", "not_available", "pending"]
  const ALLOWED_ALERTS := ["on", "off", "error", "skipped", "not_available"]

  predicate Allowed(field: Field, value: string) {
    match field
    case EntityType => value in ALLOWED_ENTITY_TYPES
    case Status => value in ALLOWED_STATUSES
    case Remediation => value in ALLOWED_REMEDIATIONS
    case Alert => value in ALLOWED_ALERTS
    case _ => true
  }

  // ---------------------------------------------------------------------------------------------------------------
  // What an option list says

  predicate IsExclusion(value: string) {
    value != "" && value[0] == '!'
  }

  /** The text up to the next exclamation mark. */
  function UpToBang(s: string): string {
    if s == "" || s[0] == '!' then "" else [s[0]] + UpToBang(s[1..])
  }

  /** The text that is stored: behind the exclamation mark, a label keeps everything, other values end at the next. */
  function StoredText(field: Field, value: string): string {
    if !IsExclusion(value) then value
    else if field == Label then value[1..]
    else UpToBang(value[1..])
  }

  /** What one option adds to the lists of a field. */
  function Contribution(opt: FilterOpt, field: Field): Lists {
    if !opt.WithValue? || opt.field != field then Lists([], [])
    else if !IsExclusion(opt.value) then Lists([opt.value], [])
    else if field == Label && opt.value == "!" then Lists([], [])
    else Lists([], [StoredText(field, opt.value)])
  }

  function Included(opts: seq<FilterOpt>, field: Field): seq<string> {
    if opts == [] then []
    else Included(opts[..|opts| - 1], field) + Contribution(opts[|opts| - 1], field).included
  }

  function Excluded(opts: seq<FilterOpt>, field: Field): seq<string> {
    if opts == [] then []
    else Excluded(opts[..|opts| - 1], field) + Contribution(opts[|opts| - 1], field).excluded
  }

  function LastProject(opts: seq<FilterOpt>): ProjectId {
    if opts == [] then NIL
    else if opts[|opts| - 1].WithProjectID? then opts[|opts| - 1].id
    else LastProject(opts[..|opts| - 1])
  }

  function LastFrom(opts: seq<FilterOpt>): Option<Time> {
    if opts == [] then None
    else if opts[|opts| - 1].WithFrom? then Some(opts[|opts| - 1].from)
    else LastFrom(opts[..|opts| - 1])
  }

  function LastTo(opts: seq<FilterOpt>): Option<Time> {
    if opts == [] then None
    else if opts[|opts| - 1].WithTo? then Some(opts[|opts| - 1].to)
    else LastTo(opts[..|opts| - 1])
  }

  lemma FieldsAreAll()
    ensures forall field :: field in FIELDS
  {
    forall field: Field ensures field in FIELDS {
      assert field.EntityType? || field.EntityName? || field.ProfileName? || field.Status? || field.Remediation?
          || field.Alert? || field.Label?;
    }
  }

  function FilterOf(opts: seq<FilterOpt>): (filter: Filter)
    ensures forall field :: field in filter.lists
  {
    FieldsAreAll();
    Filter(LastProject(opts), map field | field in FIELDS :: Lists(Included(opts, field), Excluded(opts, field)),
           LastFrom(opts), LastTo(opts))
  }

  /** The option is valid by itself. */
  predicate Sound(opt: FilterOpt) {
    match opt
    case WithProjectID(id) => id != NIL
    case WithValue(field, value) =>
      value != "" && (field == Label || value != "!") && Allowed(field, StoredText(field, value))
    case _ => true
  }

  /** A field other than the labels is both included and excluded. */
  predicate Conflicts(opts: seq<FilterOpt>, field: Field) {
    field != Label && Included(opts, field) != [] && Excluded(opts, field) != []
  }

  /** The conditions that do not depend on the order. */
  predicate Consistent(opts: seq<FilterOpt>) {
    && (forall o :: o in opts ==> Sound(o))
    && (exists o :: o in opts && o.WithProjectID?)
    && (forall field :: !Conflicts(opts, field))
  }

  /** The range given by the last `from` and the last `to` is not reversed. */
  predicate RangeInOrder(opts: seq<FilterOpt>) {
    LastFrom(opts).Some? && LastTo(opts).Some? ==> LastFrom(opts).value <= LastTo(opts).value
  }

  predicate Acceptable(opts: seq<FilterOpt>) {
    Consistent(opts) && RangeInOrder(opts)
  }

  // ---------------------------------------------------------------------------------------------------------------
  // The lists in terms of the options

  /** Some option has exactly this value, which does not begin with an exclamation mark. */
  predicate IsPlain(opts: seq<FilterOpt>, field: Field, value: string) {
    (value == "" || value[0] != '!') && WithValue(field, value) in opts
  }

  /** The value is an exclamation mark and the text, up to its end or to the next exclamation mark. A label goes to its
      end and is not empty. */
  predicate Marks(field: Field, value: string, text: string) {
    && |value| >= 1 + |text| && value[0] == '!' && value[1..1 + |text|] == text
    && if field == Label then text != "" && |value| == 1 + |text|
       else '!' !in text && (|value| == 1 + |text| || value[1 + |text|] == '!')
  }

  ghost predicate IsMarked(opts: seq<FilterOpt>, field: Field, text: string) {
    exists value :: WithValue(field, value) in opts && Marks(field, value, text)
  }

  lemma {:induction false} UpToBangEnds(s: string)
    ensures var text := UpToBang(s);
            |text| <= |s| && s[..|text|] == text && '!' !in text && (|text| == |s| || s[|text|] == '!')
  {
    if s != "" && s[0] != '!' {
      UpToBangEnds(s[1..]);
    }
  }

  /** A text that goes to the next exclamation mark is the stored one. */
  lemma OneTextMarked(field: Field, value: string, text: string)
    requires IsExclusion(value) && (field == Label ==> value != "!")
    ensures Marks(field, value, text) <==> text == StoredText(field, value)
  {
    UpToBangEnds(value[1..]);
    var stored := UpToBang(value[1..]);
    if field != Label {
      assert value[1..][..|stored|] == value[1..1 + |stored|];
      assert |text| < |stored| && 1 + |text| < |value| ==> value[1 + |text|] == stored[|text|];
      assert |stored| < |text| && |text| < |value| && value[1..1 + |text|] == text ==>
          text[|stored|] == value[1 + |stored|];
    }
  }

  lemma WhatOneOptionAdds(opt: FilterOpt, field: Field)
    ensures forall v :: v in Contribution(opt, field).included <==>
              opt == WithValue(field, v) && (v == "" || v[0] != '!')
    ensures forall w :: w in Contribution(opt, field).excluded <==>
              opt.WithValue? && opt.field == field && Marks(field, opt.value, w)
  {
    if opt.WithValue? && opt.field == field && IsExclusion(opt.value) && !(field == Label && opt.value == "!") {
      forall w ensures w in Contribution(opt, field).excluded <==> Marks(field, opt.value, w) {
        OneTextMarked(field, opt.value, w);
      }
    }
  }

  /** The included values are the plain ones; the excluded values are the texts behind an exclamation mark. */
  lemma {:induction false} ListsHold(opts: seq<FilterOpt>, field: Field)
    ensures forall v :: v in Included(opts, field) <==> IsPlain(opts, field, v)
    ensures forall w :: w in Excluded(opts, field) <==> IsMarked(opts, field, w)
  {
    hide Contribution, Marks;
    if opts != [] {
      var front, last := opts[..|opts| - 1], opts[|opts| - 1];
      assert opts == front + [last];
      ListsHold(front, field);
      WhatOneOptionAdds(last, field);
      forall w ensures w in Excluded(opts, field) <==> IsMarked(opts, field, w) {
        if value :| WithValue(field, value) in opts && Marks(field, value, w) {
          assert WithValue(field, value) in front || WithValue(field, value) == last;
        }
        if value :| WithValue(field, value) in front && Marks(field, value, w) {
          assert WithValue(field, value) in opts;
        }
        if w in Contribution(last, field).excluded {
          assert WithValue(field, last.value) in opts;
        }
      }
    }
  }

  predicate IsLastProject(opts: seq<FilterOpt>, i: int) {
    0 <= i < |opts| && opts[i].WithProjectID? && forall j :: i < j < |opts| ==> !opts[j].WithProjectID?
  }

  predicate IsLastFrom(opts: seq<FilterOpt>, i: int) {
    0 <= i < |opts| && opts[i].WithFrom? && forall j :: i < j < |opts| ==> !opts[j].WithFrom?
  }

  predicate IsLastTo(opts: seq<FilterOpt>, i: int) {
    0 <= i < |opts| && opts[i].WithTo? && forall j :: i < j < |opts| ==> !opts[j].WithTo?
  }

  lemma {:induction false} LastProjectCounts(opts: seq<FilterOpt>, i: int)
    requires IsLastProject(opts, i)
    ensures LastProject(opts) == opts[i].id
  {
    if i < |opts| - 1 {
      LastProjectCounts(opts[..|opts| - 1], i);
    }
  }

  lemma {:induction false} LastFromCounts(opts: seq<FilterOpt>, i: int)
    requires IsLastFrom(opts, i)
    ensures LastFrom(opts) == Some(opts[i].from)
  {
    if i < |opts| - 1 {
      LastFromCounts(opts[..|opts| - 1], i);
    }
  }

  lemma {:induction false} LastToCounts(opts: seq<FilterOpt>, i: int)
    requires IsLastTo(opts, i)
    ensures LastTo(opts) == Some(opts[i].to)
  {
    if i < |opts| - 1 {
      LastToCounts(opts[..|opts| - 1], i);
    }
  }

  lemma {:induction false} TheLastProject(opts: seq<FilterOpt>) returns (i: int)
    requires exists j :: 0 <= j < |opts| && opts[j].WithProjectID?
    ensures IsLastProject(opts, i)
  {
    var n := |opts| - 1;
    if opts[n].WithProjectID? {
      i := n;
    } else {
      var j :| 0 <= j < |opts| && opts[j].WithProjectID?;
      assert opts[..n][j] == opts[j];
      i := TheLastProject(opts[..n]);
      assert forall j :: i < j < n ==> opts[j] == opts[..n][j];
    }
  }

  lemma {:induction false} TheLastFrom(opts: seq<FilterOpt>) returns (i: int)
    requires LastFrom(opts).Some?
    ensures IsLastFrom(opts, i)
  {
    var n := |opts| - 1;
    if opts[n].WithFrom? {
      i := n;
    } else {
      i := TheLastFrom(opts[..n]);
      assert forall j :: i < j < n ==> opts[j] == opts[..n][j];
    }
  }

  lemma {:induction false} TheLastTo(opts: seq<FilterOpt>) returns (i: int)
    requires LastTo(opts).Some?
    ensures IsLastTo(opts, i)
  {
    var n := |opts| - 1;
    if opts[n].WithTo? {
      i := n;
    } else {
      i := TheLastTo(opts[..n]);
      assert forall j :: i < j < n ==> opts[j] == opts[..n][j];
    }
  }

  /** The values that a field allows. */
  lemma AllowedTexts(value: string)
    ensures Allowed(EntityType, value) <==>
            value == "repository" || value == "build_environment" || value == "artifact" || value == "pull_request"
    ensures Allowed(Status, value) <==>
            value == "success" || value == "failure" || value == "error" || value == "skipped" || value == "pending"
    ensures Allowed(Remediation, value) <==>
            || value == "success" || value == "failure" || value == "error" || value == "skipped"
            || value == "not_available" || value == "pending"
    ensures Allowed(Alert, value) <==>
            value == "on" || value == "off" || value == "error" || value == "skipped" || value == "not_available"
    ensures Allowed(EntityName, value) && Allowed(ProfileName, value) && Allowed(Label, value)
  {
  }

  // ---------------------------------------------------------------------------------------------------------------
  // Building the filter

  lemma FieldAfter(before: seq<FilterOpt>, opt: FilterOpt, field: Field)
    ensures Included(before + [opt], field) == Included(before, field) + Contribution(opt, field).included
    ensures Excluded(before + [opt], field) == Excluded(before, field) + Contribution(opt, field).excluded
    ensures !(opt.WithValue? && field == opt.field) ==>
              && Included(before + [opt], field) == Included(before, field)
              && Excluded(before + [opt], field) == Excluded(before, field)
  {
    assert (before + [opt])[..|before|] == before;
  }

  lemma ListsAfter(before: seq<FilterOpt>, opt: FilterOpt)
    ensures FilterOf(before + [opt]).lists ==
            if !opt.WithValue? then FilterOf(before).lists
            else
              var l, c := FilterOf(before).lists[opt.field], Contribution(opt, opt.field);
              FilterOf(before).lists[opt.field := Lists(l.included + c.included, l.excluded + c.excluded)]
  {
    hide Included, Excluded, Contribution;
    forall field | field in FIELDS
      ensures FilterOf(before + [opt]).lists[field] ==
              if opt.WithValue? && field == opt.field
              then Lists(FilterOf(before).lists[field].included + Contribution(opt, field).included,
                         FilterOf(before).lists[field].excluded + Contribution(opt, field).excluded)
              else FilterOf(before).lists[field]
    {
      FieldAfter(before, opt, field);
    }
    FieldsAreAll();
  }

  class ListEvaluationFilter {
    var project: ProjectId
    var lists: map<Field, Lists>
    var from: Option<Time>
    var to: Option<Time>

    constructor ()
      ensures View() == FilterOf([])
    {
      project, from, to := NIL, None, None;
      lists := map field | field in FIELDS :: Lists([], []);
    }

    function View(): Filter
      reads this
    {
      Filter(project, lists, from, to)
    }

    method AddProjectID(id: ProjectId) returns (error: Option<Error>)
      modifies this
      ensures View() == if error.None? then old(View()).(project := id) else old(View())
      ensures error == if id == NIL then Some(InvalidIdentifier) else None
    {
      if id == NIL {
        return Some(InvalidIdentifier);
      }
      project := id;
      error := None;
    }

    /** Adds a value for inclusion or exclusion. The lists have grown also when an error is returned. */
    method Add(field: Field, value: string) returns (error: Option<Error>)
      requires field in lists
      modifies this
      ensures var c := Contribution(WithValue(field, value), field);
              View() == old(View()).(lists := old(lists)[field :=
                Lists(old(lists)[field].included + c.included, old(lists)[field].excluded + c.excluded)])
      ensures error == if !Allowed(field, StoredText(field, value)) then Some(InvalidIdentifier)
                       else if field != Label && lists[field].included != [] && lists[field].excluded != []
                       then Some(InclusionExclusion) else None
    {
      var text := StoredText(field, value);
      assert field == Label && IsExclusion(value) ==> (text == "" <==> value == "!");
      assert Lists(lists[field].included + [], lists[field].excluded + []) == lists[field];
      assert lists[field := lists[field]] == lists;
      if IsExclusion(value) {
        if field != Label || text != "" {
          lists := lists[field := lists[field].(excluded := lists[field].excluded + [text])];
        }
      } else {
        lists := lists[field := lists[field].(included := lists[field].included + [text])];
      }
      if !Allowed(field, text) {
        return Some(InvalidIdentifier);
      }
      if field != Label && |lists[field].included| > 0 && |lists[field].excluded| > 0 {
        return Some(InclusionExclusion);
      }
      error := None;
    }

    method Apply(opt: FilterOpt, ghost before: seq<FilterOpt>) returns (error: Option<Error>)
      requires View() == FilterOf(before)
      modifies this
      ensures error.None? ==> View() == FilterOf(before + [opt])
      ensures error.None? <==> Sound(opt) && (opt.WithValue? ==> !Conflicts(before + [opt], opt.field))
    {
      ghost var opts := before + [opt];
      ListsAfter(before, opt);
      error := None;
      match opt
      case WithProjectID(id) =>
        error := AddProjectID(id);
      case WithValue(field, value) =>
        if value == "" || (field != Label && value == "!") {
          return Some(InvalidIdentifier);
        }
        error := Add(field, value);
        assert error.None? ==> lists == FilterOf(opts).lists;
      case WithFrom(t) =>
        from := Some(t);
      case WithTo(t) =>
        to := Some(t);
    }
  }

  lemma ConflictsOnlyThere(opts: seq<FilterOpt>, opt: FilterOpt)
    ensures forall field :: (opt.WithValue? ==> field != opt.field) ==>
              Conflicts(opts + [opt], field) == Conflicts(opts, field)
  {
    assert (opts + [opt])[..|opts|] == opts;
  }

  lemma {:induction false} LastProjectNamed(opts: seq<FilterOpt>)
    requires forall o :: o in opts ==> Sound(o)
    ensures LastProject(opts) != NIL <==> exists o :: o in opts && o.WithProjectID?
  {
    if opts == [] {
    } else {
      LastProjectNamed(opts[..|opts| - 1]);
      assert opts == opts[..|opts| - 1] + [opts[|opts| - 1]];
      assert opts[|opts| - 1] in opts;
    }
  }

  lemma ListsGrow(opts: seq<FilterOpt>, field: Field, n: nat)
    requires n <= |opts|
    ensures |Included(opts[..n], field)| <= |Included(opts, field)|
    ensures |Excluded(opts[..n], field)| <= |Excluded(opts, field)|
  {
    if n == |opts| {
      assert opts[..n] == opts;
    } else {
      ListsGrow(opts[..|opts| - 1], field, n);
      assert opts[..|opts| - 1][..n] == opts[..n];
    }
  }

  /** An option that is rejected makes the whole list unacceptable. */
  lemma NeverRecovers(opts: seq<FilterOpt>, i: nat)
    requires i < |opts|
    requires !Sound(opts[i]) || (opts[i].WithValue? && Conflicts(opts[..i] + [opts[i]], opts[i].field))
    ensures !Acceptable(opts)
  {
    if !Sound(opts[i]) {
      assert opts[i] in opts;
    } else {
      assert opts[..i + 1] == opts[..i] + [opts[i]];
      ListsGrow(opts, opts[i].field, i + 1);
      assert Conflicts(opts, opts[i].field);
    }
  }

  /** Accepts an option list exactly when every option is sound, a project is named, no field is both included and
      excluded, and the last bounds are in order. */
  method NewListEvaluationFilter(opts: seq<FilterOpt>) returns (r: Result<ListEvaluationFilter, Error>)
    ensures r.Ok? <==> Acceptable(opts)
    ensures r.Ok? ==> fresh(r.value) && r.value.View() == FilterOf(opts)
    ensures r.Ok? ==> forall field :: field in r.value.lists
    ensures r.Ok? ==> forall field, v :: v in r.value.lists[field].included <==>
                        (v == "" || v[0] != '!') && WithValue(field, v) in opts
    ensures r.Ok? ==> forall field, w :: w in r.value.lists[field].excluded <==>
                        exists v :: WithValue(field, v) in opts && Marks(field, v, w)
  {
    var filter := new ListEvaluationFilter();
    for i := 0 to |opts|
      invariant filter.View() == FilterOf(opts[..i])
      invariant forall o :: o in opts[..i] ==> Sound(o)
      invariant forall field :: !Conflicts(opts[..i], field)
    {
      assert opts[..i + 1] == opts[..i] + [opts[i]];
      var error := filter.Apply(opts[i], opts[..i]);
      if error.Some? {
        NeverRecovers(opts, i);
        return Err(error.value);
      }
      ConflictsOnlyThere(opts[..i], opts[i]);
    }
    assert opts[..|opts|] == opts;
    LastProjectNamed(opts);
    if filter.project == NIL {
      return Err(InvalidProjectID);
    }
    if filter.from.Some? && filter.to.Some? && filter.from.value > filter.to.value {
      return Err(InvalidTimeRange);
    }
    forall field: Field {
      ListsHold(opts, field);
    }
    r := Ok(filter);
  }

  // ---------------------------------------------------------------------------------------------------------------
  // Acceptance and order

  lemma {:induction false} IncludedByMembers(opts: seq<FilterOpt>, field: Field)
    ensures Included(opts, field) != [] <==> exists o :: o in opts && Contribution(o, field).included != []
    ensures Excluded(opts, field) != [] <==> exists o :: o in opts && Contribution(o, field).excluded != []
  {
    if opts == [] {
    } else {
      var last := opts[|opts| - 1];
      IncludedByMembers(opts[..|opts| - 1], field);
      assert opts == opts[..|opts| - 1] + [last] && last in opts;
    }
  }

  lemma SameMembers(p: seq<FilterOpt>, q: seq<FilterOpt>)
    requires multiset(p) == multiset(q)
    ensures forall o :: o in p <==> o in q
  {
    forall o ensures o in p <==> o in q {
      assert o in p <==> o in multiset(p);
      assert o in q <==> o in multiset(q);
    }
  }

  lemma ConsistentByMembers(p: seq<FilterOpt>, q: seq<FilterOpt>)
    requires multiset(p) == multiset(q)
    ensures Consistent(p) == Consistent(q)
  {
    SameMembers(p, q);
    forall field ensures Conflicts(p, field) == Conflicts(q, field) {
      IncludedByMembers(p, field);
      IncludedByMembers(q, field);
    }
  }

  lemma {:induction false} LastFromIsMember(opts: seq<FilterOpt>)
    ensures LastFrom(opts).Some? <==> exists o :: o in opts && o.WithFrom?
    ensures LastFrom(opts).Some? ==> WithFrom(LastFrom(opts).value) in opts
  {
    if opts == [] {
    } else {
      LastFromIsMember(opts[..|opts| - 1]);
      assert opts == opts[..|opts| - 1] + [opts[|opts| - 1]] && opts[|opts| - 1] in opts;
    }
  }

  lemma {:induction false} LastToIsMember(opts: seq<FilterOpt>)
    ensures LastTo(opts).Some? <==> exists o :: o in opts && o.WithTo?
    ensures LastTo(opts).Some? ==> WithTo(LastTo(opts).value) in opts
  {
    if opts == [] {
    } else {
      LastToIsMember(opts[..|opts| - 1]);
      assert opts == opts[..|opts| - 1] + [opts[|opts| - 1]] && opts[|opts| - 1] in opts;
    }
  }

  /** Some pair of bounds in the list is in order. */
  predicate SomeRangeInOrder(opts: seq<FilterOpt>) {
    exists f, t :: f in opts && t in opts && f.WithFrom? && t.WithTo? && f.from <= t.to
  }

  /** Some pair of bounds in the list is reversed. */
  predicate SomeRangeReversed(opts: seq<FilterOpt>) {
    exists f, t :: f in opts && t in opts && f.WithFrom? && t.WithTo? && f.from > t.to
  }

  lemma MoveToEnd(opts: seq<FilterOpt>, o: FilterOpt) returns (rest: seq<FilterOpt>)
    requires o in opts
    ensures multiset(rest + [o]) == multiset(opts)
  {
    var k :| 0 <= k < |opts| && opts[k] == o;
    rest := opts[..k] + opts[k + 1..];
    MultisetWithout(opts, k);
  }

  lemma WithBoundsLast(opts: seq<FilterOpt>, f: FilterOpt, t: FilterOpt) returns (p: seq<FilterOpt>)
    requires f in opts && t in opts && f.WithFrom? && t.WithTo?
    ensures multiset(p) == multiset(opts)
    ensures LastFrom(p) == Some(f.from) && LastTo(p) == Some(t.to)
  {
    var rest := MoveToEnd(opts, t);
    assert f in multiset(rest + [t]);
    var rest' := MoveToEnd(rest, f);
    p := rest' + [f, t];
    assert p == (rest' + [f]) + [t];
    assert p[..|p| - 1] == rest' + [f];
  }

  /** Whether an option list is accepted depends on its order exactly when it is consistent and gives several bounds of
      which one pair is in order and another is reversed. */
  lemma AcceptanceAndOrder(opts: seq<FilterOpt>)
    ensures (exists p, q :: multiset(p) == multiset(opts) == multiset(q) && Acceptable(p) && !Acceptable(q)) <==>
            Consistent(opts) && SomeRangeInOrder(opts) && SomeRangeReversed(opts)
  {
    if Consistent(opts) && SomeRangeInOrder(opts) && SomeRangeReversed(opts) {
      var f, t :| f in opts && t in opts && f.WithFrom? && t.WithTo? && f.from <= t.to;
      var f', t' :| f' in opts && t' in opts && f'.WithFrom? && t'.WithTo? && f'.from > t'.to;
      var p := WithBoundsLast(opts, f, t);
      var q := WithBoundsLast(opts, f', t');
      ConsistentByMembers(p, opts);
      ConsistentByMembers(q, opts);
      assert Acceptable(p) && !Acceptable(q);
    }
    forall p, q | multiset(p) == multiset(opts) == multiset(q) && Acceptable(p) && !Acceptable(q)
      ensures Consistent(opts) && SomeRangeInOrder(opts) && SomeRangeReversed(opts)
    {
      ConsistentByMembers(p, opts);
      ConsistentByMembers(q, opts);
      SameMembers(p, opts);
      SameMembers(q, opts);
      LastFromIsMember(p);
      LastToIsMember(p);
      LastFromIsMember(q);
      LastToIsMember(q);
      assert WithFrom(LastFrom(q).value).from > WithTo(LastTo(q).value).to;
      assert WithFrom(LastFrom(p).value).from <= WithTo(LastTo(p).value).to;
    }
  }

  /** A project and three bounds. */
  function TwoFroms(f: Time, g: Time, t: Time): seq<FilterOpt> {
    [WithProjectID(1), WithFrom(f), WithFrom(g), WithTo(t)]
  }

  lemma {:induction false} OnlyBounds(opts: seq<FilterOpt>, field: Field)
    requires forall o :: o in opts ==> !o.WithValue?
    ensures Included(opts, field) == [] && !Conflicts(opts, field)
  {
    if opts != [] {
      OnlyBounds(opts[..|opts| - 1], field);
    }
  }

  lemma OnlyBoundsConsistent(opts: seq<FilterOpt>)
    requires forall i :: 0 <= i < |opts| ==> !opts[i].WithValue? && (opts[i].WithProjectID? ==> opts[i].id != NIL)
    requires opts != [] && opts[0].WithProjectID?
    ensures Consistent(opts)
  {
    assert opts[0] in opts;
    forall field ensures !Conflicts(opts, field) {
      OnlyBounds(opts, field);
    }
  }

  lemma AcceptedUnlessReversed(f: Time, g: Time, t: Time)
    ensures Acceptable(TwoFroms(f, g, t)) <==> g <= t
  {
    hide Consistent;
    var opts := TwoFroms(f, g, t);
    assert opts[..3] == [WithProjectID(1), WithFrom(f), WithFrom(g)];
    assert LastFrom(opts) == LastFrom(opts[..3]) == Some(g);
    OnlyBoundsConsistent(opts);
  }

  /** A list that is accepted, and a reordering of it that is not. */
  lemma OrderMatters()
    ensures multiset(TwoFroms(2, 0, 1)) == multiset(TwoFroms(0, 2, 1))
    ensures Acceptable(TwoFroms(2, 0, 1)) && !Acceptable(TwoFroms(0, 2, 1))
  {
    AcceptedUnlessReversed(2, 0, 1);
    AcceptedUnlessReversed(0, 2, 1);
  }

  /** With at most one `from` and one `to`, as the listing's handler builds its options, the order is of no account. */
  lemma OrderIsFree(p: seq<FilterOpt>, q: seq<FilterOpt>)
    requires multiset(p) == multiset(q)
    requires forall f, g :: f in p && g in p && f.WithFrom? && g.WithFrom? ==> f == g
    requires forall t, u :: t in p && u in p && t.WithTo? && u.WithTo? ==> t == u
    ensures Acceptable(p) <==> Acceptable(q)
  {
    hide Acceptable, Consistent;
    AcceptanceAndOrder(p);
    assert !(SomeRangeInOrder(p) && SomeRangeReversed(p));
  }

  // ---------------------------------------------------------------------------------------------------------------
  // SQL parameters

  function MapEntities(value: string): Option<Entities> {
    if value == "repository" then Some(Repository)
    else if value == "build_environment" then Some(BuildEnvironment)
    else if value == "artifact" then Some(Artifact)
    else if value == "pull_request" then Some(PullRequest)
    else None
  }

  function MapRemediationStatusTypes(value: string): Option<RemediationStatus> {
    if value == "success" then Some(RemSuccess)
    else if value == "failure" then Some(RemFailure)
    else if value == "error" then Some(RemError)
    else if value == "skipped" then Some(RemSkipped)
    else if value == "not_available" then Some(RemNotAvailable)
    else if value == "pending" then Some(RemPending)
    else None
  }

  function MapAlertStatusTypes(value: string): Option<AlertStatus> {
    if value == "on" then Some(AlertOn)
    else if value == "off" then Some(AlertOff)
    else if value == "error" then Some(AlertError)
    else if value == "skipped" then Some(AlertSkipped)
    else if value == "not_available" then Some(AlertNotAvailable)
    else None
  }

  function MapEvalStatusTypes(value: string): Option<EvalStatus> {
    if value == "success" then Some(EvalSuccess)
    else if value == "failure" then Some(EvalFailure)
    else if value == "error" then Some(EvalError)
    else if value == "skipped" then Some(EvalSkipped)
    else if value == "pending" then Some(EvalPending)
    else None
  }

  /** NULL stands for an empty list. */
  datatype Params<T> = Params(included: Option<seq<T>>, excluded: Option<seq<T>>)

  datatype SqlParams = SqlParams(
    project: ProjectId,
    entityTypes: Params<Entities>,
    entityNames: Params<string>,
    profileNames: Params<string>,
    labels: Params<string>,
    remediations: Params<RemediationStatus>,
    alerts: Params<AlertStatus>,
    statuses: Params<EvalStatus>,
    from: Option<Time>,
    to: Option<Time>)

  predicate AllMapped<T(!new)>(values: seq<string>, mapf: string -> Option<T>) {
    forall i :: 0 <= i < |values| ==> mapf(values[i]).Some?
  }

  function Converted<T(!new)>(values: seq<string>, mapf: string -> Option<T>): (r: seq<T>)
    requires AllMapped(values, mapf)
    ensures |r| == |values|
    ensures forall i :: 0 <= i < |values| ==> mapf(values[i]) == Some(r[i])
  {
    if values == [] then [] else [mapf(values[0]).value] + Converted(values[1..], mapf)
  }

  /** Converts a list, failing at the first value that has no counterpart. */
  method Convert<T(!new)>(values: seq<string>, mapf: string -> Option<T>) returns (r: Option<seq<T>>)
    ensures r.Some? <==> AllMapped(values, mapf)
    ensures r.Some? ==> r.value == Converted(values, mapf)
  {
    var converted: seq<T> := [];
    for i := 0 to |values|
      invariant |converted| == i
      invariant forall k :: 0 <= k < i ==> mapf(values[k]) == Some(converted[k])
    {
      var v := mapf(values[i]);
      if v.None? {
        return None;
      }
      converted := converted + [v.value];
    }
    r := Some(converted);
  }

  function NullIfEmpty<T>(values: seq<T>): Option<seq<T>> {
    if values == [] then None else Some(values)
  }

  /** The two parameters of a field with an enumerated type; None when a value does not convert. */
  function EnumParams<T(!new)>(lists: Lists, mapf: string -> Option<T>): Option<Params<T>> {
    if !AllMapped(lists.included, mapf) || !AllMapped(lists.excluded, mapf) then None
    else Some(Params(NullIfEmpty(Converted(lists.included, mapf)), NullIfEmpty(Converted(lists.excluded, mapf))))
  }

  function TextParams(lists: Lists): Params<string> {
    Params(NullIfEmpty(lists.included), NullIfEmpty(lists.excluded))
  }

  /** A wildcard among the included labels stands for all of them. */
  function IncludedLabels(lists: Lists): seq<string> {
    if "*" in lists.included then ["*"] else lists.included
  }

  predicate Total(filter: Filter) {
    FIELDS <= filter.lists.Keys
  }

  function ToSQLFilter(filter: Filter): Option<SqlParams>
    requires Total(filter)
  {
    var entityTypes := EnumParams(filter.lists[EntityType], MapEntities);
    var remediations := EnumParams(filter.lists[Remediation], MapRemediationStatusTypes);
    var alerts := EnumParams(filter.lists[Alert], MapAlertStatusTypes);
    var statuses := EnumParams(filter.lists[Status], MapEvalStatusTypes);
    if entityTypes.None? || remediations.None? || alerts.None? || statuses.None? then None
    else
      Some(SqlParams(
        filter.project, entityTypes.value,
        TextParams(filter.lists[EntityName]), TextParams(filter.lists[ProfileName]),
        TextParams(Lists(IncludedLabels(filter.lists[Label]), filter.lists[Label].excluded)),
        remediations.value, alerts.value, statuses.value, filter.from, filter.to))
  }

  // ---------------------------------------------------------------------------------------------------------------
  // The WHERE clause

  /** SQL's truth values. */
  datatype Truth = True | False | Unknown

  function Known(b: bool): Truth {
    if b then True else False
  }

  function Or(a: Truth, b: Truth): Truth {
    if a == True || b == True then True else if a == False && b == False then False else Unknown
  }

  function And(a: Truth, b: Truth): Truth {
    if a == False || b == False then False else if a == True && b == True then True else Unknown
  }

  /** `x = ANY(list)`, which is unknown for a NULL. */
  function EqualsAny<T(==)>(x: Option<T>, list: Option<seq<T>>): Truth {
    if x.None? || list.None? then Unknown else Known(x.value in list.value)
  }

  /** `x != ALL(list)`. */
  function DiffersFromAll<T(==)>(x: Option<T>, list: Option<seq<T>>): Truth {
    if x.None? || list.None? then Unknown else Known(x.value !in list.value)
  }

  function FieldClause<T(==)>(p: Params<T>, x: Option<T>): Truth {
    And(Or(Known(p.included.None?), EqualsAny(x, p.included)),
        Or(Known(p.excluded.None?), DiffersFromAll(x, p.excluded)))
  }

  predicate Overlap(a: seq<string>, b: seq<string>) {
    exists x :: x in a && x in b
  }

  function LabelClause(p: Params<string>, labels: seq<string>): Truth {
    And(
      Known(
        if p.included.None? then labels == []
        else p.included.value == ["*"] || Overlap(labels, p.included.value)),
      Known(p.excluded.None? || !Overlap(labels, p.excluded.value)))
  }

  /** The part of the WHERE clause that does not come from the cursor. A row is kept when the conjunction is true,
      which means that all its conjuncts are. */
  predicate Selects(p: SqlParams, row: Row) {
    && FieldClause(p.entityTypes, Some(row.entityType)) == True
    && FieldClause(p.entityNames, Some(row.entityName)) == True
    && FieldClause(p.profileNames, Some(row.profileName)) == True
    && FieldClause(p.remediations, row.remediation) == True
    && FieldClause(p.alerts, row.alert) == True
    && FieldClause(p.statuses, Some(row.status)) == True
    && (p.from.None? || row.evaluatedAt >= p.from.value)
    && (p.to.None? || row.evaluatedAt < p.to.value)
    && row.project == p.project
    && LabelClause(p.labels, row.profileLabels) == True
  }

  // ---------------------------------------------------------------------------------------------------------------
  // The meaning of an option list

  /** The text of a row in a field; None for NULL. */
  function TextOf(row: Row, field: Field): Option<string>
    requires field != Label
  {
    match field
    case EntityType => Some(EntityText(row.entityType))
    case EntityName => Some(row.entityName)
    case ProfileName => Some(row.profileName)
    case Status => Some(EvalText(row.status))
    case Remediation => if row.remediation.None? then None else Some(RemediationText(row.remediation.value))
    case Alert => if row.alert.None? then None else Some(AlertText(row.alert.value))
  }

  /** In the list of included values, unless that is empty, and in no list of excluded values. A NULL passes only when
      the field is not filtered at all. */
  predicate FieldMatches(included: seq<string>, excluded: seq<string>, text: Option<string>) {
    if text.None? then included == [] && excluded == []
    else (included == [] || text.value in included) && text.value !in excluded
  }

  /** Without included labels only unlabelled profiles match; the wildcard matches all. */
  predicate LabelsMatch(included: seq<string>, excluded: seq<string>, labels: seq<string>) {
    && (if included == [] then labels == [] else "*" in included || Overlap(labels, included))
    && !Overlap(labels, excluded)
  }

  predicate Matches(opts: seq<FilterOpt>, field: Field, row: Row)
    requires field != Label
  {
    FieldMatches(Included(opts, field), Excluded(opts, field), TextOf(row, field))
  }

  predicate Means(opts: seq<FilterOpt>, row: Row) {
    && row.project == LastProject(opts)
    && (forall field :: field != Label ==> Matches(opts, field, row))
    && LabelsMatch(Included(opts, Label), Excluded(opts, Label), row.profileLabels)
    && (LastFrom(opts).Some? ==> LastFrom(opts).value <= row.evaluatedAt)
    && (LastTo(opts).Some? ==> row.evaluatedAt < LastTo(opts).value)
  }

  /** `mapf` is the inverse of `text` on the allowed values. */
  ghost predicate Inverse<T(!new)>(field: Field, mapf: string -> Option<T>, text: T -> string) {
    && (forall s {:trigger mapf(s)} :: Allowed(field, s) ==> mapf(s).Some? && text(mapf(s).value) == s)
    && (forall s, x :: mapf(s) == Some(x) ==> text(x) == s)
    && (forall x, y :: text(x) == text(y) ==> x == y)
  }

  lemma EntitiesInvert()
    ensures Inverse(EntityType, MapEntities, EntityText)
  {
  }

  lemma RemediationsInvert()
    ensures Inverse(Remediation, MapRemediationStatusTypes, RemediationText)
  {
    assert forall x: RemediationStatus {:trigger RemediationText(x)} ::
        MapRemediationStatusTypes(RemediationText(x)) == Some(x);
  }

  lemma AlertsInvert()
    ensures Inverse(Alert, MapAlertStatusTypes, AlertText)
  {
    assert forall x: AlertStatus {:trigger AlertText(x)} :: MapAlertStatusTypes(AlertText(x)) == Some(x);
  }

  lemma StatusesInvert()
    ensures Inverse(Status, MapEvalStatusTypes, EvalText)
  {
    assert forall x: EvalStatus {:trigger EvalText(x)} :: MapEvalStatusTypes(EvalText(x)) == Some(x);
  }

  /** All stored values of an acceptable list are allowed. */
  lemma {:induction false} StoredAreAllowed(opts: seq<FilterOpt>, field: Field)
    requires forall o :: o in opts ==> Sound(o)
    ensures forall s :: s in Included(opts, field) + Excluded(opts, field) ==> Allowed(field, s)
  {
    if opts == [] {
    } else {
      var last := opts[|opts| - 1];
      assert opts == opts[..|opts| - 1] + [last] && last in opts;
      StoredAreAllowed(opts[..|opts| - 1], field);
    }
  }

  lemma ConvertedMembers<T(!new)>(field: Field, values: seq<string>, mapf: string -> Option<T>, text: T -> string, x: T)
    requires Inverse(field, mapf, text) && forall s :: s in values ==> Allowed(field, s)
    ensures AllMapped(values, mapf)
    ensures x in Converted(values, mapf) <==> text(x) in values
  {
    var r := Converted(values, mapf);
    if i :| 0 <= i < |values| && values[i] == text(x) {
      assert mapf(values[i]) == Some(r[i]);
      assert text(r[i]) == text(x);
      assert r[i] in r;
    }
    if i :| 0 <= i < |r| && r[i] == x {
      assert mapf(values[i]) == Some(x);
      assert values[i] in values;
    }
  }

  lemma EnumClause<T(!new)>(
    field: Field, included: seq<string>, excluded: seq<string>, mapf: string -> Option<T>, text: T -> string,
    x: Option<T>)
    requires Inverse(field, mapf, text) && forall s :: s in included + excluded ==> Allowed(field, s)
    ensures EnumParams(Lists(included, excluded), mapf).Some?
    ensures FieldClause(EnumParams(Lists(included, excluded), mapf).value, x) == True <==>
            FieldMatches(included, excluded, if x.None? then None else Some(text(x.value)))
  {
    forall s | s in included || s in excluded ensures Allowed(field, s) {
      assert s in included + excluded;
    }
    assert AllMapped(included, mapf) && AllMapped(excluded, mapf);
    if x.Some? {
      ConvertedMembers(field, included, mapf, text, x.value);
      ConvertedMembers(field, excluded, mapf, text, x.value);
    }
  }

  lemma MeansByFields(opts: seq<FilterOpt>, row: Row)
    ensures (forall field :: field != Label ==> Matches(opts, field, row)) <==>
            && Matches(opts, EntityType, row) && Matches(opts, EntityName, row) && Matches(opts, ProfileName, row)
            && Matches(opts, Status, row) && Matches(opts, Remediation, row) && Matches(opts, Alert, row)
  {
  }

  predicate Converts<T(!new)>(opts: seq<FilterOpt>, field: Field, mapf: string -> Option<T>) {
    EnumParams(Lists(Included(opts, field), Excluded(opts, field)), mapf).Some?
  }

  function FieldParams<T(!new)>(opts: seq<FilterOpt>, field: Field, mapf: string -> Option<T>): Params<T>
    requires Converts(opts, field, mapf)
  {
    EnumParams(Lists(Included(opts, field), Excluded(opts, field)), mapf).value
  }

  lemma EnumField<T(!new)>(
    opts: seq<FilterOpt>, field: Field, mapf: string -> Option<T>, text: T -> string, x: Option<T>)
    requires Inverse(field, mapf, text) && forall o :: o in opts ==> Sound(o)
    ensures Converts(opts, field, mapf)
    ensures FieldClause(FieldParams(opts, field, mapf), x) == True <==>
            FieldMatches(Included(opts, field), Excluded(opts, field), if x.None? then None else Some(text(x.value)))
  {
    StoredAreAllowed(opts, field);
    EnumClause(field, Included(opts, field), Excluded(opts, field), mapf, text, x);
  }

  lemma EntityTypeClause(opts: seq<FilterOpt>, row: Row)
    requires forall o :: o in opts ==> Sound(o)
    ensures Converts(opts, EntityType, MapEntities)
    ensures FieldClause(FieldParams(opts, EntityType, MapEntities), Some(row.entityType)) == True
            <==> Matches(opts, EntityType, row)
  {
    EntitiesInvert();
    EnumField(opts, EntityType, MapEntities, EntityText, Some(row.entityType));
  }

  lemma StatusClause(opts: seq<FilterOpt>, row: Row)
    requires forall o :: o in opts ==> Sound(o)
    ensures Converts(opts, Status, MapEvalStatusTypes)
    ensures FieldClause(FieldParams(opts, Status, MapEvalStatusTypes), Some(row.status)) == True
            <==> Matches(opts, Status, row)
  {
    StatusesInvert();
    EnumField(opts, Status, MapEvalStatusTypes, EvalText, Some(row.status));
  }

  lemma RemediationClause(opts: seq<FilterOpt>, row: Row)
    requires forall o :: o in opts ==> Sound(o)
    ensures Converts(opts, Remediation, MapRemediationStatusTypes)
    ensures FieldClause(FieldParams(opts, Remediation, MapRemediationStatusTypes), row.remediation) == True
            <==> Matches(opts, Remediation, row)
  {
    RemediationsInvert();
    EnumField(opts, Remediation, MapRemediationStatusTypes, RemediationText, row.remediation);
  }

  lemma AlertClause(opts: seq<FilterOpt>, row: Row)
    requires forall o :: o in opts ==> Sound(o)
    ensures Converts(opts, Alert, MapAlertStatusTypes)
    ensures FieldClause(FieldParams(opts, Alert, MapAlertStatusTypes), row.alert) == True <==> Matches(opts, Alert, row)
  {
    AlertsInvert();
    EnumField(opts, Alert, MapAlertStatusTypes, AlertText, row.alert);
  }

  lemma EntityNameClause(opts: seq<FilterOpt>, row: Row)
    ensures var p := TextParams(Lists(Included(opts, EntityName), Excluded(opts, EntityName)));
            FieldClause(p, Some(row.entityName)) == True <==> Matches(opts, EntityName, row)
  {
    hide Included, Excluded;
  }

  lemma ProfileNameClause(opts: seq<FilterOpt>, row: Row)
    ensures var p := TextParams(Lists(Included(opts, ProfileName), Excluded(opts, ProfileName)));
            FieldClause(p, Some(row.profileName)) == True <==> Matches(opts, ProfileName, row)
  {
    hide Included, Excluded;
  }

  lemma WildcardClause(included: seq<string>, excluded: seq<string>, labels: seq<string>)
    ensures LabelClause(TextParams(Lists(IncludedLabels(Lists(included, excluded)), excluded)), labels) == True <==>
            LabelsMatch(included, excluded, labels)
  {
  }

  /** Every enumerated field converts. */
  lemma AllConvert(opts: seq<FilterOpt>)
    requires forall o :: o in opts ==> Sound(o)
    ensures Converts(opts, EntityType, MapEntities) && Converts(opts, Status, MapEvalStatusTypes)
    ensures Converts(opts, Remediation, MapRemediationStatusTypes) && Converts(opts, Alert, MapAlertStatusTypes)
  {
    hide Sound, Inverse, Converts;
    EntitiesInvert();
    EnumField(opts, EntityType, MapEntities, EntityText, None);
    StatusesInvert();
    EnumField(opts, Status, MapEvalStatusTypes, EvalText, None);
    RemediationsInvert();
    EnumField(opts, Remediation, MapRemediationStatusTypes, RemediationText, None);
    AlertsInvert();
    EnumField(opts, Alert, MapAlertStatusTypes, AlertText, None);
  }

  lemma Translation(opts: seq<FilterOpt>)
    requires Converts(opts, EntityType, MapEntities) && Converts(opts, Status, MapEvalStatusTypes)
    requires Converts(opts, Remediation, MapRemediationStatusTypes) && Converts(opts, Alert, MapAlertStatusTypes)
    ensures ToSQLFilter(FilterOf(opts)) == Some(SqlParams(
              LastProject(opts), FieldParams(opts, EntityType, MapEntities),
              TextParams(Lists(Included(opts, EntityName), Excluded(opts, EntityName))),
              TextParams(Lists(Included(opts, ProfileName), Excluded(opts, ProfileName))),
              TextParams(Lists(IncludedLabels(Lists(Included(opts, Label), Excluded(opts, Label))),
                               Excluded(opts, Label))),
              FieldParams(opts, Remediation, MapRemediationStatusTypes),
              FieldParams(opts, Alert, MapAlertStatusTypes),
              FieldParams(opts, Status, MapEvalStatusTypes),
              LastFrom(opts), LastTo(opts)))
  {
    hide Included, Excluded, EnumParams, TextParams, IncludedLabels, MapEntities, MapEvalStatusTypes;
    hide MapRemediationStatusTypes, MapAlertStatusTypes, LastProject, LastFrom, LastTo;
  }

  /** For every accepted option list the translation succeeds, and the SQL predicate keeps exactly the rows that the
      list means. */
  lemma TranslationKeepsMeaning(opts: seq<FilterOpt>, row: Row)
    requires Acceptable(opts)
    ensures ToSQLFilter(FilterOf(opts)).Some?
    ensures Selects(ToSQLFilter(FilterOf(opts)).value, row) <==> Means(opts, row)
  {
    hide ToSQLFilter, FilterOf, Converts, FieldParams, FieldClause, TextParams, LabelClause, Matches, LabelsMatch;
    hide Sound, Conflicts, Included, Excluded, IncludedLabels;
    AllConvert(opts);
    Translation(opts);
    EntityTypeClause(opts, row);
    StatusClause(opts, row);
    RemediationClause(opts, row);
    AlertClause(opts, row);
    EntityNameClause(opts, row);
    ProfileNameClause(opts, row);
    WildcardClause(Included(opts, Label), Excluded(opts, Label), row.profileLabels);
    MeansByFields(opts, row);
  }
}
