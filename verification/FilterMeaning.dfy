/** What a list of filter options accepts and what it keeps, in terms of the options as they were given. */
module FilterMeaning {
  import opened Wrappers
  import opened HistoryRow
  import opened HistoryFilter

  /** Some option for this field gives a value to include. */
  predicate Includes(opts: seq<FilterOpt>, field: Field) {
    exists o :: o in opts && o.WithValue? && o.field == field && (o.value == "" || o.value[0] != '!')
  }

  /** Some option for this field gives a text to exclude. */
  ghost predicate Excludes(opts: seq<FilterOpt>, field: Field) {
    exists o, text :: o in opts && o.WithValue? && o.field == field && Marks(field, o.value, text)
  }

  lemma IncludedHasMembers(opts: seq<FilterOpt>, field: Field)
    ensures Included(opts, field) != [] <==> Includes(opts, field)
  {
    hide Marks;
    ListsHold(opts, field);
    if Included(opts, field) != [] {
      assert IsPlain(opts, field, Included(opts, field)[0]);
    }
    if o :| o in opts && o.WithValue? && o.field == field && (o.value == "" || o.value[0] != '!') {
      assert IsPlain(opts, field, o.value);
    }
  }

  lemma ExcludedHasMembers(opts: seq<FilterOpt>, field: Field)
    ensures Excluded(opts, field) != [] <==> Excludes(opts, field)
  {
    hide Marks;
    ListsHold(opts, field);
    if Excluded(opts, field) != [] {
      assert IsMarked(opts, field, Excluded(opts, field)[0]);
    }
    if o, text :| o in opts && o.WithValue? && o.field == field && Marks(field, o.value, text) {
      assert o == WithValue(field, o.value);
      assert IsMarked(opts, field, text);
    }
  }

  lemma ListsHaveMembers(opts: seq<FilterOpt>, field: Field)
    ensures Included(opts, field) != [] <==> Includes(opts, field)
    ensures Excluded(opts, field) != [] <==> Excludes(opts, field)
  {
    IncludedHasMembers(opts, field);
    ExcludedHasMembers(opts, field);
  }

  // ---------------------------------------------------------------------------------------------------------------
  // Acceptance

  /** The option can stand in a list: a project is not nil; a value is there, and what is included or excluded is
      allowed for its field. */
  ghost predicate CanStand(o: FilterOpt) {
    match o
    case WithProjectID(id) => id != 0
    case WithValue(field, value) =>
      && value != "" && (value == "!" ==> field == Label)
      && (value[0] != '!' ==> Allowed(field, value))
      && (value[0] == '!' ==> forall text :: Marks(field, value, text) ==> Allowed(field, text))
    case WithFrom(_) => true
    case WithTo(_) => true
  }

  lemma SoundCanStand(o: FilterOpt)
    ensures Sound(o) <==> CanStand(o)
  {
    if o.WithValue? && IsExclusion(o.value) && (o.field == Label ==> o.value != "!") {
      forall text ensures Marks(o.field, o.value, text) <==> text == StoredText(o.field, o.value) {
        OneTextMarked(o.field, o.value, text);
      }
    }
  }

  lemma RangeByLastOnes(opts: seq<FilterOpt>)
    ensures RangeInOrder(opts) <==>
            forall i, j :: IsLastFrom(opts, i) && IsLastTo(opts, j) ==> opts[i].from <= opts[j].to
  {
    forall i, j | IsLastFrom(opts, i) && IsLastTo(opts, j)
      ensures LastFrom(opts) == Some(opts[i].from) && LastTo(opts) == Some(opts[j].to)
    {
      LastFromCounts(opts, i);
      LastToCounts(opts, j);
    }
    if LastFrom(opts).Some? && LastTo(opts).Some? {
      var i := TheLastFrom(opts);
      var j := TheLastTo(opts);
    }
  }

  /** A list is accepted exactly if each option can stand in it, one names a project, no field but the labels has values
      to include and to exclude, and the last `from` is not after the last `to`. */
  lemma AcceptedExactly(opts: seq<FilterOpt>)
    ensures Acceptable(opts) <==>
            && (forall o :: o in opts ==> CanStand(o))
            && (exists o :: o in opts && o.WithProjectID?)
            && (forall field :: field != Label ==> !(Includes(opts, field) && Excludes(opts, field)))
            && (forall i, j :: IsLastFrom(opts, i) && IsLastTo(opts, j) ==> opts[i].from <= opts[j].to)
  {
    hide Sound, CanStand, Includes, Excludes, RangeInOrder, IsLastFrom, IsLastTo, Included, Excluded;
    forall o ensures Sound(o) <==> CanStand(o) {
      SoundCanStand(o);
    }
    forall field ensures Conflicts(opts, field) <==> field != Label && Includes(opts, field) && Excludes(opts, field) {
      ListsHaveMembers(opts, field);
    }
    RangeByLastOnes(opts);
  }

  // ---------------------------------------------------------------------------------------------------------------
  // Meaning

  /** The text is one of the values to include, if there are any, and none of those to exclude. A NULL passes only where
      there are neither. */
  ghost predicate Passes(opts: seq<FilterOpt>, field: Field, text: Option<string>) {
    match text
    case None => !Includes(opts, field) && !Excludes(opts, field)
    case Some(t) =>
      && (Includes(opts, field) ==> (t == "" || t[0] != '!') && WithValue(field, t) in opts)
      && !exists value :: WithValue(field, value) in opts && Marks(field, value, t)
  }

  /** Without a label to include the profile has none; otherwise one of them is the wildcard or a label of the profile.
      None of its labels is to be excluded. */
  ghost predicate LabelsPass(opts: seq<FilterOpt>, labels: seq<string>) {
    && (if Includes(opts, Label)
        then WithValue(Label, "*") in opts
             || exists l :: l in labels && (l == "" || l[0] != '!') && WithValue(Label, l) in opts
        else labels == [])
    && forall l :: l in labels ==> !exists value :: WithValue(Label, value) in opts && Marks(Label, value, l)
  }

  lemma PassesByLists(opts: seq<FilterOpt>, field: Field, text: Option<string>)
    ensures Passes(opts, field, text) <==> FieldMatches(Included(opts, field), Excluded(opts, field), text)
  {
    hide Included, Excluded, Marks, Includes, Excludes;
    ListsHold(opts, field);
    ListsHaveMembers(opts, field);
    if text.Some? {
      assert IsPlain(opts, field, text.value) <==> text.value in Included(opts, field);
      assert IsMarked(opts, field, text.value) <==> text.value in Excluded(opts, field);
    }
  }

  lemma LabelsPassByLists(opts: seq<FilterOpt>, labels: seq<string>)
    ensures LabelsPass(opts, labels) <==> LabelsMatch(Included(opts, Label), Excluded(opts, Label), labels)
  {
    hide Included, Excluded, Marks, Includes, Excludes;
    ListsHold(opts, Label);
    ListsHaveMembers(opts, Label);
    forall l ensures l in Included(opts, Label) <==> (l == "" || l[0] != '!') && WithValue(Label, l) in opts {
      assert IsPlain(opts, Label, l) <==> l in Included(opts, Label);
    }
    forall l
      ensures l in Excluded(opts, Label) <==> exists value :: WithValue(Label, value) in opts && Marks(Label, value, l)
    {
      assert IsMarked(opts, Label, l) <==> l in Excluded(opts, Label);
    }
  }

  lemma BoundsByLastOnes(opts: seq<FilterOpt>, row: Row)
    requires exists o :: o in opts && o.WithProjectID?
    ensures row.project == LastProject(opts) <==> forall i :: IsLastProject(opts, i) ==> row.project == opts[i].id
    ensures (LastFrom(opts).Some? ==> LastFrom(opts).value <= row.evaluatedAt) <==>
            forall i :: IsLastFrom(opts, i) ==> opts[i].from <= row.evaluatedAt
    ensures (LastTo(opts).Some? ==> row.evaluatedAt < LastTo(opts).value) <==>
            forall i :: IsLastTo(opts, i) ==> row.evaluatedAt < opts[i].to
  {
    var o :| o in opts && o.WithProjectID?;
    var k :| 0 <= k < |opts| && opts[k] == o;
    var p := TheLastProject(opts);
    LastProjectCounts(opts, p);
    forall i | IsLastFrom(opts, i) ensures LastFrom(opts) == Some(opts[i].from) {
      LastFromCounts(opts, i);
    }
    forall i | IsLastTo(opts, i) ensures LastTo(opts) == Some(opts[i].to) {
      LastToCounts(opts, i);
    }
    if LastFrom(opts).Some? {
      var i := TheLastFrom(opts);
    }
    if LastTo(opts).Some? {
      var i := TheLastTo(opts);
    }
  }

  /** For every accepted list the translation succeeds, and the rows that its SQL keeps are those of the last project
      whose columns pass the options of their fields and whose time lies between the last bounds, the upper one
      excluded. */
  lemma KeptRowsPass(opts: seq<FilterOpt>, row: Row)
    requires Acceptable(opts)
    ensures ToSQLFilter(FilterOf(opts)).Some?
    ensures Selects(ToSQLFilter(FilterOf(opts)).value, row) <==>
            && (forall i :: IsLastProject(opts, i) ==> row.project == opts[i].id)
            && Passes(opts, EntityType, Some(EntityText(row.entityType)))
            && Passes(opts, EntityName, Some(row.entityName))
            && Passes(opts, ProfileName, Some(row.profileName))
            && Passes(opts, Status, Some(EvalText(row.status)))
            && Passes(opts, Remediation,
                      if row.remediation.None? then None else Some(RemediationText(row.remediation.value)))
            && Passes(opts, Alert, if row.alert.None? then None else Some(AlertText(row.alert.value)))
            && LabelsPass(opts, row.profileLabels)
            && (forall i :: IsLastFrom(opts, i) ==> opts[i].from <= row.evaluatedAt)
            && (forall i :: IsLastTo(opts, i) ==> row.evaluatedAt < opts[i].to)
  {
    hide Passes, LabelsPass, LabelsMatch, FieldMatches, Included, Excluded, Selects, ToSQLFilter, FilterOf;
    hide EntityText, EvalText, RemediationText, AlertText, Sound;
    TranslationKeepsMeaning(opts, row);
    MeansByFields(opts, row);
    PassesByLists(opts, EntityType, Some(EntityText(row.entityType)));
    PassesByLists(opts, EntityName, Some(row.entityName));
    PassesByLists(opts, ProfileName, Some(row.profileName));
    PassesByLists(opts, Status, Some(EvalText(row.status)));
    PassesByLists(opts, Remediation, TextOf(row, Remediation));
    PassesByLists(opts, Alert, TextOf(row, Alert));
    LabelsPassByLists(opts, row.profileLabels);
    BoundsByLastOnes(opts, row);
  }

  // ---------------------------------------------------------------------------------------------------------------
  // Texts and an example

  /** The texts of the enumerated columns. */
  lemma TextsOfColumns()
    ensures EntityText(Repository) == "repository" && EntityText(BuildEnvironment) == "build_environment"
    ensures EntityText(Artifact) == "artifact" && EntityText(PullRequest) == "pull_request"
    ensures EvalText(EvalSuccess) == "success" && EvalText(EvalFailure) == "failure" && EvalText(EvalError) == "error"
    ensures EvalText(EvalSkipped) == "skipped" && EvalText(EvalPending) == "pending"
    ensures RemediationText(RemSuccess) == "success" && RemediationText(RemFailure) == "failure"
    ensures RemediationText(RemError) == "error" && RemediationText(RemSkipped) == "skipped"
    ensures RemediationText(RemNotAvailable) == "not_available" && RemediationText(RemPending) == "pending"
    ensures AlertText(AlertOn) == "on" && AlertText(AlertOff) == "off" && AlertText(AlertError) == "error"
    ensures AlertText(AlertSkipped) == "skipped" && AlertText(AlertNotAvailable) == "not_available"
  {
  }

  predicate KeepsRow(opts: seq<FilterOpt>, row: Row) {
    ToSQLFilter(FilterOf(opts)).Some? && Selects(ToSQLFilter(FilterOf(opts)).value, row)
  }

  lemma OneNameAccepted(value: string)
    requires value != "" && value != "!"
    ensures Acceptable([WithProjectID(1), WithValue(EntityName, value)])
  {
    var opts := [WithProjectID(1), WithValue(EntityName, value)];
    AcceptedExactly(opts);
    assert opts[0] in opts;
    assert Allowed(EntityName, value);
  }

  /** A name that is given is asked for; a name behind an exclamation mark is hidden. */
  lemma GivenNameIsAskedFor(name: string, row: Row)
    requires name != "" && '!' !in name
    ensures var opts := [WithProjectID(1), WithValue(EntityName, name)];
            Acceptable(opts) && (KeepsRow(opts, row) ==> row.entityName == name)
    ensures var opts := [WithProjectID(1), WithValue(EntityName, "!" + name)];
            Acceptable(opts) && (KeepsRow(opts, row) ==> row.entityName != name)
  {
    hide Selects, ToSQLFilter;
    OneNameAccepted(name);
    OneNameAccepted("!" + name);
    var plain := [WithProjectID(1), WithValue(EntityName, name)];
    var marked := [WithProjectID(1), WithValue(EntityName, "!" + name)];
    assert plain[1] in plain && marked[1] in marked;
    KeptRowsPass(plain, row);
    KeptRowsPass(marked, row);
    assert Marks(EntityName, "!" + name, name);
  }
}
