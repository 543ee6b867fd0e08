/** Transactions that store evaluations, with the lookup and the writes as steps of their own, so that others can run in
    between. No index keeps a pair of rule and entity from having two rows; the lock of the aggregator does. */
module OverlappingStores {
  import opened Wrappers
  import opened Identifiers
  import opened HistoryTables
  import opened ExecutionLock
  import Protocol = AggregatorProtocol
  import StatusView

  type TxId = nat

  /** A transaction after its lookup, with what it found. */
  datatype Transaction = Transaction(owner: ExecutionId, outcome: Outcome, found: Option<RowId>)

  datatype Store = Store(t: Tables, open: map<TxId, Transaction>, used: set<TxId>)

  datatype Step =
    | Look(tx: TxId, owner: ExecutionId, outcome: Outcome)
    | Commit(tx: TxId)                    // all writes, visible to others from here on
    | Rollback(tx: TxId)
    | Wait                                // something happens elsewhere

  /** The lookup locks the rows it finds until its transaction ends. */
  predicate Locked(s: Store, re: RowId) {
    exists tx :: tx in s.open && s.open[tx].found == Some(re)
  }

  ghost predicate Enabled(s: Store, step: Step) {
    match step
    case Look(tx, _, o) => tx !in s.used && forall re :: re in LookupRows(s.t, o.rule, o.entity) ==> !Locked(s, re)
    case Commit(tx) =>
      tx in s.open && s.open[tx].outcome.rule in s.t.rules && s.open[tx].outcome.entity in s.t.entities
    case Rollback(tx) => tx in s.open
    case Wait => true
  }

  ghost function Next(s: Store, step: Step): Store
    requires Enabled(s, step)
  {
    match step
    case Look(tx, owner, o) =>
      s.(open := s.open[tx := Transaction(owner, o, Lookup(s.t, o.rule, o.entity))], used := s.used + {tx})
    case Commit(tx) => s.(t := Written(s.t, s.open[tx].outcome, s.open[tx].found), open := s.open - {tx})
    case Rollback(tx) => s.(open := s.open - {tx})
    case Wait => s
  }

  ghost predicate IsStep(s: Store, step: Step, u: Store) {
    Enabled(s, step) && u == Next(s, step)
  }

  /** Any interleaving of transactions, from tables that satisfy their invariant. */
  ghost predicate IsRun(states: seq<Store>, steps: seq<Step>) {
    && |states| == |steps| + 1
    && Inv(states[0].t) && states[0].open == map[] && states[0].used == {}
    && forall i {:trigger steps[i]} :: 0 <= i < |steps| ==> IsStep(states[i], steps[i], states[i + 1])
  }

  // ---------------------------------------------------------------------------------------------------------------
  // What every interleaving keeps

  ghost predicate Sound(s: Store) {
    && PointersHit(s.t.ruleEntities.Keys, s.t.latest, s.t.evaluations)
    && Below(s.t.ruleEntities.Keys, s.t.nextId) && Below(s.t.evaluations.Keys, s.t.nextId)
    && forall tx :: tx in s.open ==>
         && tx in s.used
         && (s.open[tx].found.Some? ==>
               IsRowOf(s.t, s.open[tx].found.value, s.open[tx].outcome.rule, s.open[tx].outcome.entity))
  }

  lemma FoundIsRow(t: Tables, rule: RowId, entity: EntityId)
    ensures Lookup(t, rule, entity).Some? ==> IsRowOf(t, Lookup(t, rule, entity).value, rule, entity)
  {
  }

  lemma SoundStep(s: Store, step: Step)
    requires Sound(s) && Enabled(s, step)
    ensures Sound(Next(s, step))
    ensures forall re, rule, entity :: IsRowOf(s.t, re, rule, entity) ==> IsRowOf(Next(s, step).t, re, rule, entity)
  {
    hide LookupRows, Lookup;
    if step.Look? {
      FoundIsRow(s.t, step.outcome.rule, step.outcome.entity);
    }
  }

  lemma {:induction false} SoundHolds(states: seq<Store>, steps: seq<Step>, k: nat)
    requires IsRun(states, steps) && k < |states|
    ensures Sound(states[k])
  {
    if k > 0 {
      SoundHolds(states, steps, k - 1);
      assert IsStep(states[k - 1], steps[k - 1], states[k]);
      SoundStep(states[k - 1], steps[k - 1]);
    }
  }

  /** Every row has its pointer, so the lookup finds nothing only if there is no row. */
  lemma LookupFindsSome(s: Store, re: RowId, rule: RowId, entity: EntityId)
    requires Sound(s) && IsRowOf(s.t, re, rule, entity)
    ensures Lookup(s.t, rule, entity).Some?
  {
    assert re in LookupRows(s.t, rule, entity);
  }

  lemma {:induction false} RowsStay(
    states: seq<Store>, steps: seq<Step>, i: nat, k: nat, re: RowId, rule: RowId, entity: EntityId)
    requires IsRun(states, steps) && i <= k < |states| && IsRowOf(states[i].t, re, rule, entity)
    ensures IsRowOf(states[k].t, re, rule, entity)
  {
    if i < k {
      RowsStay(states, steps, i, k - 1, re, rule, entity);
      SoundHolds(states, steps, k - 1);
      assert IsStep(states[k - 1], steps[k - 1], states[k]);
      SoundStep(states[k - 1], steps[k - 1]);
    }
  }

  /** An open transaction is as its lookup left it. */
  lemma {:induction false} OpenedBy(states: seq<Store>, steps: seq<Step>, k: nat, tx: TxId) returns (i: nat)
    requires IsRun(states, steps) && k < |states| && tx in states[k].open
    ensures i < k && steps[i].Look? && steps[i].tx == tx && steps[i].owner == states[k].open[tx].owner
    ensures steps[i].outcome == states[k].open[tx].outcome
    ensures states[k].open[tx].found == Lookup(states[i].t, steps[i].outcome.rule, steps[i].outcome.entity)
  {
    assert IsStep(states[k - 1], steps[k - 1], states[k]);
    if tx in states[k - 1].open && steps[k - 1] != Commit(tx) && steps[k - 1] != Rollback(tx) {
      SoundHolds(states, steps, k - 1);
      i := OpenedBy(states, steps, k - 1, tx);
    } else {
      i := k - 1;
    }
  }

  /** A transaction id is used once. */
  lemma {:induction false} UsedOnce(states: seq<Store>, steps: seq<Step>, i: nat, k: nat, tx: TxId)
    requires IsRun(states, steps) && i <= k < |states| && tx in states[i].used
    ensures tx in states[k].used
    ensures k < |steps| ==> !(steps[k].Look? && steps[k].tx == tx)
    ensures tx !in states[i].open ==> tx !in states[k].open
  {
    if k < |steps| {
      assert IsStep(states[k], steps[k], states[k + 1]);
    }
    if i < k {
      UsedOnce(states, steps, i, k - 1, tx);
      assert IsStep(states[k - 1], steps[k - 1], states[k]);
    }
  }

  // ---------------------------------------------------------------------------------------------------------------
  // When a pair gets two rows

  /** A transaction of a run, from its lookup to its commit. */
  datatype Span = Span(tx: TxId, look: nat, commit: nat)

  /** The transaction stores the first evaluation of the pair, as far as its lookup could tell. */
  ghost predicate StoresNew(states: seq<Store>, steps: seq<Step>, a: Span, rule: RowId, entity: EntityId) {
    && a.look < a.commit < |steps| && |states| == |steps| + 1
    && steps[a.look].Look? && steps[a.look].tx == a.tx && steps[a.commit] == Commit(a.tx)
    && steps[a.look].outcome.rule == rule && steps[a.look].outcome.entity == entity
    && !exists re :: IsRowOf(states[a.look].t, re, rule, entity)
  }

  ghost predicate Overlap(a: Span, b: Span) {
    a.tx != b.tx && a.look < b.commit && b.look < a.commit
  }

  ghost predicate TwoRows(t: Tables, rule: RowId, entity: EntityId) {
    exists p, q :: p != q && IsRowOf(t, p, rule, entity) && IsRowOf(t, q, rule, entity)
  }

  lemma NothingFound(t: Tables, rule: RowId, entity: EntityId)
    requires !exists re :: IsRowOf(t, re, rule, entity)
    ensures Lookup(t, rule, entity) == None && LookupRows(t, rule, entity) == {}
  {
    forall re | re in LookupRows(t, rule, entity) ensures IsRowOf(t, re, rule, entity) {
    }
  }

  lemma IdIsFresh(s: Store)
    requires Sound(s)
    ensures s.t.nextId !in s.t.ruleEntities
  {
  }

  /** The commit of such a transaction inserts a row. */
  lemma InsertsRow(states: seq<Store>, steps: seq<Step>, a: Span, rule: RowId, entity: EntityId)
    requires IsRun(states, steps) && StoresNew(states, steps, a, rule, entity)
    ensures var re := states[a.commit].t.nextId;
            re !in states[a.commit].t.ruleEntities && IsRowOf(states[a.commit + 1].t, re, rule, entity)
  {
    hide Sound, Inv;
    assert IsStep(states[a.commit], steps[a.commit], states[a.commit + 1]);
    var i := OpenedBy(states, steps, a.commit, a.tx);
    assert IsStep(states[a.look], steps[a.look], states[a.look + 1]);
    assert IsStep(states[i], steps[i], states[i + 1]);
    if i < a.look {
      UsedOnce(states, steps, i + 1, a.look, a.tx);
    } else if a.look < i {
      UsedOnce(states, steps, a.look + 1, i, a.tx);
    }
    NothingFound(states[a.look].t, rule, entity);
    SoundHolds(states, steps, a.commit);
    IdIsFresh(states[a.commit]);
  }

  /** Every row that was not there from the start was inserted by such a transaction. */
  lemma {:induction false} InsertedBy(
    states: seq<Store>, steps: seq<Step>, k: nat, re: RowId, rule: RowId, entity: EntityId) returns (a: Span)
    requires IsRun(states, steps) && k < |states|
    requires IsRowOf(states[k].t, re, rule, entity) && re !in states[0].t.ruleEntities
    ensures StoresNew(states, steps, a, rule, entity) && a.commit < k && re == states[a.commit].t.nextId
  {
    hide Inv, Sound;
    var s, step := states[k - 1], steps[k - 1];
    assert IsStep(s, step, states[k]);
    if IsRowOf(s.t, re, rule, entity) {
      a := InsertedBy(states, steps, k - 1, re, rule, entity);
    } else {
      SoundHolds(states, steps, k - 1);
      var i := OpenedBy(states, steps, k - 1, step.tx);
      SoundHolds(states, steps, i);
      forall p ensures !IsRowOf(states[i].t, p, rule, entity) {
        if IsRowOf(states[i].t, p, rule, entity) {
          LookupFindsSome(states[i], p, rule, entity);
        }
      }
      a := Span(step.tx, i, k - 1);
    }
  }

  lemma TwoInserted(states: seq<Store>, steps: seq<Step>, n: nat, a: Span, b: Span, rule: RowId, entity: EntityId)
    requires IsRun(states, steps) && a.commit < b.commit < n < |states|
    requires StoresNew(states, steps, a, rule, entity) && StoresNew(states, steps, b, rule, entity)
    ensures TwoRows(states[n].t, rule, entity)
  {
    hide Inv, IsRun;
    InsertsRow(states, steps, a, rule, entity);
    InsertsRow(states, steps, b, rule, entity);
    var p, q := states[a.commit].t.nextId, states[b.commit].t.nextId;
    RowsStay(states, steps, a.commit + 1, b.commit, p, rule, entity);
    RowsStay(states, steps, a.commit + 1, n, p, rule, entity);
    RowsStay(states, steps, b.commit + 1, n, q, rule, entity);
  }

  /** A row that was there from the start was of this pair all along. */
  lemma RowKeepsPair(states: seq<Store>, steps: seq<Step>, n: nat, re: RowId, rule: RowId, entity: EntityId)
    requires IsRun(states, steps) && n < |states| && re in states[0].t.ruleEntities
    requires IsRowOf(states[n].t, re, rule, entity)
    ensures IsRowOf(states[0].t, re, rule, entity)
  {
    var row := states[0].t.ruleEntities[re];
    RowsStay(states, steps, 0, n, re, row.rule, row.entity);
  }

  /** Of two such transactions, the one that commits second looked before the first committed. */
  lemma FirstBeforeSecond(states: seq<Store>, steps: seq<Step>, a: Span, b: Span, rule: RowId, entity: EntityId)
    requires IsRun(states, steps) && a.commit < b.commit
    requires StoresNew(states, steps, a, rule, entity) && StoresNew(states, steps, b, rule, entity)
    ensures Overlap(a, b)
  {
    hide Inv;
    InsertsRow(states, steps, a, rule, entity);
    if a.commit < b.look {
      RowsStay(states, steps, a.commit + 1, b.look, states[a.commit].t.nextId, rule, entity);
      assert false;
    }
    assert IsStep(states[a.commit], steps[a.commit], states[a.commit + 1]);
    assert IsStep(states[b.commit], steps[b.commit], states[b.commit + 1]);
    SoundHolds(states, steps, a.commit);
    if a.tx == b.tx {
      UsedOnce(states, steps, a.commit + 1, b.commit, a.tx);
      assert false;
    }
  }

  lemma OverlapOf(
    states: seq<Store>, steps: seq<Step>, n: nat, rule: RowId, entity: EntityId, p: RowId, q: RowId)
    requires IsRun(states, steps) && n < |states| && p != q
    requires IsRowOf(states[n].t, p, rule, entity) && IsRowOf(states[n].t, q, rule, entity)
    ensures exists a, b :: Overlap(a, b) && a.commit < n && b.commit < n
                           && StoresNew(states, steps, a, rule, entity) && StoresNew(states, steps, b, rule, entity)
  {
    if p in states[0].t.ruleEntities && q in states[0].t.ruleEntities {
      RowKeepsPair(states, steps, n, p, rule, entity);
      RowKeepsPair(states, steps, n, q, rule, entity);
      assert false;
    } else if p in states[0].t.ruleEntities {
      var b := InsertedBy(states, steps, n, q, rule, entity);
      RowKeepsPair(states, steps, n, p, rule, entity);
      RowsStay(states, steps, 0, b.look, p, rule, entity);
      assert false;
    } else if q in states[0].t.ruleEntities {
      var a := InsertedBy(states, steps, n, p, rule, entity);
      RowKeepsPair(states, steps, n, q, rule, entity);
      RowsStay(states, steps, 0, a.look, q, rule, entity);
      assert false;
    } else {
      var a := InsertedBy(states, steps, n, p, rule, entity);
      var b := InsertedBy(states, steps, n, q, rule, entity);
      if a.commit < b.commit {
        FirstBeforeSecond(states, steps, a, b, rule, entity);
      } else {
        FirstBeforeSecond(states, steps, b, a, rule, entity);
      }
      assert Overlap(a, b);
    }
  }

  /** A pair has two rows exactly if two transactions overlapped that both stored the first evaluation of the pair. */
  lemma TwoRowsByOverlap(states: seq<Store>, steps: seq<Step>, n: nat, rule: RowId, entity: EntityId)
    requires IsRun(states, steps) && n < |states|
    ensures TwoRows(states[n].t, rule, entity) <==>
            exists a, b :: Overlap(a, b) && a.commit < n && b.commit < n
                           && StoresNew(states, steps, a, rule, entity) && StoresNew(states, steps, b, rule, entity)
  {
    if p, q :| p != q && IsRowOf(states[n].t, p, rule, entity) && IsRowOf(states[n].t, q, rule, entity) {
      OverlapOf(states, steps, n, rule, entity, p, q);
    }
    forall a, b | Overlap(a, b) && a.commit < n && b.commit < n
                  && StoresNew(states, steps, a, rule, entity) && StoresNew(states, steps, b, rule, entity)
      ensures TwoRows(states[n].t, rule, entity)
    {
      if a.commit < b.commit {
        TwoInserted(states, steps, n, a, b, rule, entity);
      } else {
        TwoInserted(states, steps, n, b, a, rule, entity);
      }
    }
  }

  lemma RulesStay(t: Tables, o: Outcome, found: Option<RowId>)
    ensures Written(t, o, found).rules == t.rules && Written(t, o, found).entities == t.entities
  {
  }

  lemma OverlappingRun(t: Tables, o: Outcome) returns (states: seq<Store>, steps: seq<Step>)
    requires Inv(t) && o.rule in t.rules && o.entity in t.entities
    requires !exists re :: IsRowOf(t, re, o.rule, o.entity)
    ensures IsRun(states, steps) && steps == [Look(0, 0, o), Look(1, 1, o), Commit(0), Commit(1)]
    ensures states[0].t == states[1].t == t
  {
    hide Inv, Written, Lookup, LookupRows;
    NothingFound(t, o.rule, o.entity);
    RulesStay(t, o, None);
    var x, y, u := Transaction(0, o, None), Transaction(1, o, None), Written(t, o, None);
    var s0, s1, s2 := Store(t, map[], {}), Store(t, map[0 := x], {0}), Store(t, map[0 := x, 1 := y], {0, 1});
    var s3, s4 := Store(u, map[1 := y], {0, 1}), Store(Written(u, o, None), map[], {0, 1});
    assert IsStep(s0, Look(0, 0, o), s1);
    assert IsStep(s1, Look(1, 1, o), s2);
    assert IsStep(s2, Commit(0), s3);
    assert IsStep(s3, Commit(1), s4);
    hide IsStep;
    states, steps := [s0, s1, s2, s3, s4], [Look(0, 0, o), Look(1, 1, o), Commit(0), Commit(1)];
  }

  /** From any tables in which a pair was never stored, there is a run in which two transactions overlap and the pair
      gets two rows. */
  lemma TwoRowsHappen(t: Tables, o: Outcome) returns (states: seq<Store>, steps: seq<Step>)
    requires Inv(t) && o.rule in t.rules && o.entity in t.entities
    requires !exists re :: IsRowOf(t, re, o.rule, o.entity)
    ensures IsRun(states, steps) && states[0].t == t && TwoRows(states[|steps|].t, o.rule, o.entity)
  {
    hide Inv, Next, Enabled, Sound, IsRowOf;
    states, steps := OverlappingRun(t, o);
    var a, b := Span(0, 0, 2), Span(1, 1, 3);
    assert StoresNew(states, steps, a, o.rule, o.entity) && StoresNew(states, steps, b, o.rule, o.entity);
    assert Overlap(a, b);
    TwoRowsByOverlap(states, steps, 4, o.rule, o.entity);
  }

  // ---------------------------------------------------------------------------------------------------------------
  // Under the lock of the aggregator

  /** A store or the protocol moves, never both at once. Only a running execution stores, for its own entity, one
      evaluation at a time; and it does not end before its transaction does. */
  ghost predicate Coupled(p: Protocol.State, pstep: Protocol.Step, s: Store, step: Step) {
    && (step.Wait? || pstep == Protocol.Tick(0))
    && (step.Look? ==>
          && step.owner in p.running && p.running[step.owner].entity == step.outcome.entity
          && forall tx :: tx in s.open ==> s.open[tx].owner != step.owner)
    && (pstep.Release? || pstep.Abandon? || pstep.Skip? ==> forall tx :: tx in s.open ==> s.open[tx].owner != pstep.id)
  }

  ghost predicate IsJointRun(
    ps: seq<Protocol.State>, psteps: seq<Protocol.Step>, states: seq<Store>, steps: seq<Step>)
  {
    && Protocol.IsRun(ps, psteps) && IsRun(states, steps) && |psteps| == |steps|
    && forall i {:trigger steps[i]} :: 0 <= i < |steps| ==> Coupled(ps[i], psteps[i], states[i], steps[i])
  }

  /** Every open transaction belongs to an execution that is running for its entity, and to no other transaction's. */
  ghost predicate Owned(p: Protocol.State, s: Store) {
    && (forall tx :: tx in s.open ==>
          s.open[tx].owner in p.running && p.running[s.open[tx].owner].entity == s.open[tx].outcome.entity)
    && (forall x, y :: x in s.open && y in s.open && s.open[x].owner == s.open[y].owner ==> x == y)
  }

  lemma OwnedByRunning(p: Protocol.State, pstep: Protocol.Step, s: Store)
    requires Owned(p, s) && Coupled(p, pstep, s, Wait) && Protocol.Enabled(p, pstep) && Protocol.Inv(p)
    ensures Owned(Protocol.Next(p, pstep), s)
  {
    match pstep
    case Acquire(_, id) =>
    case Renew(id) =>
    case Release(id) =>
    case Abandon(id) =>
    case Skip(id) =>
    case _ => assert Protocol.Next(p, pstep).running == p.running;
  }

  lemma OwnedByLooking(p: Protocol.State, pstep: Protocol.Step, s: Store, step: Step)
    requires Owned(p, s) && Coupled(p, pstep, s, step) && Enabled(s, step)
    ensures Owned(p, Next(s, step))
  {
    hide LookupRows, Lookup, Written, Locked;
  }

  lemma OwnedStep(p: Protocol.State, pstep: Protocol.Step, s: Store, step: Step)
    requires Owned(p, s) && Coupled(p, pstep, s, step) && Protocol.Enabled(p, pstep) && Enabled(s, step)
    requires Protocol.Inv(p)
    ensures Owned(Protocol.Next(p, pstep), Next(s, step))
  {
    hide Owned, Enabled, Protocol.Inv;
    if step.Wait? {
      OwnedByRunning(p, pstep, s);
    } else {
      OwnedByLooking(p, pstep, s, step);
      assert Protocol.Next(p, pstep) == p;
    }
  }

  lemma {:induction false} OwnedHolds(
    ps: seq<Protocol.State>, psteps: seq<Protocol.Step>, states: seq<Store>, steps: seq<Step>, k: nat)
    requires IsJointRun(ps, psteps, states, steps) && k < |states|
    ensures Owned(ps[k], states[k])
  {
    hide Inv;
    if k > 0 {
      OwnedHolds(ps, psteps, states, steps, k - 1);
      Protocol.InvHolds(ps, psteps, k - 1);
      assert IsStep(states[k - 1], steps[k - 1], states[k]);
      assert Protocol.IsStep(ps[k - 1], psteps[k - 1], ps[k]);
      assert Coupled(ps[k - 1], psteps[k - 1], states[k - 1], steps[k - 1]);
      OwnedStep(ps[k - 1], psteps[k - 1], states[k - 1], steps[k - 1]);
    }
  }

  /** No execution was overdue before this state. */
  ghost predicate NeverOverdue(ps: seq<Protocol.State>, k: nat) {
    forall m, x :: 0 <= m < k && m < |ps| && x in ps[m].running ==>
      ps[m].now - ps[m].running[x].renewedAt <= ps[m].interval
  }

  /** No two open transactions are for one entity. */
  lemma OneTransactionPerEntity(
    ps: seq<Protocol.State>, psteps: seq<Protocol.Step>, states: seq<Store>, steps: seq<Step>, k: nat, x: TxId, y: TxId)
    requires IsJointRun(ps, psteps, states, steps) && k < |states| && NeverOverdue(ps, k)
    requires x in states[k].open && y in states[k].open && x != y
    ensures states[k].open[x].outcome.entity != states[k].open[y].outcome.entity
  {
    OwnedHolds(ps, psteps, states, steps, k);
    Protocol.MutualExclusion(ps, psteps, k, states[k].open[x].owner, states[k].open[y].owner);
  }

  /** What every open transaction found is still what a lookup would find. */
  ghost predicate UpToDate(s: Store) {
    forall tx :: tx in s.open ==>
      s.open[tx].found == Lookup(s.t, s.open[tx].outcome.rule, s.open[tx].outcome.entity)
  }

  lemma OneRowFound(t: Tables, rule: RowId, entity: EntityId)
    requires Inv(t)
    ensures forall re: RowId :: IsRowOf(t, re, rule, entity) ==> Lookup(t, rule, entity) == Some(re)
    ensures Lookup(t, rule, entity).Some? ==> IsRowOf(t, Lookup(t, rule, entity).value, rule, entity)
  {
    LookupFindsThePair(t, rule, entity);
  }

  /** A store changes nothing for other entities. */
  lemma LookupOfOthers(t: Tables, o: Outcome, rule: RowId, entity: EntityId)
    requires Inv(t) && o.rule in t.rules && o.entity in t.entities && entity != o.entity
    ensures Lookup(Stored(t, o), rule, entity) == Lookup(t, rule, entity)
  {
    hide Inv, Lookup, LookupRows, Stored;
    StoreKeepsInv(t, o);
    OneRowFound(t, rule, entity);
    OneRowFound(Stored(t, o), rule, entity);
    forall re ensures IsRowOf(Stored(t, o), re, rule, entity) <==> IsRowOf(t, re, rule, entity) {
      StatusView.RowsAfterStore(t, o, re, rule, entity);
    }
  }

  lemma CommitStaysUpToDate(s: Store, tx: TxId)
    requires Inv(s.t) && UpToDate(s) && Enabled(s, Commit(tx))
    requires forall other :: other in s.open && other != tx ==>
               s.open[other].outcome.entity != s.open[tx].outcome.entity
    ensures Inv(Next(s, Commit(tx)).t) && UpToDate(Next(s, Commit(tx)))
  {
    hide Lookup, Inv;
    var o := s.open[tx].outcome;
    StoreKeepsInv(s.t, o);
    forall other | other in s.open && other != tx
      ensures Lookup(Stored(s.t, o), s.open[other].outcome.rule, s.open[other].outcome.entity) == s.open[other].found
    {
      LookupOfOthers(s.t, o, s.open[other].outcome.rule, s.open[other].outcome.entity);
    }
  }

  /** As long as no lease was overrun, stores are as if made one after the other: whatever is committed is what
      lookup and writes in one would have stored, no lookup is out of date, and no pair has two rows. */
  lemma {:induction false} StoresAreSequential(
    ps: seq<Protocol.State>, psteps: seq<Protocol.Step>, states: seq<Store>, steps: seq<Step>, k: nat)
    requires IsJointRun(ps, psteps, states, steps) && k < |states| && NeverOverdue(ps, k)
    ensures Inv(states[k].t) && UpToDate(states[k])
    ensures k < |steps| && steps[k].Commit? ==>
              steps[k].tx in states[k].open
              && states[k + 1].t == Stored(states[k].t, states[k].open[steps[k].tx].outcome)
    ensures forall rule, entity :: !TwoRows(states[k].t, rule, entity)
  {
    hide Lookup, Inv, Protocol.IsRun;
    if k > 0 {
      StoresAreSequential(ps, psteps, states, steps, k - 1);
      var s, step := states[k - 1], steps[k - 1];
      assert IsStep(s, step, states[k]);
      if step.Commit? {
        forall tx | tx in s.open && tx != step.tx
          ensures s.open[tx].outcome.entity != s.open[step.tx].outcome.entity
        {
          OneTransactionPerEntity(ps, psteps, states, steps, k - 1, tx, step.tx);
        }
        CommitStaysUpToDate(s, step.tx);
      }
    }
    if k < |steps| {
      assert IsStep(states[k], steps[k], states[k + 1]);
    }
    forall rule, entity ensures !TwoRows(states[k].t, rule, entity) {
      OneRowFound(states[k].t, rule, entity);
    }
  }

  /** The stores committed before this state, in their order. */
  ghost function Committed(states: seq<Store>, steps: seq<Step>, k: nat): seq<StatusView.Op>
    requires k <= |steps| && |states| == |steps| + 1
  {
    if k == 0 then []
    else
      var past := Committed(states, steps, k - 1);
      if steps[k - 1].Commit? && steps[k - 1].tx in states[k - 1].open
      then past + [StatusView.Store(states[k - 1].open[steps[k - 1].tx].outcome)]
      else past
  }

  lemma NothingStored(t: Tables)
    requires t.ruleEntities == map[]
    ensures StatusView.Refines(t, [])
  {
  }

  /** Under the lock the tables refine the plain map of what was committed. */
  lemma {:induction false} TablesRefineCommitted(
    ps: seq<Protocol.State>, psteps: seq<Protocol.Step>, states: seq<Store>, steps: seq<Step>, k: nat)
    requires IsJointRun(ps, psteps, states, steps) && k < |states| && NeverOverdue(ps, k)
    requires states[0].t.ruleEntities == map[]
    ensures Inv(states[k].t) && StatusView.Refines(states[k].t, Committed(states, steps, k))
  {
    hide Inv, StatusView.Refines, Protocol.IsRun, Stored, Coupled, TwoRows, UpToDate, Lookup;
    StoresAreSequential(ps, psteps, states, steps, k);
    if k > 0 {
      TablesRefineCommitted(ps, psteps, states, steps, k - 1);
      StoresAreSequential(ps, psteps, states, steps, k - 1);
      assert IsStep(states[k - 1], steps[k - 1], states[k]);
      if steps[k - 1].Commit? {
        StatusView.StoreRefines(
          states[k - 1].t, Committed(states, steps, k - 1), states[k - 1].open[steps[k - 1].tx].outcome);
      }
    } else {
      NothingStored(states[0].t);
    }
  }

  /** The status view of a joint run: each pair as its last committed store left it. */
  lemma CommittedViewIsLast(
    ps: seq<Protocol.State>, psteps: seq<Protocol.Step>, states: seq<Store>, steps: seq<Step>, k: nat,
    profile: ProfileId, r: StatusView.Restriction, rule: RowId, entity: EntityId)
    requires IsJointRun(ps, psteps, states, steps) && k < |states| && NeverOverdue(ps, k)
    requires states[0].t.ruleEntities == map[]
    ensures StatusView.ViewShowsLast(states[k].t, Committed(states, steps, k), profile, r, rule, entity)
  {
    hide Inv, StatusView.Refines, StatusView.ViewShowsLast, Protocol.IsRun;
    TablesRefineCommitted(ps, psteps, states, steps, k);
    StatusView.RefiningViewShowsLast(states[k].t, Committed(states, steps, k), profile, r, rule, entity);
  }
}
