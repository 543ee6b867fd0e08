/** Projects, their tuples in the authorization store, provisioning with all its failures, and the traversal that
    lists what a user can access. */
module ProjectHierarchy {
  import opened Wrappers
  import opened Identifiers

  type UserId = nat

  /** A `parent` tuple: the first project is the parent of the second. */
  type Edge = (ProjectId, ProjectId)

  // ---------------------------------------------------------------------------------------------------------------
  // Descendants

  ghost predicate IsPath(edges: set<Edge>, path: seq<ProjectId>) {
    forall i {:trigger path[i]} :: 0 <= i < |path| - 1 ==> (path[i], path[i + 1]) in edges
  }

  ghost predicate PathBetween(edges: set<Edge>, path: seq<ProjectId>, from: ProjectId, to: ProjectId) {
    |path| >= 2 && path[0] == from && path[|path| - 1] == to && IsPath(edges, path)
  }

  /** `to` can be reached from `from` by one or more steps from parent to child. */
  ghost predicate Descends(edges: set<Edge>, from: ProjectId, to: ProjectId) {
    exists path :: PathBetween(edges, path, from, to)
  }

  /** A descendant is a child, or a descendant of a child. */
  lemma DescendsByFirstStep(edges: set<Edge>, from: ProjectId, to: ProjectId)
    ensures Descends(edges, from, to) <==>
            exists c :: (from, c) in edges && (c == to || Descends(edges, c, to))
  {
    if Descends(edges, from, to) {
      var path :| PathBetween(edges, path, from, to);
      assert (path[0], path[1]) in edges;
      if |path| > 2 {
        forall i | 0 <= i < |path[1..]| - 1 ensures (path[1..][i], path[1..][i + 1]) in edges {
          assert (path[i + 1], path[i + 2]) in edges;
        }
        assert PathBetween(edges, path[1..], path[1], to);
      }
    }
    if c :| (from, c) in edges && (c == to || Descends(edges, c, to)) {
      if c == to {
        assert PathBetween(edges, [from, to], from, to);
      } else {
        var path :| PathBetween(edges, path, c, to);
        assert PathBetween(edges, [from] + path, from, to);
      }
    }
  }

  /** Every edge leads to a lower rank: the hierarchy has no cycle. */
  ghost predicate Ranked(edges: set<Edge>, rank: ProjectId -> nat) {
    forall p, c :: (p, c) in edges ==> rank(c) < rank(p)
  }

  ghost predicate AtOrBelow(edges: set<Edge>, from: ProjectId, to: ProjectId) {
    to == from || Descends(edges, from, to)
  }

  /** The user has a role on the project or on one of its ancestors. */
  ghost predicate Accessible(
    roles: set<(UserId, ProjectId)>, edges: set<Edge>, user: UserId, project: ProjectId)
  {
    exists q :: (user, q) in roles && AtOrBelow(edges, q, project)
  }

  // ---------------------------------------------------------------------------------------------------------------
  // The traversal

  class AuthzClient {
    var parents: set<Edge>
    var roles: set<(UserId, ProjectId)>

    constructor ()
      ensures parents == {} && roles == {}
    {
      parents, roles := {}, {};
    }

    /** The children of a project, each once, in the order the store happens to return them. */
    method ListObjects(parent: ProjectId) returns (objects: seq<ProjectId>)
      ensures forall c :: c in objects <==> (parent, c) in parents
      ensures forall i, j :: 0 <= i < j < |objects| ==> objects[i] != objects[j]
    {
      objects := [];
      var rest := parents;
      while rest != {}
        invariant rest <= parents
        invariant forall c :: c in objects <==> (parent, c) in parents - rest
        invariant forall i, j :: 0 <= i < j < |objects| ==> objects[i] != objects[j]
        decreases |rest|
      {
        var edge :| edge in rest;
        rest := rest - {edge};
        if edge.0 == parent {
          objects := objects + [edge.1];
        }
      }
    }

    /** Lists all descendants of a project. The loop runs over the children as first listed; what the recursive calls
        return is appended behind them. */
    method TraverseProjectsForParent(parent: ProjectId, ghost rank: ProjectId -> nat)
      returns (projects: seq<ProjectId>)
      requires Ranked(parents, rank)
      ensures forall p :: p in projects <==> Descends(parents, parent, p)
      decreases rank(parent)
    {
      var direct := ListObjects(parent);
      projects := direct;
      for i := 0 to |direct|
        invariant forall p :: p in projects <==>
                              p in direct || exists k :: 0 <= k < i && Descends(parents, direct[k], p)
      {
        assert direct[i] in direct;
        var children := TraverseProjectsForParent(direct[i], rank);
        projects := projects + children;
      }
      forall p ensures p in projects <==> Descends(parents, parent, p) {
        DescendsByFirstStep(parents, parent, p);
        if c :| (parent, c) in parents && Descends(parents, c, p) {
          assert c in direct;
        }
      }
    }

    /** Lists the projects a user has a role on, and all descendants of these. */
    method ProjectsForUser(user: UserId, ghost rank: ProjectId -> nat) returns (out: seq<ProjectId>)
      requires Ranked(parents, rank)
      ensures forall p :: p in out <==> Accessible(roles, parents, user, p)
    {
      var projs := set t | t in roles && t.0 == user :: t.1;
      out := [];
      var rest := projs;
      while rest != {}
        invariant rest <= projs
        invariant forall p :: p in out <==> exists q :: q in projs - rest && AtOrBelow(parents, q, p)
        decreases |rest|
      {
        var proj :| proj in rest;
        rest := rest - {proj};
        var children := TraverseProjectsForParent(proj, rank);
        assert forall p :: p in [proj] + children <==> AtOrBelow(parents, proj, p);
        assert projs - rest == projs - (rest + {proj}) + {proj};
        out := out + ([proj] + children);
      }
      assert projs - rest == projs;
    }
  }

  // ---------------------------------------------------------------------------------------------------------------
  // Provisioning

  /** The committed rows of `projects` with their `parent_id`, the tuples, and every id ever generated. */
  datatype World = World(
    projects: map<ProjectId, Option<ProjectId>>,
    parents: set<Edge>,
    roles: set<(UserId, ProjectId)>,
    used: set<ProjectId>)

  /** Where creating a subproject stops. */
  datatype ChildEnd = Refused | AdoptFails | CommitFails | Created

  /** Where creating a top-level project stops; `Undone`: a later step fails and the role is deleted again; `RoleKept`:
      that deletion fails too, or only the commit fails. */
  datatype TopEnd = WriteFails | Undone | RoleKept | Enrolled

  datatype Step =
    | ProvisionChild(parent: ProjectId, id: ProjectId, end: ChildEnd)
    | ProvisionTop(user: UserId, id: ProjectId, topEnd: TopEnd)
    | AssignRole(user: UserId, project: ProjectId)
    | RemoveRole(user: UserId, project: ProjectId)

  predicate IsTopLevel(w: World, p: ProjectId) {
    p in w.projects && w.projects[p].None?
  }

  ghost predicate Enabled(w: World, step: Step) {
    match step
    case ProvisionChild(p, id, end) => id !in w.used && (IsTopLevel(w, p) || end == Refused)
    case ProvisionTop(_, id, _) => id !in w.used
    case AssignRole(_, p) => p in w.projects
    case RemoveRole(_, p) => p in w.projects
  }

  ghost function Next(w: World, step: Step): World
    requires Enabled(w, step)
  {
    match step
    case ProvisionChild(p, id, end) =>
      var v := w.(used := w.used + {id});
      (match end
       case Refused => v
       case AdoptFails => v
       case CommitFails => v.(parents := w.parents + {(p, id)})
       case Created => v.(parents := w.parents + {(p, id)}, projects := w.projects[id := Some(p)]))
    case ProvisionTop(u, id, end) =>
      var v := w.(used := w.used + {id});
      (match end
       case WriteFails => v
       case Undone => v
       case RoleKept => v.(roles := w.roles + {(u, id)})
       case Enrolled => v.(roles := w.roles + {(u, id)}, projects := w.projects[id := None]))
    case AssignRole(u, p) => w.(roles := w.roles + {(u, p)})
    case RemoveRole(u, p) => w.(roles := w.roles - {(u, p)})
  }

  const EMPTY := World(map[], {}, {}, {})

  ghost predicate IsStep(w: World, step: Step, v: World) {
    Enabled(w, step) && v == Next(w, step)
  }

  ghost predicate IsRun(worlds: seq<World>, steps: seq<Step>) {
    && |worlds| == |steps| + 1 && worlds[0] == EMPTY
    && forall i {:trigger steps[i]} :: 0 <= i < |steps| ==> IsStep(worlds[i], steps[i], worlds[i + 1])
  }

  /** Tuples start at top-level projects and end at their subprojects or at ids that were never committed; every
      subproject has its tuple. */
  ghost predicate Inv(w: World) {
    && (forall p, c :: (p, c) in w.parents ==>
          && p in w.projects && w.projects[p] == None && c in w.used
          && (c in w.projects ==> w.projects[c] == Some(p)))
    && (forall c :: c in w.projects && w.projects[c].Some? ==>
          (w.projects[c].value, c) in w.parents)
    && (forall p :: p in w.projects ==> p in w.used)
    && (forall u, p :: (u, p) in w.roles ==> p in w.used)
  }

  lemma {:induction false} InvHolds(worlds: seq<World>, steps: seq<Step>, k: nat)
    requires IsRun(worlds, steps) && k < |worlds|
    ensures Inv(worlds[k])
  {
    if k > 0 {
      InvHolds(worlds, steps, k - 1);
      assert IsStep(worlds[k - 1], steps[k - 1], worlds[k]);
    }
  }

  /** Rank 1 for a project with a child, 0 for the others. */
  ghost function Height(edges: set<Edge>): ProjectId -> nat {
    p => if exists c :: (p, c) in edges then 1 else 0
  }

  /** No subproject ever gets a child, so the traversal's recursion ends after two levels. */
  lemma TwoLevels(worlds: seq<World>, steps: seq<Step>, k: nat)
    requires IsRun(worlds, steps) && k < |worlds|
    ensures Ranked(worlds[k].parents, Height(worlds[k].parents))
    ensures forall p, c, d :: (p, c) in worlds[k].parents ==> (c, d) !in worlds[k].parents
  {
    InvHolds(worlds, steps, k);
  }

  /** The rows of `projects` as edges: what the recursive query for children joins on. */
  ghost function TableEdges(projects: map<ProjectId, Option<ProjectId>>): set<Edge> {
    set c | c in projects && projects[c].Some? :: (projects[c].value, c)
  }

  /** For committed projects, the tuples and the recursive query over `parent_id` agree on who descends from whom. */
  lemma TuplesAgreeWithTable(worlds: seq<World>, steps: seq<Step>, k: nat, p: ProjectId, x: ProjectId)
    requires IsRun(worlds, steps) && k < |worlds| && x in worlds[k].projects
    ensures Descends(worlds[k].parents, p, x) <==> worlds[k].projects[x] == Some(p)
    ensures Descends(worlds[k].parents, p, x) <==> Descends(TableEdges(worlds[k].projects), p, x)
  {
    InvHolds(worlds, steps, k);
    var table := TableEdges(worlds[k].projects);
    DescendsByFirstStep(worlds[k].parents, p, x);
    forall c | (p, c) in worlds[k].parents ensures !Descends(worlds[k].parents, c, x) {
      DescendsByFirstStep(worlds[k].parents, c, x);
    }
    DescendsByFirstStep(table, p, x);
    forall c | (p, c) in table ensures !Descends(table, c, x) {
      DescendsByFirstStep(table, c, x);
    }
  }

  /** Over every hierarchy that provisioning can build, a committed project is listed for a user exactly when the user
      has a role on it or on its parent. */
  lemma AccessIsRoleOnProjectOrParent(worlds: seq<World>, steps: seq<Step>, k: nat, user: UserId, x: ProjectId)
    requires IsRun(worlds, steps) && k < |worlds| && x in worlds[k].projects
    ensures Accessible(worlds[k].roles, worlds[k].parents, user, x) <==>
            || (user, x) in worlds[k].roles
            || (worlds[k].projects[x].Some? && (user, worlds[k].projects[x].value) in worlds[k].roles)
  {
    forall q: ProjectId ensures Descends(worlds[k].parents, q, x) <==> worlds[k].projects[x] == Some(q) {
      TuplesAgreeWithTable(worlds, steps, k, q, x);
    }
  }

  /** A creation of `x` that failed after its tuple was written, by this user or under a project on which the user has
      a role. */
  predicate LeftFor(w: World, step: Step, user: UserId, x: ProjectId) {
    match step
    case ProvisionChild(p, id, CommitFails) => id == x && (user, p) in w.roles
    case ProvisionTop(u, id, RoleKept) => id == x && u == user
    case _ => false
  }

  /** An id that was not committed is reached from its parent only. */
  lemma OnlyFromParent(w: World, q: ProjectId, x: ProjectId)
    requires Inv(w) && x !in w.projects
    ensures Descends(w.parents, q, x) <==> (q, x) in w.parents
  {
    DescendsByFirstStep(w.parents, q, x);
    forall c | (q, c) in w.parents ensures !Descends(w.parents, c, x) {
      DescendsByFirstStep(w.parents, c, x);
    }
  }

  lemma {:induction false} ParentLeft(worlds: seq<World>, steps: seq<Step>, k: nat, p: ProjectId, x: ProjectId)
    requires IsRun(worlds, steps) && k < |worlds| && x !in worlds[k].projects
    ensures (p, x) in worlds[k].parents <==> exists i :: 0 <= i < k && steps[i] == ProvisionChild(p, x, CommitFails)
  {
    if k > 0 {
      assert IsStep(worlds[k - 1], steps[k - 1], worlds[k]);
      ParentLeft(worlds, steps, k - 1, p, x);
    }
  }

  lemma {:induction false} RoleLeft(worlds: seq<World>, steps: seq<Step>, k: nat, u: UserId, x: ProjectId)
    requires IsRun(worlds, steps) && k < |worlds| && x !in worlds[k].projects
    ensures (u, x) in worlds[k].roles <==> exists i :: 0 <= i < k && steps[i] == ProvisionTop(u, x, RoleKept)
  {
    if k > 0 {
      assert IsStep(worlds[k - 1], steps[k - 1], worlds[k]);
      RoleLeft(worlds, steps, k - 1, u, x);
    }
  }

  /** A project that was never committed is listed for a user exactly when its creation left a tuple behind, by the user
      or under a project on which the user has a role. */
  lemma LeftoversAreListed(worlds: seq<World>, steps: seq<Step>, k: nat, user: UserId, x: ProjectId)
    requires IsRun(worlds, steps) && k < |worlds| && x !in worlds[k].projects
    ensures Accessible(worlds[k].roles, worlds[k].parents, user, x) <==>
            exists i :: 0 <= i < k && LeftFor(worlds[k], steps[i], user, x)
  {
    var w := worlds[k];
    InvHolds(worlds, steps, k);
    RoleLeft(worlds, steps, k, user, x);
    forall q: ProjectId ensures Descends(w.parents, q, x) <==> (q, x) in w.parents {
      OnlyFromParent(w, q, x);
    }
    forall q: ProjectId
      ensures (q, x) in w.parents <==> exists i :: 0 <= i < k && steps[i] == ProvisionChild(q, x, CommitFails)
    {
      ParentLeft(worlds, steps, k, q, x);
    }
    if i :| 0 <= i < k && LeftFor(w, steps[i], user, x) {
      assert steps[i].ProvisionTop? ==> (user, x) in w.roles;
      assert steps[i].ProvisionChild? ==> Descends(w.parents, steps[i].parent, x);
    }
    if q :| (user, q) in w.roles && AtOrBelow(w.parents, q, x) {
      if q == x {
        var i :| 0 <= i < k && steps[i] == ProvisionTop(user, x, RoleKept);
        assert LeftFor(w, steps[i], user, x);
      } else {
        var i :| 0 <= i < k && steps[i] == ProvisionChild(q, x, CommitFails);
        assert LeftFor(w, steps[i], user, x);
      }
    }
  }

  /** A run after which a project is listed that does not exist: its commit failed. */
  lemma LeftoverIsListed(user: UserId, p: ProjectId, x: ProjectId) returns (worlds: seq<World>, steps: seq<Step>)
    requires p != x
    ensures IsRun(worlds, steps)
    ensures var w := worlds[|steps|];
            p in w.projects && x !in w.projects && Accessible(w.roles, w.parents, user, x)
  {
    var w1 := World(map[p := None], {}, {(user, p)}, {p});
    var w2 := World(map[p := None], {(p, x)}, {(user, p)}, {p, x});
    worlds, steps := [EMPTY, w1, w2], [ProvisionTop(user, p, Enrolled), ProvisionChild(p, x, CommitFails)];
    assert IsStep(EMPTY, steps[0], w1) && IsStep(w1, steps[1], w2);
    assert LeftFor(w2, steps[1], user, x);
    LeftoversAreListed(worlds, steps, 2, user, x);
  }

  /** How the calls that creating a project makes come out. */
  datatype Fate = Fate(
    nameValid: bool, rowInserted: bool, entitled: bool, tupleWritten: bool, committed: bool, roleDeleted: bool)

  /** Where creating a subproject stops, by the order of its calls: the tuple is written last, and the commit is what
      can still fail after it. */
  function ChildEndOf(w: World, parent: ProjectId, fate: Fate): ChildEnd {
    if !IsTopLevel(w, parent) || !fate.nameValid || !fate.rowInserted || !fate.entitled then Refused
    else if !fate.tupleWritten then AdoptFails
    else if !fate.committed then CommitFails
    else Created
  }

  /** Where creating a top-level project stops: the role is written first, deleted again if a later call fails, and kept
      if only the commit fails. */
  function TopEndOf(fate: Fate): TopEnd {
    if !fate.nameValid || !fate.tupleWritten then WriteFails
    else if fate.rowInserted && fate.entitled then if fate.committed then Enrolled else RoleKept
    else if fate.roleDeleted then Undone
    else RoleKept
  }

  class ProjectCreator {
    const authz: AuthzClient
    var projects: map<ProjectId, Option<ProjectId>>
    ghost var used: set<ProjectId>

    constructor (authz: AuthzClient)
      ensures this.authz == authz && projects == map[] && used == {}
    {
      this.authz, projects, used := authz, map[], {};
    }

    ghost function View(): World
      reads this, authz
    {
      World(projects, authz.parents, authz.roles, used)
    }

    /** Creates a subproject in a transaction, writing its parent tuple last. */
    method ProvisionChildProject(parent: ProjectId, id: ProjectId, fate: Fate) returns (ok: bool)
      requires id !in used
      modifies this, authz
      ensures var end := ChildEndOf(old(View()), parent, fate);
              View() == Next(old(View()), ProvisionChild(parent, id, end)) && ok == end.Created?
      ensures ok <==> parent in old(projects) && old(projects)[parent] == None
                      && fate.nameValid && fate.rowInserted && fate.entitled && fate.tupleWritten && fate.committed
      ensures projects == if ok then old(projects)[id := Some(parent)] else old(projects)
      ensures authz.parents == old(authz.parents)
                + if parent in old(projects) && old(projects)[parent] == None
                     && fate.nameValid && fate.rowInserted && fate.entitled && fate.tupleWritten
                  then {(parent, id)} else {}
      ensures authz.roles == old(authz.roles)
    {
      ok := false;
      used := used + {id};
      if parent !in projects {
        return;
      }
      if projects[parent].Some? {
        return;
      }
      if !fate.nameValid || !fate.rowInserted || !fate.entitled {
        return;
      }
      if !fate.tupleWritten {
        return;
      }
      authz.parents := authz.parents + {(parent, id)};
      if !fate.committed {
        return;
      }
      projects := projects[id := Some(parent)];
      ok := true;
    }

    /** Creates a top-level project, writing the creator's role first and deleting it again when a later call fails. */
    method ProvisionSelfEnrolledProject(user: UserId, id: ProjectId, fate: Fate) returns (ok: bool)
      requires id !in used && forall u :: (u, id) !in authz.roles
      modifies this, authz
      ensures View() == Next(old(View()), ProvisionTop(user, id, TopEndOf(fate))) && ok == TopEndOf(fate).Enrolled?
      ensures ok <==> fate.nameValid && fate.tupleWritten && fate.rowInserted && fate.entitled && fate.committed
      ensures projects == if ok then old(projects)[id := None] else old(projects)
      ensures authz.roles == old(authz.roles)
                + if fate.nameValid && fate.tupleWritten && ((fate.rowInserted && fate.entitled) || !fate.roleDeleted)
                  then {(user, id)} else {}
      ensures authz.parents == old(authz.parents)
    {
      ok := false;
      used := used + {id};
      if !fate.nameValid || !fate.tupleWritten {
        return;
      }
      authz.roles := authz.roles + {(user, id)};
      if !fate.rowInserted || !fate.entitled {
        if fate.roleDeleted {
          authz.roles := authz.roles - {(user, id)};
        }
        return;
      }
      if !fate.committed {
        return;
      }
      projects := projects[id := None];
      ok := true;
    }
  }
}
