/**
  The migration plan (internal/migrate/plan.go) and Validate
  (internal/migrate/plan_validate.go): Validate accepts exactly the
  well-formed plans, and every refusal names something true of the plan.
 */
module PlanValidate {
  import opened AssessTypes
  import opened Optional
  import opened DependencyCycle

  datatype Subject = Subject(account: string, region: string, vpc: string) {
    function Identity(): string {
      "aws:" + account + ":" + region + ":" + vpc
    }

    /** The map key of the derivation, which cannot be confused with a rendered identity. */
    function Key(): string {
      account + SEP + region + SEP + vpc
    }

    predicate Complete() {
      account != "" && region != "" && vpc != ""
    }
  }

  datatype Disposition = Replace | Keep | Retire | Undecided | Other(word: string)

  datatype Target = Target(
    tenant: string, key: string, scope: string, environment: string, region: string, account: string,
    prefixLength: Option<int>, parentKey: string)
  {
    predicate Keyed() {
      tenant != "" || key != ""
    }

    predicate Overspecified() {
      scope != "" || environment != "" || region != "" || account != "" || prefixLength.Some? || parentKey != ""
    }
  }

  /** typed stands for the fields a person fills in, which are carried verbatim: owner, approval, blockers, verification, notes. */
  datatype Move = Move(
    subject: Subject, disposition: Disposition, wave: string, dependsOn: seq<Subject>, resolves: seq<string>,
    target: Option<Target>, typed: string, file: string)

  /** typed stands for name, window, owner and approval. */
  datatype Wave = Wave(id: string, typed: string, file: string)

  datatype Plan = Plan(waves: seq<Wave>, moves: seq<Move>)

  datatype Refusal =
    | DuplicateSubject | DuplicateTargetKey | DuplicateWave | IncompleteSubject | UnknownDisposition
    | UndefinedWave | UndefinedDependency | MissingTarget | OverspecifiedTarget | Cycle

  datatype StructuralError = StructuralError(kind: Refusal, file: string, key: string, cycle: seq<string>)

  // ----- what a well-formed plan is -----

  /** Without a colon in the account and the region, two subjects have one identity exactly when they are one VPC. */
  lemma SubjectIdentityIff(s: Subject, t: Subject)
    requires Lacks(s.account, ':') && Lacks(t.account, ':') && Lacks(s.region, ':') && Lacks(t.region, ':')
    ensures s.Identity() == t.Identity() <==> s == t
  {
    assert s.Identity() == "aws:" + (s.account + (":" + (s.region + (":" + s.vpc))));
    assert t.Identity() == "aws:" + (t.account + (":" + (t.region + (":" + t.vpc))));
    if s.Identity() == t.Identity() {
      TailsAgree("aws:", s.account + (":" + (s.region + (":" + s.vpc))), t.account + (":" + (t.region + (":" + t.vpc))));
      FieldAgrees(':', s.account, s.region + (":" + s.vpc), t.account, t.region + (":" + t.vpc));
      FieldAgrees(':', s.region, s.vpc, t.region, t.vpc);
    }
  }

  ghost predicate SubjectsDistinct(moves: seq<Move>) {
    forall i, j :: 0 <= i < j < |moves| ==> moves[i].subject.Identity() != moves[j].subject.Identity()
  }

  predicate SameTarget(a: Move, b: Move) {
    && a.target.Some? && b.target.Some? && b.target.value.Keyed()
    && a.target.value.tenant == b.target.value.tenant && a.target.value.key == b.target.value.key
  }

  /** A keep move may type nothing of its target but the tenant and the key. */
  lemma OverspecifiedIff(t: Target)
    ensures !t.Overspecified() <==> t == Target(t.tenant, t.key, "", "", "", "", None, "")
  {
  }

  lemma SubjectCompleteIff(s: Subject)
    ensures s.Complete() <==> "" !in [s.account, s.region, s.vpc]
  {
  }

  /** Two targets clash exactly when they name one tenant and one key, not both of them empty. */
  lemma SameTargetIff(a: Move, b: Move)
    ensures SameTarget(a, b) <==>
      && a.target.Some? && b.target.Some? && (b.target.value.tenant, b.target.value.key) != ("", "")
      && (a.target.value.tenant, a.target.value.key) == (b.target.value.tenant, b.target.value.key)
  {
  }

  ghost predicate TargetsDistinct(moves: seq<Move>) {
    forall i, j :: 0 <= i < j < |moves| ==> !SameTarget(moves[i], moves[j])
  }

  /** Two definitions of one wave say the same thing, whatever file they are in. */
  ghost predicate WavesAgree(waves: seq<Wave>) {
    forall i, j :: 0 <= i < j < |waves| && waves[i].id == waves[j].id ==> waves[i].typed == waves[j].typed
  }

  ghost predicate WaveDefined(waves: seq<Wave>, id: string) {
    exists i :: 0 <= i < |waves| && waves[i].id == id
  }

  ghost predicate SubjectDefined(moves: seq<Move>, id: string) {
    exists i :: 0 <= i < |moves| && moves[i].subject.Identity() == id
  }

  ghost predicate MoveSound(p: Plan, m: Move) {
    && m.subject.Complete() && !m.disposition.Other? && WaveDefined(p.waves, m.wave)
    && (forall k :: 0 <= k < |m.dependsOn| ==> SubjectDefined(p.moves, m.dependsOn[k].Identity()))
    && (m.disposition == Replace ==> m.target.Some?)
    && (m.disposition == Keep && m.target.Some? ==> !m.target.value.Overspecified())
  }

  function Deps(m: Move): seq<string> {
    seq(|m.dependsOn|, k requires 0 <= k < |m.dependsOn| => m.dependsOn[k].Identity())
  }

  /** The dependency graph: every move's depends_on list, under its subject identity. */
  function Dependencies(moves: seq<Move>): Graph {
    if moves == [] then map[]
    else
      var g, m := Dependencies(moves[..|moves| - 1]), moves[|moves| - 1];
      g[m.subject.Identity() := Succ(g, m.subject.Identity()) + Deps(m)]
  }

  /** Some move of subject u lists v under depends_on. */
  ghost predicate DependsOn(moves: seq<Move>, u: string, v: string) {
    exists i :: 0 <= i < |moves| && moves[i].subject.Identity() == u && v in Deps(moves[i])
  }

  ghost predicate WellFormed(p: Plan) {
    && SubjectsDistinct(p.moves) && TargetsDistinct(p.moves) && WavesAgree(p.waves)
    && (forall i :: 0 <= i < |p.moves| ==> MoveSound(p, p.moves[i]))
    && Orderable(p.moves)
  }

  /** The moves can be numbered so that each comes after everything it depends on. */
  ghost predicate Orderable(moves: seq<Move>) {
    exists rank: map<string, nat> :: Numbers(moves, rank)
  }

  ghost predicate Numbers(moves: seq<Move>, rank: map<string, nat>) {
    forall u, v :: DependsOn(moves, u, v) ==> u in rank && v in rank && rank[v] < rank[u]
  }

  /** Why one move is refused with the given kind and key. */
  ghost predicate Faulty(p: Plan, m: Move, kind: Refusal, key: string) {
    match kind
    case IncompleteSubject => !m.subject.Complete() && key == m.subject.Identity()
    case UnknownDisposition => m.disposition.Other? && key == m.subject.Identity()
    case UndefinedWave => !WaveDefined(p.waves, m.wave) && key == m.wave
    case UndefinedDependency => key in Deps(m) && !SubjectDefined(p.moves, key)
    case MissingTarget => m.disposition == Replace && m.target.None? && key == m.subject.Identity()
    case OverspecifiedTarget =>
      m.disposition == Keep && m.target.Some? && m.target.value.Overspecified() && key == m.subject.Identity()
    case _ => false
  }

  ghost predicate Walks(moves: seq<Move>, cycle: seq<string>) {
    && |cycle| >= 2 && cycle[0] == cycle[|cycle| - 1]
    && forall k, l :: 0 <= k && l == k + 1 < |cycle| ==> DependsOn(moves, cycle[k], cycle[l])
  }

  /** A closed walk along depends_on, reported under its closing subject with the file of the move that closes it. */
  ghost predicate CircleReported(moves: seq<Move>, e: StructuralError) {
    && Walks(moves, e.cycle) && e.key == e.cycle[|e.cycle| - 1]
    && exists i :: 0 <= i < |moves| && moves[i].subject.Identity() == e.cycle[|e.cycle| - 2] && moves[i].file == e.file
  }

  /** What each kind of refusal asserts about the plan. */
  ghost predicate Justified(p: Plan, e: StructuralError) {
    match e.kind
    case DuplicateSubject =>
      exists i, j :: 0 <= i < j < |p.moves| && e.file == p.moves[j].file &&
        p.moves[i].subject.Identity() == p.moves[j].subject.Identity() == e.key
    case DuplicateTargetKey =>
      exists i, j :: 0 <= i < j < |p.moves| && e.file == p.moves[j].file && SameTarget(p.moves[i], p.moves[j]) &&
        e.key == p.moves[j].target.value.tenant + "/" + p.moves[j].target.value.key
    case DuplicateWave =>
      exists i, j :: 0 <= i < j < |p.waves| && e.file == p.waves[j].file &&
        p.waves[i].id == p.waves[j].id == e.key && p.waves[i].typed != p.waves[j].typed
    case Cycle =>
      CircleReported(p.moves, e)
    case _ =>
      exists i :: 0 <= i < |p.moves| && e.file == p.moves[i].file && Faulty(p, p.moves[i], e.kind, e.key)
  }

  // ----- the checks -----

  method CheckSubjects(moves: seq<Move>) returns (bad: Option<nat>)
    ensures bad.None? <==> SubjectsDistinct(moves)
    ensures bad.Some? ==> bad.value < |moves|
    ensures bad.Some? ==> exists i :: 0 <= i < bad.value && moves[i].subject.Identity() == moves[bad.value].subject.Identity()
  {
    var seen: map<string, nat> := map[];
    for j := 0 to |moves|
      invariant SubjectsDistinct(moves[..j])
      invariant forall i :: 0 <= i < j ==> moves[i].subject.Identity() in seen
      invariant forall id :: id in seen ==> seen[id] < j && moves[seen[id]].subject.Identity() == id
    {
      var id := moves[j].subject.Identity();
      if id in seen {
        assert moves[seen[id]].subject.Identity() == id;
        return Some(j);
      }
      seen := seen[id := j];
    }
    assert moves[..|moves|] == moves;
    return None;
  }

  method CheckTargets(moves: seq<Move>) returns (bad: Option<nat>)
    ensures bad.None? <==> TargetsDistinct(moves)
    ensures bad.Some? ==> bad.value < |moves| && exists i :: 0 <= i < bad.value && SameTarget(moves[i], moves[bad.value])
  {
    var seen: map<(string, string), nat> := map[];
    for j := 0 to |moves|
      invariant TargetsDistinct(moves[..j])
      invariant forall i :: 0 <= i < j && moves[i].target.Some? && moves[i].target.value.Keyed() ==>
        (moves[i].target.value.tenant, moves[i].target.value.key) in seen
      invariant forall k :: k in seen ==> seen[k] < j && moves[seen[k]].target.Some?
      invariant forall k :: k in seen ==> moves[seen[k]].target.value.tenant == k.0 && moves[seen[k]].target.value.key == k.1
    {
      var m := moves[j];
      if m.target.None? || !m.target.value.Keyed() {
        continue;
      }
      var k := (m.target.value.tenant, m.target.value.key);
      if k in seen {
        assert SameTarget(moves[seen[k]], moves[j]);
        return Some(j);
      }
      seen := seen[k := j];
    }
    assert moves[..|moves|] == moves;
    return None;
  }

  /** seen maps each wave id of the first j definitions to its first one, and the others say the same. */
  ghost predicate WavesSeen(waves: seq<Wave>, j: nat, seen: map<string, nat>)
    requires j <= |waves|
  {
    && (forall id :: id in seen ==> seen[id] < j && waves[seen[id]].id == id)
    && (forall i :: 0 <= i < j ==> waves[i].id in seen && waves[i].typed == waves[seen[waves[i].id]].typed)
  }

  lemma WavesSeenMeans(waves: seq<Wave>, seen: map<string, nat>)
    requires WavesSeen(waves, |waves|, seen)
    ensures WavesAgree(waves) && forall id :: id in seen <==> WaveDefined(waves, id)
  {
    forall id | id in seen ensures WaveDefined(waves, id) {
      assert waves[seen[id]].id == id;
    }
  }

  method CheckWaves(waves: seq<Wave>) returns (bad: Option<nat>, ids: set<string>)
    ensures bad.None? <==> WavesAgree(waves)
    ensures bad.Some? ==> bad.value < |waves|
    ensures bad.Some? ==>
      exists i :: 0 <= i < bad.value && waves[i].id == waves[bad.value].id && waves[i].typed != waves[bad.value].typed
    ensures bad.None? ==> forall id :: id in ids <==> WaveDefined(waves, id)
  {
    var seen: map<string, nat> := map[];
    ids := {};
    for j := 0 to |waves|
      invariant WavesSeen(waves, j, seen) && ids == seen.Keys
    {
      var w := waves[j];
      if w.id in seen {
        if waves[seen[w.id]].typed != w.typed {
          return Some(j), ids;
        }
        continue;
      }
      ids := ids + {w.id};
      seen := seen[w.id := j];
    }
    WavesSeenMeans(waves, seen);
    return None, ids;
  }

  /** The per-move refusals, in the order they are tested. */
  method CheckMove(ghost p: Plan, m: Move, waves: set<string>, subjects: set<string>) returns (e: Option<StructuralError>)
    requires forall id :: id in waves <==> WaveDefined(p.waves, id)
    requires forall id :: id in subjects <==> SubjectDefined(p.moves, id)
    ensures e.None? <==> MoveSound(p, m)
    ensures e.Some? ==> e.value.file == m.file && Faulty(p, m, e.value.kind, e.value.key)
  {
    if !m.subject.Complete() {
      return Some(StructuralError(IncompleteSubject, m.file, m.subject.Identity(), []));
    }
    if m.disposition.Other? {
      return Some(StructuralError(UnknownDisposition, m.file, m.subject.Identity(), []));
    }
    if m.wave !in waves {
      return Some(StructuralError(UndefinedWave, m.file, m.wave, []));
    }
    for k := 0 to |m.dependsOn|
      invariant forall j :: 0 <= j < k ==> SubjectDefined(p.moves, m.dependsOn[j].Identity())
    {
      var dep := m.dependsOn[k].Identity();
      if dep !in subjects {
        assert Deps(m)[k] == dep;
        return Some(StructuralError(UndefinedDependency, m.file, dep, []));
      }
    }
    if m.disposition == Replace && m.target.None? {
      return Some(StructuralError(MissingTarget, m.file, m.subject.Identity(), []));
    }
    if m.disposition == Keep && m.target.Some? && m.target.value.Overspecified() {
      return Some(StructuralError(OverspecifiedTarget, m.file, m.subject.Identity(), []));
    }
    return None;
  }

  method Subjects(moves: seq<Move>) returns (ids: seq<string>, subjects: set<string>)
    ensures |ids| == |moves| && forall i :: 0 <= i < |moves| ==> ids[i] == moves[i].subject.Identity()
    ensures forall id :: id in subjects <==> SubjectDefined(moves, id)
  {
    ids := seq(|moves|, i requires 0 <= i < |moves| => moves[i].subject.Identity());
    subjects := set id | id in ids;
  }

  lemma {:induction false} DependencyKeys(moves: seq<Move>, u: string)
    ensures u in Dependencies(moves) <==> SubjectDefined(moves, u)
    decreases |moves|
  {
    if moves != [] {
      var init, m := moves[..|moves| - 1], moves[|moves| - 1];
      DependencyKeys(init, u);
      if SubjectDefined(init, u) {
        var i :| 0 <= i < |init| && init[i].subject.Identity() == u;
        assert moves[i].subject.Identity() == u;
      }
      if SubjectDefined(moves, u) {
        var i :| 0 <= i < |moves| && moves[i].subject.Identity() == u;
        assert i < |init| ==> init[i].subject.Identity() == u;
      }
    }
  }

  /** v depends on u in the graph exactly when some move says so. */
  lemma {:induction false} DependencyEdges(moves: seq<Move>, u: string, v: string)
    ensures Edge(Dependencies(moves), u, v) <==> DependsOn(moves, u, v)
    decreases |moves|
  {
    if moves != [] {
      var init, m := moves[..|moves| - 1], moves[|moves| - 1];
      DependencyEdges(init, u, v);
      if Edge(Dependencies(init), u, v) {
        var i :| 0 <= i < |init| && init[i].subject.Identity() == u && v in Deps(init[i]);
        assert moves[i] == init[i];
      }
      if i :| 0 <= i < |moves| && moves[i].subject.Identity() == u && v in Deps(moves[i]) {
        assert i < |init| ==> init[i] == moves[i];
      }
    }
  }

  /** The graph has a topological rank exactly when the moves can be numbered. */
  lemma AcyclicOrders(moves: seq<Move>)
    ensures Acyclic(Dependencies(moves)) <==> Orderable(moves)
  {
    var g := Dependencies(moves);
    forall u, v ensures u in g && Edge(g, u, v) <==> DependsOn(moves, u, v) {
      DependencyEdges(moves, u, v);
    }
    if rank :| Ranks(g, rank) {
      assert Numbers(moves, rank);
    }
    if rank: map<string, nat> :| Numbers(moves, rank) {
      assert Ranks(g, rank);
    }
  }

  /** A cycle of the graph is a closed walk along depends_on. */
  lemma CycleWalks(moves: seq<Move>, cycle: seq<string>)
    requires IsCycle(Dependencies(moves), cycle)
    ensures Walks(moves, cycle) && SubjectDefined(moves, cycle[|cycle| - 2])
  {
    forall k, l | 0 <= k && l == k + 1 < |cycle| ensures DependsOn(moves, cycle[k], cycle[l]) {
      assert Edge(Dependencies(moves), cycle[k], cycle[l]);
      DependencyEdges(moves, cycle[k], cycle[l]);
    }
    DependencyKeys(moves, cycle[|cycle| - 2]);
    assert Edge(Dependencies(moves), cycle[|cycle| - 2], cycle[|cycle| - 1]);
  }

  /** The adjacency map, filled move by move. */
  method BuildGraph(moves: seq<Move>) returns (g: Graph)
    ensures g == Dependencies(moves)
  {
    g := map[];
    for i := 0 to |moves|
      invariant g == Dependencies(moves[..i])
    {
      assert moves[..i + 1][..i] == moves[..i];
      var id := moves[i].subject.Identity();
      g := g[id := Succ(g, id) + Deps(moves[i])];
    }
    assert moves[..|moves|] == moves;
  }

  method FileOf(moves: seq<Move>, id: string) returns (file: string)
    ensures (exists i :: 0 <= i < |moves| && moves[i].subject.Identity() == id && moves[i].file == file) ||
            (!SubjectDefined(moves, id) && file == "")
  {
    file := "";
    for i := 0 to |moves|
      invariant (exists k :: 0 <= k < i && moves[k].subject.Identity() == id && moves[k].file == file) ||
                ((forall k :: 0 <= k < i ==> moves[k].subject.Identity() != id) && file == "")
    {
      if moves[i].subject.Identity() == id {
        file := moves[i].file;
      }
    }
  }

  method CheckCycle(p: Plan, ids: seq<string>) returns (e: Option<StructuralError>)
    requires |ids| == |p.moves| && forall i :: 0 <= i < |ids| ==> ids[i] == p.moves[i].subject.Identity()
    ensures e.None? <==> Orderable(p.moves)
    ensures e.Some? ==> e.value.kind == Cycle && Justified(p, e.value)
  {
    var g := BuildGraph(p.moves);
    forall u | u in g ensures u in ids {
      DependencyKeys(p.moves, u);
      var i :| 0 <= i < |p.moves| && p.moves[i].subject.Identity() == u;
      assert ids[i] == u;
    }
    var cycle := FindCycle(g, ids);
    AcyclicOrders(p.moves);
    if cycle == [] {
      return None;
    }
    var file := FileOf(p.moves, cycle[|cycle| - 2]);
    CycleWalks(p.moves, cycle);
    e := Some(StructuralError(Cycle, file, cycle[|cycle| - 1], cycle));
  }

  /** The first refusal in the fixed order, or none exactly for a well-formed plan. */
  method Validate(p: Plan) returns (e: Option<StructuralError>)
    ensures e.None? <==> WellFormed(p)
    ensures e.Some? ==> Justified(p, e.value)
  {
    var bad := CheckSubjects(p.moves);
    if bad.Some? {
      var m := p.moves[bad.value];
      return Some(StructuralError(DuplicateSubject, m.file, m.subject.Identity(), []));
    }
    bad := CheckTargets(p.moves);
    if bad.Some? {
      var m := p.moves[bad.value];
      return Some(StructuralError(DuplicateTargetKey, m.file, m.target.value.tenant + "/" + m.target.value.key, []));
    }
    var waves;
    bad, waves := CheckWaves(p.waves);
    if bad.Some? {
      return Some(StructuralError(DuplicateWave, p.waves[bad.value].file, p.waves[bad.value].id, []));
    }
    var ids, subjects := Subjects(p.moves);
    for i := 0 to |p.moves|
      invariant forall k :: 0 <= k < i ==> MoveSound(p, p.moves[k])
    {
      e := CheckMove(p, p.moves[i], waves, subjects);
      if e.Some? {
        assert Faulty(p, p.moves[i], e.value.kind, e.value.key);
        return;
      }
    }
    e := CheckCycle(p, ids);
  }
}
