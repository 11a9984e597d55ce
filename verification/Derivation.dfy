/**
  Derived migration progress: internal/migrate/derive.go, derive_facts.go and
  evidence.go, the derived counts of report.go, and progressClean of
  internal/onboardcmd/progress.go.
 */
module Derivation {
  import opened Ordering
  import opened AssessTypes
  import opened Optional
  import opened Sweep
  import Associations
  import opened Coverage
  import opened Assessment
  import opened PlanValidate

  const STATE_ACTIVE := "ACTIVE"
  const STATE_QUARANTINED := "QUARANTINED"
  const STATE_RELEASED := "RELEASED"
  const SCOPE_OPERATOR := "operator"

  // ----- allocation evidence -----

  datatype Allocation = Allocation(
    tenant: string, key: string, scope: string, environment: string, region: string, account: string,
    prefixLength: int, parentKey: string, state: string, verifiedAt: Option<string>)
  {
    predicate Verified() {
      state == STATE_ACTIVE && verifiedAt.Some? && verifiedAt.value != ""
    }
  }

  datatype EvidenceFile = EvidenceFile(scope: string, path: string, allocations: seq<Allocation>)

  datatype Index = Index(
    files: seq<EvidenceFile>, scopes: set<string>, hasOperator: bool, anyScopeMissing: bool,
    byKey: map<(string, string), Allocation>)
  {
    /** An operator export covers every tenant, a tenant export that tenant, and one without a scope nothing. */
    predicate VisibleForTenant(tenant: string) {
      hasOperator || tenant in scopes
    }

    function Lookup(tenant: string, key: string): Option<Allocation> {
      if (tenant, key) in byKey then Some(byKey[(tenant, key)]) else None
    }

    predicate Complete(coverageComplete: bool, tenants: set<string>) {
      coverageComplete && files != [] && forall t :: t in tenants ==> VisibleForTenant(t)
    }
  }

  predicate PathLess(a: EvidenceFile, b: EvidenceFile) {
    StrLess(a.path, b.path)
  }

  /** Allocations folded in file order and row order: the last one under a key stands. */
  function FoldRows(m: map<(string, string), Allocation>, rows: seq<Allocation>): map<(string, string), Allocation> {
    if rows == [] then m
    else
      var a := rows[|rows| - 1];
      FoldRows(m, rows[..|rows| - 1])[(a.tenant, a.key) := a]
  }

  function FoldFiles(files: seq<EvidenceFile>): map<(string, string), Allocation> {
    if files == [] then map[] else FoldRows(FoldFiles(files[..|files| - 1]), files[|files| - 1].allocations)
  }

  ghost predicate HasScope(files: seq<EvidenceFile>, t: string) {
    exists f :: f in files && f.scope == t
  }

  lemma HasScopeStep(files: seq<EvidenceFile>, f: EvidenceFile)
    ensures forall t :: HasScope(files + [f], t) <==> HasScope(files, t) || t == f.scope
  {
    assert f in files + [f];
    forall t ensures HasScope(files + [f], t) <==> HasScope(files, t) || t == f.scope {
      if HasScope(files, t) {
        var g :| g in files && g.scope == t;
        assert g in files + [f];
      }
    }
  }

  ghost predicate IsIndex(files: seq<EvidenceFile>, idx: Index) {
    && idx.files == Sort(PathLess, files)
    && (forall t :: t in idx.scopes <==> t != "" && HasScope(files, t))
    && (idx.hasOperator <==> HasScope(files, SCOPE_OPERATOR))
    && (idx.anyScopeMissing <==> HasScope(files, ""))
    && idx.byKey == FoldFiles(idx.files)
  }

  method IndexRows(m: map<(string, string), Allocation>, rows: seq<Allocation>) returns (out: map<(string, string), Allocation>)
    ensures out == FoldRows(m, rows)
  {
    out := m;
    for i := 0 to |rows|
      invariant out == FoldRows(m, rows[..i])
    {
      assert rows[..i + 1][..i] == rows[..i];
      out := out[(rows[i].tenant, rows[i].key) := rows[i]];
    }
    assert rows[..|rows|] == rows;
  }

  /** One file folded in: its scope, then its rows. */
  method AddFile(idx: Index, f: EvidenceFile) returns (out: Index)
    ensures out.files == idx.files && out.byKey == FoldRows(idx.byKey, f.allocations)
    ensures out.scopes == idx.scopes + (if f.scope == "" then {} else {f.scope})
    ensures out.hasOperator == (idx.hasOperator || f.scope == SCOPE_OPERATOR)
    ensures out.anyScopeMissing == (idx.anyScopeMissing || f.scope == "")
  {
    out := idx;
    if f.scope == "" {
      out := out.(anyScopeMissing := true);
    } else {
      out := out.(scopes := out.scopes + {f.scope});
      if f.scope == SCOPE_OPERATOR {
        out := out.(hasOperator := true);
      }
    }
    var byKey := IndexRows(idx.byKey, f.allocations);
    out := out.(byKey := byKey);
  }

  ghost predicate ScopesRead(files: seq<EvidenceFile>, idx: Index) {
    && (forall t :: t in idx.scopes <==> t != "" && HasScope(files, t))
    && (idx.hasOperator <==> HasScope(files, SCOPE_OPERATOR))
    && (idx.anyScopeMissing <==> HasScope(files, ""))
  }

  lemma ScopesStep(files: seq<EvidenceFile>, f: EvidenceFile, idx: Index, out: Index)
    requires ScopesRead(files, idx)
    requires out.scopes == idx.scopes + (if f.scope == "" then {} else {f.scope})
    requires out.hasOperator == (idx.hasOperator || f.scope == SCOPE_OPERATOR)
    requires out.anyScopeMissing == (idx.anyScopeMissing || f.scope == "")
    ensures ScopesRead(files + [f], out)
  {
    HasScopeStep(files, f);
  }

  method IndexFiles(sorted: seq<EvidenceFile>) returns (idx: Index)
    ensures idx.files == sorted && idx.byKey == FoldFiles(sorted) && ScopesRead(sorted, idx)
  {
    idx := Index(sorted, {}, false, false, map[]);
    for i := 0 to |sorted|
      invariant idx.files == sorted && idx.byKey == FoldFiles(sorted[..i])
      invariant ScopesRead(sorted[..i], idx)
    {
      assert sorted[..i + 1] == sorted[..i] + [sorted[i]] && sorted[..i + 1][..i] == sorted[..i];
      var next := AddFile(idx, sorted[i]);
      ScopesStep(sorted[..i], sorted[i], idx, next);
      idx := next;
    }
    assert sorted[..|sorted|] == sorted;
  }

  method BuildEvidenceIndex(files: seq<EvidenceFile>) returns (idx: Index)
    ensures IsIndex(files, idx)
  {
    var sorted := Sort(PathLess, files);
    idx := IndexFiles(sorted);
    SameScopes(sorted, files);
  }

  lemma SameScopes(a: seq<EvidenceFile>, b: seq<EvidenceFile>)
    requires multiset(a) == multiset(b)
    ensures forall t :: HasScope(a, t) <==> HasScope(b, t)
  {
    forall f ensures f in a <==> f in b {
      InMultiset(a, f);
      InMultiset(b, f);
    }
  }

  lemma {:induction false} FoldRowsFrom(m: map<(string, string), Allocation>, rows: seq<Allocation>, k: (string, string))
    requires k in FoldRows(m, rows)
    ensures var a := FoldRows(m, rows)[k]; (k in m && a == m[k]) || (a in rows && (a.tenant, a.key) == k)
    decreases |rows|
  {
    if rows != [] && k != (rows[|rows| - 1].tenant, rows[|rows| - 1].key) {
      FoldRowsFrom(m, rows[..|rows| - 1], k);
    }
  }

  /** Whatever the index holds under a key is a row of a supplied file, under that key. */
  lemma {:induction false} FoldFilesFrom(files: seq<EvidenceFile>, k: (string, string))
    requires k in FoldFiles(files)
    ensures exists f :: f in files && FoldFiles(files)[k] in f.allocations
    ensures (FoldFiles(files)[k].tenant, FoldFiles(files)[k].key) == k
    decreases |files|
  {
    var init, f := files[..|files| - 1], files[|files| - 1];
    FoldRowsFrom(FoldFiles(init), f.allocations, k);
    if k in FoldFiles(init) {
      FoldFilesFrom(init, k);
    }
  }

  /** With distinct paths, the index does not depend on the order the files were given in. */
  lemma IndexOrderIndependent(files: seq<EvidenceFile>, shuffled: seq<EvidenceFile>, a: Index, b: Index)
    requires multiset(files) == multiset(shuffled) && IsIndex(files, a) && IsIndex(shuffled, b)
    requires forall f, g :: f in files && g in files && f.path == g.path ==> f == g
    ensures a == b
  {
    SameScopes(files, shuffled);
    assert Orders(PathLess) by {
      forall x: EvidenceFile, y: EvidenceFile ensures PathLess(x, y) ==> !PathLess(y, x) { StrOrder(x.path, y.path); }
      forall x: EvidenceFile, y: EvidenceFile, z: EvidenceFile | !PathLess(y, x) && !PathLess(z, y) ensures !PathLess(z, x) {
        StrTransitive(x.path, y.path, z.path);
      }
    }
    SortSorts(PathLess, files);
    SortSorts(PathLess, shuffled);
    forall x, y | x in a.files && y in a.files && !PathLess(x, y) && !PathLess(y, x) ensures x == y {
      InMultiset(a.files, x);
      InMultiset(a.files, y);
      InMultiset(files, x);
      InMultiset(files, y);
      StrOrder(x.path, y.path);
    }
    SortedUnique(PathLess, a.files, b.files);
    assert a.scopes == b.scopes;
  }

  // ----- the three facts -----

  datatype SubjectFact = Seen | NotObserved | Unknowable

  datatype TargetFact = NoTarget | Reserved | Active | Retired | Mismatched | Unseen

  /** Some coverage entry stops a complete statement about this account and region. */
  predicate IncompleteFor(c: Coverage, account: string, region: string) {
    || c.runMissing || c.accountsMissing
    || (exists i :: 0 <= i < |c.failed| && c.failed[i].account == account && (c.failed[i].region == "" || c.failed[i].region == region))
    || (exists i :: 0 <= i < |c.partial| && c.partial[i] == AccountRegion(account, region))
    || (exists i :: 0 <= i < |c.notAttempted| && c.notAttempted[i].account == account &&
          (c.notAttempted[i].region == "" || c.notAttempted[i].region == region))
    || (exists i :: 0 <= i < |c.short| && c.short[i].account == account && c.short[i].region == region)
  }

  /** The fact, and whether the subject's account was never listed at all. */
  function SubjectFactOf(s: Subject, c: Coverage, subjects: set<string>, accounts: set<string>): (SubjectFact, bool) {
    if s.Key() in subjects then (Seen, false)
    else if s.account !in accounts then (Unknowable, true)
    else if IncompleteFor(c, s.account, s.region) then (Unknowable, false)
    else (NotObserved, false)
  }

  predicate Mismatches(t: Target, a: Allocation) {
    || t.scope != a.scope || t.environment != a.environment || t.region != a.region || t.account != a.account
    || t.prefixLength != Some(a.prefixLength) || t.parentKey != a.parentKey
  }

  function TargetFactOf(m: Move, idx: Index): TargetFact {
    if m.target.None? then NoTarget
    else
      var t := m.target.value;
      if !idx.VisibleForTenant(t.tenant) then Unseen
      else
        match idx.Lookup(t.tenant, t.key)
        case None => NoTarget
        case Some(a) =>
          if a.state == STATE_QUARANTINED || a.state == STATE_RELEASED then Retired
          else if m.disposition != Keep && Mismatches(t, a) then Mismatched
          else if a.Verified() then Active
          else Reserved
  }

  datatype Resolve = Resolve(id: string, present: bool)

  predicate FullyEvidenced(subject: SubjectFact, target: TargetFact, resolves: seq<Resolve>, unclaimed: seq<string>) {
    && subject == NotObserved && target == Active && unclaimed == []
    && forall r :: r in resolves ==> !r.present
  }

  datatype MoveResult = MoveResult(
    subject: string, wave: string, disposition: Disposition, subjectFact: SubjectFact, unmatched: bool,
    targetFact: TargetFact, resolves: seq<Resolve>, unclaimed: seq<string>, fullyEvidenced: bool, keepBlocked: bool)

  // ----- conflicts and subjects -----

  function SideKey(s: Side): string {
    Subject(s.account, s.region, s.vpc).Key()
  }

  /** Some side of the conflict that is not fixed has this subject key. */
  ghost predicate Touches(c: Conflict, key: string) {
    TouchesBelow(c, |c.sides|, key)
  }

  predicate SideTouches(s: Side, key: string) {
    !s.fixed && SideKey(s) == key
  }

  function At(touching: map<string, seq<Conflict>>, key: string): seq<Conflict> {
    if key in touching then touching[key] else []
  }

  ghost predicate IsTouching(conflicts: seq<Conflict>, touching: map<string, seq<Conflict>>) {
    forall key, c :: c in At(touching, key) <==> c in conflicts && Touches(c, key)
  }

  /** Some VPC row of the inventory has this subject key. */
  ghost predicate KnownSubject(input: Input, key: string) {
    KnownBelow(input, |input.records|, key)
  }

  ghost predicate KnownAccount(input: Input, account: string) {
    exists i :: 0 <= i < |input.accounts| && input.accounts[i].account == account
  }

  method KnownSubjects(input: Input) returns (keys: set<string>)
    ensures forall k :: k in keys <==> KnownSubject(input, k)
  {
    keys := {};
    for n := 0 to |input.records|
      invariant forall k :: k in keys <==> KnownBelow(input, n, k)
    {
      var r := input.records[n];
      KnownStep(input, n);
      if r.kind == TYPE_VPC {
        keys := keys + {Subject(r.account, r.region, r.resource).Key()};
      }
    }
  }

  ghost predicate NamesSubject(r: Record, key: string) {
    r.kind == TYPE_VPC && Subject(r.account, r.region, r.resource).Key() == key
  }

  ghost predicate KnownBelow(input: Input, n: nat, key: string)
    requires n <= |input.records|
  {
    exists i :: 0 <= i < n && NamesSubject(input.records[i], key)
  }

  lemma KnownStep(input: Input, n: nat)
    requires n < |input.records|
    ensures forall k :: KnownBelow(input, n + 1, k) <==> KnownBelow(input, n, k) || NamesSubject(input.records[n], k)
  {
    forall k ensures KnownBelow(input, n + 1, k) <==> KnownBelow(input, n, k) || NamesSubject(input.records[n], k) {
      if KnownBelow(input, n, k) {
        var i :| 0 <= i < n && NamesSubject(input.records[i], k);
        assert 0 <= i < n + 1;
      }
    }
  }

  method KnownAccounts(input: Input) returns (ids: set<string>)
    ensures forall a :: a in ids <==> KnownAccount(input, a)
  {
    ids := {};
    for n := 0 to |input.accounts|
      invariant forall a :: a in ids <==> exists i :: 0 <= i < n && input.accounts[i].account == a
    {
      ids := ids + {input.accounts[n].account};
    }
  }

  ghost predicate TouchesBelow(c: Conflict, n: nat, key: string)
    requires n <= |c.sides|
  {
    exists i :: 0 <= i < n && SideTouches(c.sides[i], key)
  }

  lemma TouchesStep(c: Conflict, n: nat)
    requires n < |c.sides|
    ensures forall k :: TouchesBelow(c, n + 1, k) <==> TouchesBelow(c, n, k) || SideTouches(c.sides[n], k)
  {
    forall k ensures TouchesBelow(c, n + 1, k) <==> TouchesBelow(c, n, k) || SideTouches(c.sides[n], k) {
      if TouchesBelow(c, n, k) {
        var i :| 0 <= i < n && SideTouches(c.sides[i], k);
        assert 0 <= i < n + 1;
      }
    }
  }

  /** The subject keys of the sides that are not fixed. */
  method SideKeys(c: Conflict) returns (keys: set<string>)
    ensures forall k :: k in keys <==> Touches(c, k)
  {
    keys := {};
    for n := 0 to |c.sides|
      invariant forall k :: k in keys <==> TouchesBelow(c, n, k)
    {
      TouchesStep(c, n);
      if c.sides[n].fixed {
        continue;
      }
      keys := keys + {SideKey(c.sides[n])};
    }
  }

  method FileUnder(touching: map<string, seq<Conflict>>, keys: set<string>, c: Conflict) returns (out: map<string, seq<Conflict>>)
    ensures forall key, x :: x in At(out, key) <==> x in At(touching, key) || (key in keys && x == c)
  {
    out := touching;
    var rest := keys;
    while rest != {}
      invariant rest <= keys
      invariant forall key :: At(out, key) == At(touching, key) + (if key in keys && key !in rest then [c] else [])
      decreases rest
    {
      var k :| k in rest;
      ghost var was := out;
      out := out[k := At(out, k) + [c]];
      assert forall key :: key != k ==> At(out, key) == At(was, key);
      rest := rest - {k};
    }
  }

  /** Every conflict under the key of each subject it touches. */
  method TouchingConflicts(conflicts: seq<Conflict>) returns (touching: map<string, seq<Conflict>>)
    ensures IsTouching(conflicts, touching)
  {
    touching := map[];
    for n := 0 to |conflicts|
      invariant IsTouching(conflicts[..n], touching)
    {
      var c := conflicts[n];
      assert conflicts[..n + 1] == conflicts[..n] + [c];
      var keys := SideKeys(c);
      touching := FileUnder(touching, keys, c);
    }
    assert conflicts[..|conflicts|] == conflicts;
  }

  ghost predicate Reported(conflicts: seq<Conflict>, id: string) {
    exists i :: 0 <= i < |conflicts| && conflicts[i].id == id
  }

  method ConflictIds(conflicts: seq<Conflict>) returns (ids: set<string>)
    ensures forall id :: id in ids <==> Reported(conflicts, id)
  {
    ids := {};
    for n := 0 to |conflicts|
      invariant forall id :: id in ids <==> exists i :: 0 <= i < n && conflicts[i].id == id
    {
      ids := ids + {conflicts[n].id};
    }
  }

  ghost function IdsOf(resolves: seq<Resolve>): set<string> {
    set r | r in resolves :: r.id
  }

  lemma IdsAppend(resolves: seq<Resolve>, r: Resolve)
    ensures IdsOf(resolves + [r]) == IdsOf(resolves) + {r.id}
  {
    forall id ensures id in IdsOf(resolves + [r]) <==> id in IdsOf(resolves) || id == r.id {
      if id in IdsOf(resolves) {
        var x :| x in resolves && x.id == id;
        assert x in resolves + [r];
      }
      assert r in resolves + [r];
    }
  }

  /** Each claimed id once, present exactly when the assessment still reports it. */
  ghost predicate IsResolved(claims: seq<string>, conflicts: seq<Conflict>, resolves: seq<Resolve>) {
    && IdsOf(resolves) == (set id | id in claims) && |IdsOf(resolves)| == |resolves|
    && forall r :: r in resolves ==> (r.present <==> Reported(conflicts, r.id))
  }

  /** The conflicts touching the subject that the move does not claim. */
  ghost predicate IsUnclaimed(m: Move, conflicts: seq<Conflict>, unclaimed: seq<string>) {
    forall id :: id in unclaimed <==>
      id !in m.resolves && exists c :: c in conflicts && c.id == id && Touches(c, m.subject.Key())
  }

  method ResolveClaims(claims: seq<string>, ghost conflicts: seq<Conflict>, reported: set<string>) returns (resolves: seq<Resolve>)
    requires forall id :: id in reported <==> Reported(conflicts, id)
    ensures IsResolved(claims, conflicts, resolves)
  {
    var ids := Sort(StrLess, claims);
    forall id ensures id in ids <==> id in claims {
      InMultiset(ids, id);
      InMultiset(claims, id);
    }
    resolves := ResolveIds(ids, conflicts, reported);
    assert (set id | id in ids) == (set id | id in claims);
  }

  method ResolveIds(ids: seq<string>, ghost conflicts: seq<Conflict>, reported: set<string>) returns (resolves: seq<Resolve>)
    requires forall id :: id in reported <==> Reported(conflicts, id)
    ensures IsResolved(ids, conflicts, resolves)
  {
    resolves := [];
    var seen: set<string> := {};
    for n := 0 to |ids|
      invariant seen == IdsOf(resolves) && |seen| == |resolves|
      invariant forall id :: id in seen <==> id in ids[..n]
      invariant forall r :: r in resolves ==> (r.present <==> Reported(conflicts, r.id))
    {
      assert ids[..n + 1] == ids[..n] + [ids[n]];
      if ids[n] in seen {
        continue;
      }
      IdsAppend(resolves, Resolve(ids[n], ids[n] in reported));
      seen := seen + {ids[n]};
      resolves := resolves + [Resolve(ids[n], ids[n] in reported)];
    }
    assert ids[..|ids|] == ids;
  }

  method MoveConflictResults(m: Move, ghost conflicts: seq<Conflict>, touching: map<string, seq<Conflict>>, reported: set<string>)
    returns (resolves: seq<Resolve>, unclaimed: seq<string>)
    requires IsTouching(conflicts, touching) && forall id :: id in reported <==> Reported(conflicts, id)
    ensures IsResolved(m.resolves, conflicts, resolves)
    ensures IsUnclaimed(m, conflicts, unclaimed)
  {
    resolves := ResolveClaims(m.resolves, conflicts, reported);
    var ids := UnclaimedIds(At(touching, m.subject.Key()), m.resolves);
    unclaimed := Sort(StrLess, ids);
    forall id ensures id in unclaimed <==> id in ids {
      InMultiset(unclaimed, id);
      InMultiset(ids, id);
    }
    TouchingAt(conflicts, touching, m.subject.Key());
  }

  method UnclaimedIds(mine: seq<Conflict>, claims: seq<string>) returns (ids: seq<string>)
    ensures forall id :: id in ids <==> id !in claims && exists c :: c in mine && c.id == id
  {
    ids := [];
    for n := 0 to |mine|
      invariant forall id :: id in ids <==> id !in claims && exists c :: c in mine[..n] && c.id == id
    {
      assert mine[..n + 1] == mine[..n] + [mine[n]];
      if mine[n].id !in claims {
        ids := ids + [mine[n].id];
      }
    }
    assert mine[..|mine|] == mine;
  }

  lemma TouchingAt(conflicts: seq<Conflict>, touching: map<string, seq<Conflict>>, key: string)
    requires IsTouching(conflicts, touching)
    ensures forall c :: c in At(touching, key) <==> c in conflicts && Touches(c, key)
    ensures At(touching, key) != [] <==> exists c :: c in conflicts && Touches(c, key)
  {
    if At(touching, key) != [] {
      assert At(touching, key)[0] in At(touching, key);
    }
  }

  // ----- the report -----

  /** Everything the derivation says about one move, against its inputs. */
  ghost predicate IsDerived(m: Move, input: Input, report: Report, idx: Index, r: MoveResult) {
    && r.subject == m.subject.Identity() && r.wave == m.wave && r.disposition == m.disposition
    && (r.subjectFact == Seen <==> KnownSubject(input, m.subject.Key()))
    && (r.unmatched <==> r.subjectFact != Seen && !KnownAccount(input, m.subject.account))
    && (r.subjectFact == NotObserved <==>
          !KnownSubject(input, m.subject.Key()) && KnownAccount(input, m.subject.account) &&
          !IncompleteFor(report.coverage, m.subject.account, m.subject.region))
    && r.targetFact == TargetFactOf(m, idx)
    && IsResolved(m.resolves, report.conflicts, r.resolves)
    && IsUnclaimed(m, report.conflicts, r.unclaimed)
    && r.fullyEvidenced == FullyEvidenced(r.subjectFact, r.targetFact, r.resolves, r.unclaimed)
    && (r.keepBlocked <==> m.disposition == Keep && exists c :: c in report.conflicts && Touches(c, m.subject.Key()))
  }

  method DeriveMove(
    m: Move, ghost input: Input, report: Report, idx: Index, touching: map<string, seq<Conflict>>, subjects: set<string>,
    accounts: set<string>, reported: set<string>) returns (r: MoveResult)
    requires IsTouching(report.conflicts, touching)
    requires forall id :: id in reported <==> Reported(report.conflicts, id)
    requires forall k :: k in subjects <==> KnownSubject(input, k)
    requires forall a :: a in accounts <==> KnownAccount(input, a)
    ensures IsDerived(m, input, report, idx, r)
  {
    var (subject, unmatched) := SubjectFactOf(m.subject, report.coverage, subjects, accounts);
    var target := TargetFactOf(m, idx);
    var resolves, unclaimed := MoveConflictResults(m, report.conflicts, touching, reported);
    var evidenced := FullyEvidenced(subject, target, resolves, unclaimed);
    var mine := At(touching, m.subject.Key());
    var blocked := m.disposition == Keep && mine != [];
    TouchingAt(report.conflicts, touching, m.subject.Key());
    r := MoveResult(m.subject.Identity(), m.wave, m.disposition, subject, unmatched, target, resolves, unclaimed, evidenced, blocked);
  }

  /** No move's subject is a side of the conflict. */
  ghost predicate Unplanned(c: Conflict, moves: seq<Move>) {
    forall i :: 0 <= i < |moves| ==> !Touches(c, moves[i].subject.Key())
  }

  method UnplannedConflictIds(conflicts: seq<Conflict>, moves: seq<Move>) returns (ids: seq<string>)
    ensures ids == [] <==> forall c :: c in conflicts ==> !Unplanned(c, moves)
    ensures forall id :: id in ids <==> exists c :: c in conflicts && c.id == id && Unplanned(c, moves)
  {
    var planned: set<string> := {};
    for n := 0 to |moves|
      invariant forall k :: k in planned <==> exists i :: 0 <= i < n && moves[i].subject.Key() == k
    {
      planned := planned + {moves[n].subject.Key()};
    }
    ids := [];
    for n := 0 to |conflicts|
      invariant forall id :: id in ids <==> exists c :: c in conflicts[..n] && c.id == id && Unplanned(c, moves)
    {
      var c := conflicts[n];
      assert conflicts[..n + 1] == conflicts[..n] + [c];
      var keys := SideKeys(c);
      assert Unplanned(c, moves) <==> keys !! planned by {
        if keys !! planned {
          forall i | 0 <= i < |moves| ensures !Touches(c, moves[i].subject.Key()) {
            assert moves[i].subject.Key() in planned;
          }
        }
      }
      if keys !! planned {
        ids := ids + [c.id];
      }
    }
    assert conflicts[..|conflicts|] == conflicts;
    EmptyIff(ids);
    var sorted := Sort(StrLess, ids);
    forall id ensures id in sorted <==> id in ids {
      InMultiset(sorted, id);
      InMultiset(ids, id);
    }
    EmptyIff(sorted);
    assert (forall c :: c in conflicts ==> !Unplanned(c, moves)) <==> forall id :: id !in ids by {
      if !(forall c :: c in conflicts ==> !Unplanned(c, moves)) {
        var c :| c in conflicts && Unplanned(c, moves);
        assert c.id in ids;
      }
    }
    ids := sorted;
  }

  method TargetTenants(moves: seq<Move>) returns (tenants: set<string>)
    ensures forall t :: t in tenants <==> NamesTenant(moves, t)
  {
    tenants := {};
    for n := 0 to |moves|
      invariant forall t :: t in tenants <==> exists m :: m in moves[..n] && TenantOf(m) == t && t != ""
    {
      assert moves[..n + 1] == moves[..n] + [moves[n]];
      if TenantOf(moves[n]) != "" {
        tenants := tenants + {TenantOf(moves[n])};
      }
    }
    assert moves[..|moves|] == moves;
  }

  function TenantOf(m: Move): string {
    if m.target.Some? then m.target.value.tenant else ""
  }

  ghost predicate NamesTenant(moves: seq<Move>, t: string) {
    exists m :: m in moves && TenantOf(m) == t && t != ""
  }

  /** The derived half of the progress report. */
  datatype Progress = Progress(
    evidenceComplete: bool, moves: seq<MoveResult>, unplanned: seq<string>,
    movesTotal: nat, fullyEvidenced: nat, unplannedConflicts: nat)

  function CountEvidenced(moves: seq<MoveResult>): nat {
    if moves == [] then 0
    else CountEvidenced(moves[..|moves| - 1]) + if moves[|moves| - 1].fullyEvidenced then 1 else 0
  }

  ghost predicate IsProgress(plan: Plan, report: Report, input: Input, idx: Index, p: Progress) {
    && |p.moves| == |plan.moves| == p.movesTotal
    && (forall i :: 0 <= i < |plan.moves| ==> IsDerived(plan.moves[i], input, report, idx, p.moves[i]))
    && p.fullyEvidenced == CountEvidenced(p.moves)
    && (forall id :: id in p.unplanned <==> exists c :: c in report.conflicts && c.id == id && Unplanned(c, plan.moves))
    && p.unplannedConflicts == |p.unplanned|
    && (p.evidenceComplete <==>
          report.coverage.complete && idx.files != [] && forall t :: NamesTenant(plan.moves, t) ==> idx.VisibleForTenant(t))
  }

  method Derive(plan: Plan, report: Report, input: Input, evidence: seq<EvidenceFile>) returns (p: Progress, idx: Index)
    ensures IsIndex(evidence, idx)
    ensures IsProgress(plan, report, input, idx, p)
  {
    idx := BuildEvidenceIndex(evidence);
    var touching := TouchingConflicts(report.conflicts);
    var subjects := KnownSubjects(input);
    var accounts := KnownAccounts(input);
    var reported := ConflictIds(report.conflicts);
    var moves: seq<MoveResult>, evidenced: nat := [], 0;
    for n := 0 to |plan.moves|
      invariant |moves| == n && evidenced == CountEvidenced(moves)
      invariant forall i :: 0 <= i < n ==> IsDerived(plan.moves[i], input, report, idx, moves[i])
    {
      var r := DeriveMove(plan.moves[n], input, report, idx, touching, subjects, accounts, reported);
      assert (moves + [r])[..n] == moves;
      moves := moves + [r];
      if r.fullyEvidenced {
        evidenced := evidenced + 1;
      }
    }
    var unplanned := UnplannedConflictIds(report.conflicts, plan.moves);
    var tenants := TargetTenants(plan.moves);
    var complete := idx.Complete(report.coverage.complete, tenants);
    p := Progress(complete, moves, unplanned, |moves|, evidenced, |unplanned|);
  }

  predicate ProgressClean(p: Progress) {
    p.evidenceComplete && p.movesTotal != 0 && p.fullyEvidenced == p.movesTotal && p.unplannedConflicts == 0
  }

  // ----- what a clean progress report means -----

  lemma {:induction false} CountAll(moves: seq<MoveResult>)
    ensures CountEvidenced(moves) <= |moves|
    ensures CountEvidenced(moves) == |moves| <==> forall i :: 0 <= i < |moves| ==> moves[i].fullyEvidenced
    decreases |moves|
  {
    if moves != [] {
      CountAll(moves[..|moves| - 1]);
      assert forall i :: 0 <= i < |moves| - 1 ==> moves[..|moves| - 1][i] == moves[i];
    }
  }

  /** An observed side is a known subject, so no fully evidenced move is on it. */
  lemma ObservedSideKnown(input: Input, s: Side)
    requires SideObserved(input, s)
    ensures KnownSubject(input, SideKey(s))
  {
    var i :| 0 <= i < |input.records| && input.records[i].kind == TYPE_VPC &&
      input.records[i].account == s.account && input.records[i].region == s.region && input.records[i].resource == s.vpc;
    assert NamesSubject(input.records[i], SideKey(s));
  }

  lemma TouchedKnown(input: Input, c: Conflict, key: string)
    requires SidesObserved(input, c)
    ensures Touches(c, key) ==> KnownSubject(input, key)
  {
    if Touches(c, key) {
      var i :| 0 <= i < |c.sides| && SideTouches(c.sides[i], key);
      ObservedSideKnown(input, c.sides[i]);
    }
  }

  /**
    When assessment and derivation share one input, every move being fully
    evidenced and nothing unplanned leaves no conflict at all: a fully
    evidenced subject was not observed, every side of a conflict that is not
    fixed was, and so any conflict would be unplanned.
   */
  lemma CleanHasNoConflicts(
    parse: Parser, digest: Digest, plan: Plan, input: Input, fixed: seq<FixedRange>, survivors: seq<Record>,
    report: Report, idx: Index, p: Progress)
    requires Reports(parse, digest, input, fixed, survivors, report) && IsProgress(plan, report, input, idx, p)
    requires ProgressClean(p)
    ensures report.conflicts == []
  {
    CountAll(p.moves);
    EmptyIff(report.conflicts);
    EmptyIff(p.unplanned);
    forall c | c in report.conflicts ensures Unplanned(c, plan.moves) {
      ConflictSource(parse, digest, input, fixed, survivors, report, c);
      forall i | 0 <= i < |plan.moves| ensures !Touches(c, plan.moves[i].subject.Key()) {
        TouchedKnown(input, c, plan.moves[i].subject.Key());
        assert IsDerived(plan.moves[i], input, report, idx, p.moves[i]);
      }
    }
    assert forall c :: c in report.conflicts ==> c.id in p.unplanned;
  }

  /** What the evidence says of an active target. */
  ghost predicate TargetEvidenced(m: Move, evidence: seq<EvidenceFile>) {
    && m.target.Some?
    && (HasScope(evidence, SCOPE_OPERATOR) || (m.target.value.tenant != "" && HasScope(evidence, m.target.value.tenant)))
    && exists f, a :: f in evidence && a in f.allocations && Backs(m, a)
  }

  ghost predicate Backs(m: Move, a: Allocation)
    requires m.target.Some?
  {
    && a.tenant == m.target.value.tenant && a.key == m.target.value.key && a.Verified()
    && (m.disposition != Keep ==> !Mismatches(m.target.value, a))
  }

  /** An active target rests on a verified row of an export that may speak for its tenant. */
  lemma ActiveMeans(m: Move, evidence: seq<EvidenceFile>, idx: Index)
    requires IsIndex(evidence, idx) && TargetFactOf(m, idx) == Active
    ensures TargetEvidenced(m, evidence)
  {
    var t := m.target.value;
    var k := (t.tenant, t.key);
    FoldFilesFrom(idx.files, k);
    var a := idx.byKey[k];
    var f :| f in idx.files && a in f.allocations;
    InMultiset(idx.files, f);
    InMultiset(evidence, f);
    assert Backs(m, a);
  }

  /**
    A clean progress report, end to end: the run was complete, no two
    comparable resources of the observed estate share an address, no planned
    subject was observed, and every target is backed by verified evidence.
   */
  lemma CleanMeans(
    parse: Parser, digest: Digest, plan: Plan, input: Input, fixed: seq<FixedRange>, evidence: seq<EvidenceFile>,
    survivors: seq<Record>, report: Report, idx: Index, p: Progress)
    requires Reports(parse, digest, input, fixed, survivors, report) && IsProgress(plan, report, input, idx, p)
    requires IsIndex(evidence, idx) && ProgressClean(p)
    ensures CompleteRun(input)
    ensures OverlapFree(Associations.Items(parse, survivors, fixed))
    ensures forall i :: 0 <= i < |plan.moves| ==> !KnownSubject(input, plan.moves[i].subject.Key())
    ensures forall i :: 0 <= i < |plan.moves| ==> TargetEvidenced(plan.moves[i], evidence)
    ensures forall i :: 0 <= i < |plan.moves| ==> !p.moves[i].keepBlocked
  {
    CompleteIff(input, report.coverage);
    CleanHasNoConflicts(parse, digest, plan, input, fixed, survivors, report, idx, p);
    NoConflictsIff(parse, digest, input, fixed, survivors, report);
    CountAll(p.moves);
    forall i | 0 <= i < |plan.moves|
      ensures !KnownSubject(input, plan.moves[i].subject.Key()) && TargetEvidenced(plan.moves[i], evidence) && !p.moves[i].keepBlocked
    {
      assert IsDerived(plan.moves[i], input, report, idx, p.moves[i]);
      ActiveMeans(plan.moves[i], evidence, idx);
    }
  }

  lemma EvidencedWhenClear(m: Move, input: Input, report: Report, idx: Index, r: MoveResult)
    requires IsDerived(m, input, report, idx, r) && report.conflicts == []
    ensures r.fullyEvidenced <==> r.subjectFact == NotObserved && r.targetFact == Active
  {
    EmptyIff(r.unclaimed);
  }

  /** Exactly when a report is clean, given that the assessment shares its input. */
  lemma CleanIff(
    parse: Parser, digest: Digest, plan: Plan, input: Input, fixed: seq<FixedRange>, survivors: seq<Record>,
    report: Report, idx: Index, p: Progress)
    requires Reports(parse, digest, input, fixed, survivors, report) && IsProgress(plan, report, input, idx, p)
    ensures ProgressClean(p) <==>
            p.evidenceComplete && plan.moves != [] && report.conflicts == [] &&
            forall i :: 0 <= i < |plan.moves| ==> p.moves[i].subjectFact == NotObserved && p.moves[i].targetFact == Active
  {
    CountAll(p.moves);
    if ProgressClean(p) {
      CleanHasNoConflicts(parse, digest, plan, input, fixed, survivors, report, idx, p);
    }
    if report.conflicts == [] {
      EmptyIff(p.unplanned);
      forall i | 0 <= i < |plan.moves|
        ensures p.moves[i].fullyEvidenced <==> p.moves[i].subjectFact == NotObserved && p.moves[i].targetFact == Active
      {
        EvidencedWhenClear(plan.moves[i], input, report, idx, p.moves[i]);
      }
    }
  }
}
