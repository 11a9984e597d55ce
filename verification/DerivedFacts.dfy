/**
  What the derived facts of a migration say about the observed estate and the
  evidence (internal/migrate/derive_facts.go), told from the inputs themselves.
 */
module DerivedFacts {
  import opened Cidr
  import opened Ordering
  import opened AssessTypes
  import opened Optional
  import opened Sweep
  import Associations
  import opened Coverage
  import opened Assessment
  import opened PlanValidate
  import opened Derivation
  import Estate

  // ----- the subject -----

  /** Some VPC row is about this subject. */
  ghost predicate RowNames(input: Input, s: Subject) {
    exists r :: Estate.VpcRow(input, r) && r.account == s.account && r.region == s.region && r.resource == s.vpc
  }

  /** A failure row names the account, with this region or with none. */
  ghost predicate FailureNames(input: Input, account: string, region: string) {
    exists i :: 0 <= i < |input.failures| && input.failures[i].account == account && input.failures[i].region in {"", region}
  }

  /** An attempt here that did not succeed, or one at the whole account that read nothing. */
  predicate AttemptFalls(a: RunAttempt, account: string, region: string) {
    && a.account == account
    && ((a.region == region && !a.outcome.Succeeded?) || (a.region == "" && !a.outcome.Succeeded? && !a.outcome.Partial?))
  }

  /** An attempt here that succeeded and counted more rows than are present. */
  ghost predicate AttemptShort(input: Input, a: RunAttempt, account: string, region: string) {
    && a.account == account && a.region == region && a.outcome.Succeeded? && a.rowCount.Some?
    && PresentAt(input, AccountRegion(account, region)) < a.rowCount.value
  }

  /** The place was read in full: nothing failed there, nothing is missing, and the account was visited if it is active. */
  ghost predicate ReadInFull(input: Input, account: string, region: string) {
    && input.run.Some? && input.accounts != [] && !FailureNames(input, account, region)
    && (forall i :: 0 <= i < |input.run.value| ==>
          !AttemptFalls(input.run.value[i], account, region) && !AttemptShort(input, input.run.value[i], account, region))
    && (IsActive(input, account) ==> exists i :: 0 <= i < |input.run.value| && input.run.value[i].account == account)
  }

  ghost predicate FailedCovers(c: Coverage, account: string, region: string) {
    exists i :: 0 <= i < |c.failed| && c.failed[i].account == account && (c.failed[i].region == "" || c.failed[i].region == region)
  }

  ghost predicate PartialCovers(c: Coverage, account: string, region: string) {
    exists i :: 0 <= i < |c.partial| && c.partial[i] == AccountRegion(account, region)
  }

  ghost predicate SkippedCovers(c: Coverage, account: string, region: string) {
    exists i :: 0 <= i < |c.notAttempted| && c.notAttempted[i].account == account &&
      (c.notAttempted[i].region == "" || c.notAttempted[i].region == region)
  }

  ghost predicate ShortCovers(c: Coverage, account: string, region: string) {
    exists i :: 0 <= i < |c.short| && c.short[i].account == account && c.short[i].region == region
  }

  lemma IncompleteParts(c: Coverage, account: string, region: string)
    ensures IncompleteFor(c, account, region) <==>
      || c.runMissing || c.accountsMissing || FailedCovers(c, account, region) || PartialCovers(c, account, region)
      || SkippedCovers(c, account, region) || ShortCovers(c, account, region)
  {
  }

  predicate UnreadAt(a: RunAttempt, account: string, region: string) {
    a.account == account && a.region in {"", region} && Unread(a)
  }

  lemma FailedIff(input: Input, c: Coverage, account: string, region: string)
    requires Exact(input, c) && input.run.Some?
    ensures FailedCovers(c, account, region) <==>
      FailureNames(input, account, region) || exists i :: 0 <= i < |input.run.value| && UnreadAt(input.run.value[i], account, region)
  {
    if FailedCovers(c, account, region) {
      var i :| 0 <= i < |c.failed| && c.failed[i].account == account && (c.failed[i].region == "" || c.failed[i].region == region);
      assert c.failed[i] in c.failed && IsFailed(input, c.failed[i]);
      if k :| 0 <= k < |input.failures| && FailureEntry(input.failures[k]) == c.failed[i] {
      } else {
        var k :| 0 <= k < |input.run.value| && UnreadEntry(input, input.run.value[k], c.failed[i]);
        assert UnreadAt(input.run.value[k], account, region);
      }
    }
    if FailureNames(input, account, region) {
      var k :| 0 <= k < |input.failures| && input.failures[k].account == account && input.failures[k].region in {"", region};
      EntryCovers(c, FailureEntry(input.failures[k]), account, region);
    } else if k :| 0 <= k < |input.run.value| && UnreadAt(input.run.value[k], account, region) {
      var e := AttemptEntry(input.run.value[k]);
      assert !FailureRecorded(input, AttemptPlace(input.run.value[k]));
      assert UnreadEntry(input, input.run.value[k], e);
      EntryCovers(c, e, account, region);
    }
  }

  lemma EntryCovers(c: Coverage, e: FailedEntry, account: string, region: string)
    requires e in c.failed && e.account == account && e.region in {"", region}
    ensures FailedCovers(c, account, region)
  {
  }

  ghost predicate EndsAt(input: Input, outcome: Outcome, at: AccountRegion) {
    input.run.Some? && exists i :: 0 <= i < |input.run.value| && input.run.value[i].outcome == outcome && AttemptPlace(input.run.value[i]) == at
  }

  lemma PartialIff(input: Input, c: Coverage, account: string, region: string)
    requires Exact(input, c) && !FailureNames(input, account, region)
    ensures PartialCovers(c, account, region) <==> EndsAt(input, Outcome.Partial, AccountRegion(account, region))
  {
    var at := AccountRegion(account, region);
    assert at in c.partial <==> IsPartial(input, at);
    assert PartialCovers(c, account, region) <==> at in c.partial;
    assert forall i :: 0 <= i < |input.failures| ==> FailurePlace(input.failures[i]) != at;
  }

  lemma SkippedIff(input: Input, c: Coverage, account: string, region: string)
    requires Exact(input, c)
    ensures SkippedCovers(c, account, region) <==>
      || (IsActive(input, account) && !Visited(input, account))
      || EndsAt(input, Outcome.NotAttempted, AccountRegion(account, region)) || EndsAt(input, Outcome.NotAttempted, AccountRegion(account, ""))
  {
    assert SkippedCovers(c, account, region) <==>
      AccountRegion(account, "") in c.notAttempted || AccountRegion(account, region) in c.notAttempted by {
      if SkippedCovers(c, account, region) {
        var i :| 0 <= i < |c.notAttempted| && c.notAttempted[i].account == account &&
          (c.notAttempted[i].region == "" || c.notAttempted[i].region == region);
        assert c.notAttempted[i] == AccountRegion(account, c.notAttempted[i].region);
      }
    }
    assert IsNotAttempted(input, AccountRegion(account, "")) <==> AccountRegion(account, "") in c.notAttempted;
    assert IsNotAttempted(input, AccountRegion(account, region)) <==> AccountRegion(account, region) in c.notAttempted;
  }

  ghost predicate ShortAt(input: Input, a: RunAttempt, account: string, region: string) {
    && Counted(a) && a.account == account && a.region == region
    && PresentAt(input, AccountRegion(account, region)) < a.rowCount.value
  }

  lemma ShortIff(input: Input, c: Coverage, account: string, region: string)
    requires Exact(input, c) && input.run.Some?
    ensures ShortCovers(c, account, region) <==>
      exists i :: 0 <= i < |input.run.value| && ShortAt(input, input.run.value[i], account, region)
  {
    if ShortCovers(c, account, region) {
      var i :| 0 <= i < |c.short| && c.short[i].account == account && c.short[i].region == region;
      assert c.short[i] in c.short && IsMismatch(input, c.short[i]);
      var k :| 0 <= k < |input.run.value| && RecordedBy(input.run.value[k], c.short[i]);
      assert ShortAt(input, input.run.value[k], account, region);
    }
    if k :| 0 <= k < |input.run.value| && ShortAt(input, input.run.value[k], account, region) {
      var m := Mismatch(account, region, input.run.value[k].rowCount.value, PresentAt(input, AccountRegion(account, region)));
      assert RecordedBy(input.run.value[k], m);
      assert IsMismatch(input, m) && m in c.short;
    }
  }

  /** Coverage lets nothing in the way of a statement about a place exactly when the inputs show that it was read in full. */
  lemma CompleteForIff(input: Input, c: Coverage, account: string, region: string)
    requires Exact(input, c)
    ensures !IncompleteFor(c, account, region) <==> ReadInFull(input, account, region)
  {
    IncompleteParts(c, account, region);
    if input.run.Some? {
      FailedIff(input, c, account, region);
      SkippedIff(input, c, account, region);
      ShortIff(input, c, account, region);
      if !FailureNames(input, account, region) {
        PartialIff(input, c, account, region);
        AttemptsIff(input, account, region);
      }
    }
  }

  ghost predicate SomeUnread(attempts: seq<RunAttempt>, account: string, region: string) {
    exists i :: 0 <= i < |attempts| && UnreadAt(attempts[i], account, region)
  }

  ghost predicate SomeShort(input: Input, attempts: seq<RunAttempt>, account: string, region: string) {
    exists i :: 0 <= i < |attempts| && ShortAt(input, attempts[i], account, region)
  }

  ghost predicate SomeFault(input: Input, attempts: seq<RunAttempt>, account: string, region: string) {
    exists i :: 0 <= i < |attempts| &&
      (AttemptFalls(attempts[i], account, region) || AttemptShort(input, attempts[i], account, region))
  }

  /** Every attempt is accounted for by its outcome. */
  lemma AttemptsIff(input: Input, account: string, region: string)
    requires input.run.Some?
    ensures SomeFault(input, input.run.value, account, region) <==>
      || SomeUnread(input.run.value, account, region) || EndsAt(input, Outcome.Partial, AccountRegion(account, region))
      || EndsAt(input, Outcome.NotAttempted, AccountRegion(account, region)) || EndsAt(input, Outcome.NotAttempted, AccountRegion(account, ""))
      || SomeShort(input, input.run.value, account, region)
  {
  }

  /** No joined field of the subject holds the separator. */
  predicate SubjectSeparable(s: Subject) {
    Lacks(s.account, SEP[0]) && Lacks(s.region, SEP[0])
  }

  lemma KnownIff(input: Input, s: Subject)
    requires Estate.RowsSeparable(input) && SubjectSeparable(s)
    ensures KnownSubject(input, s.Key()) <==> RowNames(input, s)
  {
    forall i | 0 <= i < |input.records| && input.records[i].kind == TYPE_VPC
      ensures NamesSubject(input.records[i], s.Key()) <==>
        input.records[i].account == s.account && input.records[i].region == s.region && input.records[i].resource == s.vpc
    {
      var r := input.records[i];
      assert r in input.records && Estate.Separable(r);
      Estate.JoinIff(r.account, r.region, r.resource, s.account, s.region, s.vpc);
    }
    if RowNames(input, s) {
      var r :| Estate.VpcRow(input, r) && r.account == s.account && r.region == s.region && r.resource == s.vpc;
      var i :| 0 <= i < |input.records| && input.records[i] == r;
      assert NamesSubject(input.records[i], s.Key());
    }
    if KnownSubject(input, s.Key()) {
      var i :| 0 <= i < |input.records| && NamesSubject(input.records[i], s.Key());
      assert Estate.VpcRow(input, input.records[i]);
    }
  }

  /**
    The fact about a move's subject: seen exactly when a VPC row names it, and
    not observed exactly when none does, its account is listed and its place
    was read in full. Anything else is unknown.
   */
  lemma SubjectFactIff(m: Move, input: Input, report: Report, idx: Index, r: MoveResult)
    requires IsDerived(m, input, report, idx, r) && Exact(input, report.coverage)
    requires Estate.RowsSeparable(input) && SubjectSeparable(m.subject)
    ensures r.subjectFact == Seen <==> RowNames(input, m.subject)
    ensures r.subjectFact == NotObserved <==>
      && !RowNames(input, m.subject) && KnownAccount(input, m.subject.account)
      && ReadInFull(input, m.subject.account, m.subject.region)
    ensures r.unmatched <==> !RowNames(input, m.subject) && !KnownAccount(input, m.subject.account)
  {
    KnownIff(input, m.subject);
    CompleteForIff(input, report.coverage, m.subject.account, m.subject.region);
  }

  // ----- the evidence that stands -----

  ghost predicate RowAt(files: seq<EvidenceFile>, i: int, j: int, k: (string, string)) {
    && 0 <= i < |files| && 0 <= j < |files[i].allocations|
    && files[i].allocations[j].tenant == k.0 && files[i].allocations[j].key == k.1
  }

  /** The row under this key that no later one follows, in the order of the files' paths and of their rows. */
  ghost predicate LastAt(files: seq<EvidenceFile>, i: int, j: int, k: (string, string)) {
    RowAt(files, i, j, k) && forall m, n :: RowAt(files, m, n, k) ==> m < i || (m == i && n <= j)
  }

  ghost predicate Stands(files: seq<EvidenceFile>, k: (string, string), a: Allocation) {
    exists i, j :: LastAt(files, i, j, k) && files[i].allocations[j] == a
  }

  ghost predicate RowIn(rows: seq<Allocation>, j: int, k: (string, string)) {
    0 <= j < |rows| && rows[j].tenant == k.0 && rows[j].key == k.1
  }

  lemma {:induction false} FoldRowsLast(m: map<(string, string), Allocation>, rows: seq<Allocation>, k: (string, string))
    returns (j: Option<nat>)
    ensures j.None? ==> (forall n :: !RowIn(rows, n, k)) && (k in FoldRows(m, rows) <==> k in m)
    ensures j.None? && k in m ==> FoldRows(m, rows)[k] == m[k]
    ensures j.Some? ==> RowIn(rows, j.value, k) && (forall n :: RowIn(rows, n, k) ==> n <= j.value)
    ensures j.Some? ==> k in FoldRows(m, rows) && FoldRows(m, rows)[k] == rows[j.value]
    decreases |rows|
  {
    if rows == [] {
      return None;
    }
    var n := |rows| - 1;
    if (rows[n].tenant, rows[n].key) == k {
      return Some(n);
    }
    j := FoldRowsLast(m, rows[..n], k);
    assert forall i :: RowIn(rows, i, k) <==> RowIn(rows[..n], i, k);
  }

  lemma {:induction false} FoldFilesLast(files: seq<EvidenceFile>, k: (string, string)) returns (at: Option<(nat, nat)>)
    ensures at.None? ==> k !in FoldFiles(files) && forall i, j :: !RowAt(files, i, j, k)
    ensures at.Some? ==> LastAt(files, at.value.0, at.value.1, k)
    ensures at.Some? ==> k in FoldFiles(files) && FoldFiles(files)[k] == files[at.value.0].allocations[at.value.1]
    decreases |files|
  {
    if files == [] {
      return None;
    }
    var n := |files| - 1;
    var init := files[..n];
    var last := FoldRowsLast(FoldFiles(init), files[n].allocations, k);
    assert forall j :: RowAt(files, n, j, k) <==> RowIn(files[n].allocations, j, k);
    at := FoldFilesLast(init, k);
    assert forall i, j :: i < n ==> (RowAt(files, i, j, k) <==> RowAt(init, i, j, k));
    assert forall i, j :: RowAt(files, i, j, k) ==> i <= n;
    if last.Some? {
      at := Some((n, last.value));
    }
  }

  /** Looking a target up finds the allocation that stands under its key, and nothing exactly when no file has one. */
  lemma LookupIff(evidence: seq<EvidenceFile>, idx: Index, tenant: string, key: string)
    requires IsIndex(evidence, idx)
    ensures idx.Lookup(tenant, key).None? <==> forall i, j :: !RowAt(idx.files, i, j, (tenant, key))
    ensures idx.Lookup(tenant, key).Some? ==> Stands(idx.files, (tenant, key), idx.Lookup(tenant, key).value)
    ensures multiset(idx.files) == multiset(evidence) && Sorted(PathLess, idx.files)
  {
    var at := FoldFilesLast(idx.files, (tenant, key));
    assert at.Some? ==> LastAt(idx.files, at.value.0, at.value.1, (tenant, key));
    PathOrders();
    SortSorts(PathLess, evidence);
  }

  lemma PathOrders()
    ensures Orders(PathLess)
  {
    forall x: EvidenceFile, y: EvidenceFile ensures PathLess(x, y) ==> !PathLess(y, x) { StrOrder(x.path, y.path); }
    forall x: EvidenceFile, y: EvidenceFile, z: EvidenceFile | !PathLess(y, x) && !PathLess(z, y) ensures !PathLess(z, x) {
      StrTransitive(x.path, y.path, z.path);
    }
  }

  lemma StandsOnce(files: seq<EvidenceFile>, k: (string, string), a: Allocation, b: Allocation)
    requires Stands(files, k, a) && Stands(files, k, b)
    ensures a == b
  {
    var i, j :| LastAt(files, i, j, k) && files[i].allocations[j] == a;
    var m, n :| LastAt(files, m, n, k) && files[m].allocations[n] == b;
    assert RowAt(files, i, j, k) && RowAt(files, m, n, k);
  }

  // ----- the target -----

  /** An export speaks for the tenant: an operator's, or the tenant's own. */
  ghost predicate Spoken(evidence: seq<EvidenceFile>, tenant: string) {
    exists f :: f in evidence && (f.scope == "operator" || (f.scope == tenant && tenant != ""))
  }

  /** What the plan states of the target, and what the evidence says, field by field. */
  function Typed(t: Target): (string, string, string, string, Option<int>, string) {
    (t.scope, t.environment, t.region, t.account, t.prefixLength, t.parentKey)
  }

  function Evidenced(a: Allocation): (string, string, string, string, Option<int>, string) {
    (a.scope, a.environment, a.region, a.account, Some(a.prefixLength), a.parentKey)
  }

  /** The move's target is this allocation, and nothing typed about it is contradicted. */
  ghost predicate Fits(m: Move, a: Allocation)
    requires m.target.Some?
  {
    m.disposition == Keep || Typed(m.target.value) == Evidenced(a)
  }

  predicate Gone(a: Allocation) {
    a.state == "QUARANTINED" || a.state == "RELEASED"
  }

  predicate Confirmed(a: Allocation) {
    a.state == "ACTIVE" && a.verifiedAt.Some? && a.verifiedAt.value != ""
  }

  ghost predicate StandsFor(m: Move, files: seq<EvidenceFile>, a: Allocation) {
    m.target.Some? && Stands(files, (m.target.value.tenant, m.target.value.key), a)
  }

  /** Each of the six facts about a move's target, told from the evidence. */
  lemma TargetFactIff(m: Move, evidence: seq<EvidenceFile>, idx: Index)
    requires IsIndex(evidence, idx)
    ensures var fact, files := TargetFactOf(m, idx), idx.files;
      var spoken := m.target.Some? && Spoken(evidence, m.target.value.tenant);
      && (fact == NoTarget <==> m.target.None? || (spoken && forall a :: !StandsFor(m, files, a)))
      && (fact == Unseen <==> m.target.Some? && !spoken)
      && (fact == Retired <==> spoken && exists a :: StandsFor(m, files, a) && Gone(a))
      && (fact == Mismatched <==> spoken && exists a :: StandsFor(m, files, a) && !Gone(a) && !Fits(m, a))
      && (fact == Active <==> spoken && exists a :: StandsFor(m, files, a) && Fits(m, a) && Confirmed(a))
      && (fact == TargetFact.Reserved <==>
            spoken && exists a :: StandsFor(m, files, a) && !Gone(a) && Fits(m, a) && !Confirmed(a))
  {
    if m.target.Some? {
      var t := m.target.value;
      SpokenIff(evidence, idx, t.tenant);
      LookupIff(evidence, idx, t.tenant, t.key);
      var found := idx.Lookup(t.tenant, t.key);
      forall a | StandsFor(m, idx.files, a) ensures found == Some(a) {
        StandsFound(evidence, idx, t.tenant, t.key, a);
      }
      assert found.Some? ==> StandsFor(m, idx.files, found.value) && (Mismatches(t, found.value) <==> Typed(t) != Evidenced(found.value));
    }
  }

  lemma StandsFound(evidence: seq<EvidenceFile>, idx: Index, tenant: string, key: string, a: Allocation)
    requires IsIndex(evidence, idx) && Stands(idx.files, (tenant, key), a)
    ensures idx.Lookup(tenant, key) == Some(a)
  {
    LookupIff(evidence, idx, tenant, key);
    var i, j :| LastAt(idx.files, i, j, (tenant, key)) && idx.files[i].allocations[j] == a;
    assert RowAt(idx.files, i, j, (tenant, key));
    StandsOnce(idx.files, (tenant, key), a, idx.Lookup(tenant, key).value);
  }

  lemma SpokenIff(evidence: seq<EvidenceFile>, idx: Index, tenant: string)
    requires IsIndex(evidence, idx)
    ensures idx.VisibleForTenant(tenant) <==> Spoken(evidence, tenant)
  {
    if HasScope(evidence, SCOPE_OPERATOR) {
      var f :| f in evidence && f.scope == SCOPE_OPERATOR;
    }
    if tenant != "" && HasScope(evidence, tenant) {
      var f :| f in evidence && f.scope == tenant;
    }
  }

  /**
    A move is fully evidenced exactly when its subject is gone, its target
    active, and no reported conflict is one it claims or touches its subject.
   */
  lemma EvidencedIff(m: Move, input: Input, report: Report, idx: Index, r: MoveResult)
    requires IsDerived(m, input, report, idx, r)
    ensures r.fullyEvidenced <==>
      && r.subjectFact == NotObserved && r.targetFact == Active
      && forall c :: c in report.conflicts ==> c.id !in m.resolves && !Derivation.Touches(c, m.subject.Key())
  {
    EmptyIff(r.unclaimed);
    assert (forall x :: x in r.resolves ==> !x.present) <==> forall c :: c in report.conflicts ==> c.id !in m.resolves by {
      ResolvesIff(m, report, r.resolves);
    }
  }

  lemma ResolvesIff(m: Move, report: Report, resolves: seq<Resolve>)
    requires IsResolved(m.resolves, report.conflicts, resolves)
    ensures (forall x :: x in resolves ==> !x.present) <==> forall c :: c in report.conflicts ==> c.id !in m.resolves
  {
    forall c | c in report.conflicts && c.id in m.resolves ensures exists x :: x in resolves && x.present {
      assert c.id in IdsOf(resolves);
      var x :| x in resolves && x.id == c.id;
      var k :| 0 <= k < |report.conflicts| && report.conflicts[k] == c;
      assert Reported(report.conflicts, x.id);
    }
    forall x | x in resolves && x.present ensures exists c :: c in report.conflicts && c.id in m.resolves {
      assert x.id in IdsOf(resolves);
      var k :| 0 <= k < |report.conflicts| && report.conflicts[k].id == x.id;
      assert report.conflicts[k] in report.conflicts;
    }
  }

  // ----- a clean report, told from the inputs -----

  /**
    A clean progress report: the run was complete, no two VPCs of the observed
    estate and no VPC and fixed range share an address, no row names a moved
    subject, and every target is an allocation that stands, fits and is
    confirmed.
   */
  lemma CleanEstate(
    parse: Parser, digest: Digest, plan: Plan, input: Input, fixed: seq<FixedRange>, evidence: seq<EvidenceFile>,
    survivors: seq<Record>, report: Report, idx: Index, p: Progress)
    requires Reports(parse, digest, input, fixed, survivors, report) && IsProgress(plan, report, input, idx, p)
    requires IsIndex(evidence, idx) && ProgressClean(p) && Estate.RowsSeparable(input)
    requires forall i :: 0 <= i < |plan.moves| ==> SubjectSeparable(plan.moves[i].subject)
    ensures CompleteRun(input) && Estate.RowsClear(parse, input) && Estate.FixedClear(parse, input, fixed)
    ensures forall i :: 0 <= i < |plan.moves| ==> !RowNames(input, plan.moves[i].subject) && TargetStands(plan.moves[i], evidence, idx.files)
  {
    CompleteIff(input, report.coverage);
    CleanHasNoConflicts(parse, digest, plan, input, fixed, survivors, report, idx, p);
    Estate.ReportClearIff(parse, digest, input, fixed, survivors, report);
    CleanIff(parse, digest, plan, input, fixed, survivors, report, idx, p);
    forall i | 0 <= i < |plan.moves|
      ensures !RowNames(input, plan.moves[i].subject) && TargetStands(plan.moves[i], evidence, idx.files)
    {
      assert IsDerived(plan.moves[i], input, report, idx, p.moves[i]);
      SubjectFactIff(plan.moves[i], input, report, idx, p.moves[i]);
      TargetFactIff(plan.moves[i], evidence, idx);
    }
  }

  /**
    The evidence is complete exactly when the run was, some export was given,
    and for every tenant that a move's target names, one speaks.
   */
  lemma EvidenceCompleteIff(plan: Plan, report: Report, input: Input, evidence: seq<EvidenceFile>, idx: Index, p: Progress)
    requires IsIndex(evidence, idx) && IsProgress(plan, report, input, idx, p) && Exact(input, report.coverage)
    ensures p.evidenceComplete <==>
      && CompleteRun(input) && evidence != []
      && forall m :: m in plan.moves && m.target.Some? && m.target.value.tenant != "" ==> Spoken(evidence, m.target.value.tenant)
  {
    CompleteIff(input, report.coverage);
    assert |idx.files| == |evidence| by { assert |multiset(idx.files)| == |multiset(evidence)|; }
    forall t ensures idx.VisibleForTenant(t) <==> Spoken(evidence, t) {
      SpokenIff(evidence, idx, t);
    }
    forall m | m in plan.moves && m.target.Some? && m.target.value.tenant != "" ensures NamesTenant(plan.moves, m.target.value.tenant) {
      assert TenantOf(m) == m.target.value.tenant;
    }
  }

  /** A place is listed as partly read exactly when an attempt says so, or rows were read there although describing it failed. */
  lemma PartlyReadIff(input: Input, c: Coverage, account: string, region: string)
    requires Exact(input, c)
    ensures AccountRegion(account, region) in c.partial <==>
      || EndsAt(input, Outcome.Partial, AccountRegion(account, region))
      || (region != "" && RowThere(input, account, region) && DescribeFailed(input, account, region))
  {
    var at := AccountRegion(account, region);
    assert at in c.partial <==> IsPartial(input, at);
    assert HasRows(input, at) <==> RowThere(input, account, region);
    assert DescribeFailed(input, account, region) && region != "" <==>
      exists i :: 0 <= i < |input.failures| && DescribeFailure(input.failures[i]) && FailurePlace(input.failures[i]) == at;
  }

  ghost predicate RowThere(input: Input, account: string, region: string) {
    exists i :: 0 <= i < |input.records| && input.records[i].kind == "vpc" && input.records[i].account == account && input.records[i].region == region
  }

  ghost predicate DescribeFailed(input: Input, account: string, region: string) {
    exists i :: 0 <= i < |input.failures| && input.failures[i].account == account && input.failures[i].region == region &&
      input.failures[i].stage == STAGE_DESCRIBE
  }

  ghost predicate TargetStands(m: Move, evidence: seq<EvidenceFile>, files: seq<EvidenceFile>) {
    m.target.Some? && Spoken(evidence, m.target.value.tenant) && exists a :: StandsFor(m, files, a) && Fits(m, a) && Confirmed(a)
  }
}
