/**
  One run of `adopt apply`: parents first, a pre-flight plan, and writes that
  stop at the first failure (internal/adoptcmd/apply.go, plan.go, ordering.go,
  principal.go). The ledger's service answers each call as it pleases.
 */
module AdoptRun {
  import opened Cidr
  import opened Optional

  const VPC := "vpc"
  const SUBNET := "subnet"

  /** One reviewed row; cidr is None unless it is a canonical IPv4 prefix. */
  datatype Record = Record(
    row: int, tenant: string, key: string, scope: string, environment: string, region: string, account: string,
    resource: string, prefixId: string, cidr: Option<Prefix>, parentKey: string, az: string)

  /** requestFor succeeds. */
  predicate WellFormed(r: Record) {
    && r.tenant != "" && r.key != "" && (r.scope == VPC || r.scope == SUBNET) && r.environment != "" && r.region != ""
    && r.account != "" && r.resource != "" && r.prefixId != "" && r.cidr.Some?
    && (if r.scope == VPC then r.parentKey == "" && r.az == "" else r.parentKey != "" && r.az != "")
  }

  /** Every column a row of its scope must fill, and those it must leave empty. */
  function Required(r: Record): seq<string> {
    [r.tenant, r.key, r.environment, r.region, r.account, r.resource, r.prefixId] +
    if r.scope == SUBNET then [r.parentKey, r.az] else []
  }

  function Forbidden(r: Record): seq<string> {
    if r.scope == VPC then [r.parentKey, r.az] else []
  }

  lemma WellFormedIff(r: Record)
    ensures WellFormed(r) <==>
      && r.scope in {"vpc", "subnet"} && r.cidr.Some? && "" !in Required(r)
      && forall i :: 0 <= i < |Forbidden(r)| ==> Forbidden(r)[i] == ""
  {
    var f := Forbidden(r);
    assert r.scope == VPC ==> f[0] == r.parentKey && f[1] == r.az;
  }

  // ----- ordering -----

  function Scoped(records: seq<Record>, vpc: bool): seq<Record> {
    if records == [] then []
    else
      var r := records[|records| - 1];
      Scoped(records[..|records| - 1], vpc) + if (r.scope == VPC) == vpc then [r] else []
  }

  function ParentsFirst(records: seq<Record>): seq<Record> {
    Scoped(records, true) + Scoped(records, false)
  }

  lemma {:induction false} ScopedMembers(records: seq<Record>, vpc: bool)
    ensures forall r :: r in Scoped(records, vpc) <==> r in records && (r.scope == VPC) == vpc
    decreases |records|
  {
    if records != [] {
      var init, last := records[..|records| - 1], records[|records| - 1];
      ScopedMembers(init, vpc);
      assert records == init + [last];
    }
  }

  lemma {:induction false} ScopedParts(records: seq<Record>)
    ensures multiset(Scoped(records, true)) + multiset(Scoped(records, false)) == multiset(records)
    decreases |records|
  {
    if records != [] {
      var init, last := records[..|records| - 1], records[|records| - 1];
      ScopedParts(init);
      assert records == init + [last];
    }
  }

  /** A stable reordering: nothing lost, nothing added, and no vpc row after any other. */
  lemma ParentsFirstOrders(records: seq<Record>)
    ensures multiset(ParentsFirst(records)) == multiset(records)
    ensures forall i, j :: 0 <= i < j < |ParentsFirst(records)| && ParentsFirst(records)[j].scope == VPC ==>
      ParentsFirst(records)[i].scope == VPC
  {
    ScopedMembers(records, true);
    ScopedMembers(records, false);
    ScopedParts(records);
    var vpcs, rest, all := Scoped(records, true), Scoped(records, false), ParentsFirst(records);
    forall k: nat | k < |all| ensures all[k].scope == VPC <==> k < |vpcs| {
      assert if k < |vpcs| then all[k] == vpcs[k] && vpcs[k] in vpcs else all[k] == rest[k - |vpcs|] && rest[k - |vpcs|] in rest;
    }
  }

  method OrderParentsFirst(records: seq<Record>) returns (ordered: seq<Record>)
    ensures ordered == ParentsFirst(records)
  {
    var vpcs, subnets := [], [];
    for i := 0 to |records|
      invariant vpcs == Scoped(records[..i], true) && subnets == Scoped(records[..i], false)
    {
      assert records[..i + 1][..i] == records[..i];
      if records[i].scope == VPC {
        vpcs := vpcs + [records[i]];
      } else {
        subnets := subnets + [records[i]];
      }
    }
    assert records[..|records|] == records;
    ordered := vpcs + subnets;
  }

  // ----- who acts -----

  datatype Principal = Principal(tenant: string, accounts: seq<string>, environments: seq<string>, regions: seq<string>)

  predicate Within(xs: seq<string>, v: string) {
    xs == [] || v in xs
  }

  predicate CoversRecord(p: Principal, r: Record) {
    p.tenant != "" && p.tenant == r.tenant && Within(p.accounts, r.account) && Within(p.environments, r.environment) && Within(p.regions, r.region)
  }

  /** An identity acts for its own tenant, wherever its scope names no limit or the record's own place. */
  lemma CoversIff(p: Principal, r: Record)
    ensures CoversRecord(p, r) <==>
      && p.tenant == r.tenant != "" && (p.accounts != [] ==> r.account in p.accounts)
      && (p.environments != [] ==> r.environment in p.environments) && (p.regions != [] ==> r.region in p.regions)
  {
  }

  ghost predicate SoleCover(identities: seq<Principal>, r: Record, k: nat) {
    k < |identities| && CoversRecord(identities[k], r) && forall j :: 0 <= j < |identities| && CoversRecord(identities[j], r) ==> j == k
  }

  ghost predicate SoleCovered(identities: seq<Principal>, r: Record) {
    exists k :: SoleCover(identities, r, k)
  }

  /** resolvePrincipal: the one identity of the tenant that covers the record; none and several are both refused. */
  method ResolvePrincipal(identities: seq<Principal>, r: Record) returns (p: Option<Principal>)
    ensures p.Some? <==> SoleCovered(identities, r)
    ensures p.Some? ==> CoversRecord(p.value, r) && p.value in identities
  {
    var covering: seq<nat> := [];
    for i := 0 to |identities|
      invariant forall k :: k in covering <==> 0 <= k < i && CoversRecord(identities[k], r)
      invariant forall j, k :: 0 <= j < k < |covering| ==> covering[j] != covering[k]
    {
      if CoversRecord(identities[i], r) {
        covering := covering + [i];
      }
    }
    assert forall j :: 0 <= j < |covering| ==> covering[j] in covering;
    if |covering| == 1 {
      assert SoleCover(identities, r, covering[0]);
      return Some(identities[covering[0]]);
    }
    assert forall k: nat :: SoleCover(identities, r, k) ==> k in covering;
    assert |covering| > 1 ==> covering[0] in covering && covering[1] in covering && covering[0] != covering[1];
    p := None;
  }

  // ----- parents -----

  datatype ParentRef = ParentRef(id: string, bound: bool)

  datatype Ledger = Ledger(id: string, key: string, bound: bool)

  type Key = (string, string)

  datatype Resolution = Found(parent: ParentRef) | Deferred | Unknown

  predicate Unbound(parent: Resolution) {
    parent.Found? && !parent.parent.bound
  }

  class ParentLookup {
    var resolved: map<Key, ParentRef>
    var inFile: set<Key>

    constructor ()
      ensures resolved == map[] && inFile == {}
    {
      resolved, inFile := map[], {};
    }

    function Resolve(tenant: string, key: string): Resolution
      reads this
    {
      if (tenant, key) in resolved then Found(resolved[(tenant, key)])
      else if (tenant, key) in inFile then Deferred
      else Unknown
    }

    method Note(tenant: string, key: string, a: Ledger)
      modifies `resolved
      ensures resolved == old(resolved)[(tenant, key) := ParentRef(a.id, a.bound)]
    {
      resolved := resolved[(tenant, key) := ParentRef(a.id, a.bound)];
    }

    method NoteFileRows(records: seq<Record>)
      modifies `inFile
      ensures inFile == old(inFile) + VpcKeys(records)
    {
      for i := 0 to |records|
        invariant inFile == old(inFile) + VpcKeys(records[..i])
      {
        VpcKeysSnoc(records, i);
        if records[i].scope == VPC {
          inFile := inFile + {(records[i].tenant, records[i].key)};
        }
      }
      assert records[..|records|] == records;
    }

    /** Every committed allocation of the record's tenants. */
    method SeedFromLedger(svc: Service, tenants: seq<string>) returns (ok: bool)
      modifies `resolved
      ensures ok <==> forall i :: 0 <= i < |tenants| ==> svc.ledger(tenants[i]).Some?
      ensures ok ==> resolved == SeedAll(old(resolved), svc.ledger, tenants)
    {
      for i := 0 to |tenants|
        invariant resolved == SeedAll(old(resolved), svc.ledger, tenants[..i])
        invariant forall k :: 0 <= k < i ==> svc.ledger(tenants[k]).Some?
      {
        var listed := svc.ledger(tenants[i]);
        if listed.None? {
          return false;
        }
        assert tenants[..i + 1][..i] == tenants[..i];
        ghost var seeded := resolved;
        for j := 0 to |listed.value|
          invariant resolved == NoteAll(seeded, tenants[i], listed.value[..j])
        {
          assert listed.value[..j + 1][..j] == listed.value[..j];
          Note(tenants[i], listed.value[j].key, listed.value[j]);
        }
        assert listed.value[..|listed.value|] == listed.value;
      }
      assert tenants[..|tenants|] == tenants;
      ok := true;
    }
  }

  /** The allocations of one tenant, the last of a key winning. */
  ghost function NoteAll(m: map<Key, ParentRef>, tenant: string, rows: seq<Ledger>): map<Key, ParentRef> {
    if rows == [] then m
    else
      var a := rows[|rows| - 1];
      NoteAll(m, tenant, rows[..|rows| - 1])[(tenant, a.key) := ParentRef(a.id, a.bound)]
  }

  ghost function SeedAll(m: map<Key, ParentRef>, ledger: string -> Option<seq<Ledger>>, tenants: seq<string>): map<Key, ParentRef> {
    if tenants == [] then m
    else
      var t := tenants[|tenants| - 1];
      NoteAll(SeedAll(m, ledger, tenants[..|tenants| - 1]), t, ledger(t).UnwrapOr([]))
  }

  /** Each tenant the records name, once. */
  method DistinctTenants(records: seq<Record>) returns (tenants: seq<string>)
    ensures forall t :: t in tenants <==> t != "" && exists i :: 0 <= i < |records| && records[i].tenant == t
    ensures forall i, j :: 0 <= i < j < |tenants| ==> tenants[i] != tenants[j]
  {
    tenants := [];
    for i := 0 to |records|
      invariant forall t :: t in tenants <==> t != "" && exists k :: 0 <= k < i && records[k].tenant == t
      invariant forall j, k :: 0 <= j < k < |tenants| ==> tenants[j] != tenants[k]
    {
      if records[i].tenant != "" && records[i].tenant !in tenants {
        tenants := tenants + [records[i].tenant];
      }
    }
  }

  ghost function VpcKeys(records: seq<Record>): set<Key> {
    set r | r in records && r.scope == VPC :: (r.tenant, r.key)
  }

  lemma VpcKeysSnoc(records: seq<Record>, i: nat)
    requires i < |records|
    ensures VpcKeys(records[..i + 1]) ==
      VpcKeys(records[..i]) + (if records[i].scope == VPC then {(records[i].tenant, records[i].key)} else {})
  {
    assert records[..i + 1] == records[..i] + [records[i]];
  }

  // ----- the service -----

  /** What svc.Adopt may answer: an error, a 202, no allocation at all, or an allocation. */
  datatype Answer = Error | Accepted | Nothing | Allocated(a: Ledger)

  datatype PlanAnswer = PlanError | Plans(existing: bool, pending: bool)

  /** The answer to the next call; a service that has none left fails. */
  function Next(answers: seq<Answer>): Answer {
    if answers == [] then Error else answers[0]
  }

  /** What is left to answer after a call. */
  function Rest<T>(answers: seq<T>): seq<T> {
    if answers == [] then [] else answers[1..]
  }

  function NextPlan(plans: seq<PlanAnswer>): PlanAnswer {
    if plans == [] then PlanError else plans[0]
  }

  /** A call of svc.Adopt: the record, and the parent the request names. */
  datatype Call = Call(record: Record, parent: Option<ParentRef>)

  class Service {
    const ledger: string -> Option<seq<Ledger>>
    var plans: seq<PlanAnswer>
    var answers: seq<Answer>
    ghost var calls: seq<Call>

    constructor (ledger: string -> Option<seq<Ledger>>, plans: seq<PlanAnswer>, answers: seq<Answer>)
      ensures this.ledger == ledger && this.plans == plans && this.answers == answers && calls == []
    {
      this.ledger, this.plans, this.answers, calls := ledger, plans, answers, [];
    }

    method PlanAdoption() returns (a: PlanAnswer)
      modifies `plans
      ensures a == NextPlan(old(plans)) && plans == Rest(old(plans))
    {
      if plans == [] {
        return PlanError;
      }
      a, plans := plans[0], plans[1..];
    }

    method Adopt(r: Record, parent: Option<ParentRef>) returns (a: Answer)
      modifies `answers, `calls
      ensures calls == old(calls) + [Call(r, parent)] && a == Next(old(answers)) && answers == Rest(old(answers))
    {
      calls := calls + [Call(r, parent)];
      if answers == [] {
        return Error;
      }
      a, answers := answers[0], answers[1..];
    }
  }

  // ----- the plan -----

  datatype Verdict = Refused | DeferredVerdict | WaitingVerdict | PendingVerdict | WouldReplay | WouldAdopt

  /** What a record must be for the plan not to refuse it. */
  predicate Plannable(r: Record, resolved: map<Key, ParentRef>, inFile: set<Key>) {
    WellFormed(r) && (r.scope == SUBNET ==> (r.tenant, r.parentKey) in resolved || (r.tenant, r.parentKey) in inFile)
  }

  /** The plan gets as far as asking the service: nothing is wrong with the row, its parent is ready, and one identity acts for it. */
  ghost predicate Asks(r: Record, identities: seq<Principal>, resolved: map<Key, ParentRef>) {
    && WellFormed(r) && SoleCovered(identities, r)
    && (r.scope == SUBNET ==> (r.tenant, r.parentKey) in resolved && resolved[(r.tenant, r.parentKey)].bound)
  }

  /** The row must wait for its parent: it is in this file, or known and not bound yet. */
  predicate Waits(r: Record, resolved: map<Key, ParentRef>, inFile: set<Key>) {
    && WellFormed(r) && r.scope == SUBNET
    && if (r.tenant, r.parentKey) in resolved then !resolved[(r.tenant, r.parentKey)].bound else (r.tenant, r.parentKey) in inFile
  }

  /** The verdict that a row gets when the service's next plan is this one. */
  ghost predicate Judged(
    v: Verdict, r: Record, identities: seq<Principal>, resolved: map<Key, ParentRef>, inFile: set<Key>, plan: PlanAnswer)
  {
    && (v == DeferredVerdict <==> Waits(r, resolved, inFile) && (r.tenant, r.parentKey) !in resolved)
    && (v == WaitingVerdict <==> Waits(r, resolved, inFile) && (r.tenant, r.parentKey) in resolved)
    && (v == PendingVerdict <==> Asks(r, identities, resolved) && plan == Plans(true, true))
    && (v == WouldReplay <==> Asks(r, identities, resolved) && plan == Plans(true, false))
    && (v == WouldAdopt <==> Asks(r, identities, resolved) && plan.Plans? && !plan.existing)
  }

  /** Refused exactly when the row is malformed, its parent is nowhere, or it need not wait and nobody or several act for it, or the service objects. */
  lemma RefusedIff(
    v: Verdict, r: Record, identities: seq<Principal>, resolved: map<Key, ParentRef>, inFile: set<Key>, plan: PlanAnswer)
    requires Judged(v, r, identities, resolved, inFile, plan)
    ensures v == Refused <==>
      || !Plannable(r, resolved, inFile)
      || (!Waits(r, resolved, inFile) && (!SoleCovered(identities, r) || plan.PlanError?))
  {
  }

  method EvaluateRecord(svc: Service, identities: seq<Principal>, r: Record, pl: ParentLookup) returns (v: Verdict)
    modifies svc`plans
    ensures Judged(v, r, identities, pl.resolved, pl.inFile, NextPlan(old(svc.plans)))
    ensures svc.plans == if Asks(r, identities, pl.resolved) then Rest(old(svc.plans)) else old(svc.plans)
  {
    if !WellFormed(r) {
      return Refused;
    }
    if r.scope == SUBNET {
      var parent := pl.Resolve(r.tenant, r.parentKey);
      if parent.Unknown? {
        return Refused;
      }
      if parent.Deferred? {
        return DeferredVerdict;
      }
      if !parent.parent.bound {
        return WaitingVerdict;
      }
    }
    var principal := ResolvePrincipal(identities, r);
    if principal.None? {
      return Refused;
    }
    var plan := svc.PlanAdoption();
    if plan.PlanError? {
      return Refused;
    }
    v := if plan.existing && plan.pending then PendingVerdict else if plan.existing then WouldReplay else WouldAdopt;
  }

  /** How many of the rows the service is asked about. */
  ghost function Asked(rows: seq<Record>, identities: seq<Principal>, resolved: map<Key, ParentRef>): nat {
    if rows == [] then 0
    else Asked(rows[..|rows| - 1], identities, resolved) + if Asks(rows[|rows| - 1], identities, resolved) then 1 else 0
  }

  /** The plans still to come after n of them. */
  function Later(plans: seq<PlanAnswer>, n: nat): seq<PlanAnswer> {
    if n <= |plans| then plans[n..] else []
  }

  ghost predicate JudgedAt(
    v: Verdict, before: seq<Record>, r: Record, identities: seq<Principal>, resolved: map<Key, ParentRef>, inFile: set<Key>,
    plans: seq<PlanAnswer>)
  {
    Judged(v, r, identities, resolved, inFile, NextPlan(Later(plans, Asked(before, identities, resolved))))
  }

  /** Each row in turn gets the verdict its own answer leads to. */
  ghost predicate AllJudged(
    verdicts: seq<Verdict>, rows: seq<Record>, identities: seq<Principal>, resolved: map<Key, ParentRef>, inFile: set<Key>,
    plans: seq<PlanAnswer>)
  {
    |verdicts| == |rows| && forall i :: 0 <= i < |rows| ==>
      JudgedAt(verdicts[i], rows[..i], rows[i], identities, resolved, inFile, plans)
  }

  lemma AskedSnoc(rows: seq<Record>, i: nat, identities: seq<Principal>, resolved: map<Key, ParentRef>)
    requires i < |rows|
    ensures Asked(rows[..i + 1], identities, resolved) ==
      Asked(rows[..i], identities, resolved) + if Asks(rows[i], identities, resolved) then 1 else 0
  {
    assert rows[..i + 1][..i] == rows[..i];
  }

  lemma JudgedSnoc(
    verdicts: seq<Verdict>, rows: seq<Record>, i: nat, v: Verdict, identities: seq<Principal>, resolved: map<Key, ParentRef>,
    inFile: set<Key>, plans: seq<PlanAnswer>)
    requires i < |rows| && AllJudged(verdicts, rows[..i], identities, resolved, inFile, plans)
    requires JudgedAt(v, rows[..i], rows[i], identities, resolved, inFile, plans)
    ensures AllJudged(verdicts + [v], rows[..i + 1], identities, resolved, inFile, plans)
  {
    var p := (v: Verdict, before: seq<Record>, r: Record) => JudgedAt(v, before, r, identities, resolved, inFile, plans);
    assert Each(p, verdicts, rows[..i]);
    EachSnoc(p, verdicts, rows, i, v);
  }

  /** Something holds of every row, what came before it, and its verdict. */
  ghost predicate Each(p: (Verdict, seq<Record>, Record) -> bool, verdicts: seq<Verdict>, rows: seq<Record>) {
    |verdicts| == |rows| && forall i :: 0 <= i < |rows| ==> p(verdicts[i], rows[..i], rows[i])
  }

  lemma EachSnoc(p: (Verdict, seq<Record>, Record) -> bool, verdicts: seq<Verdict>, rows: seq<Record>, i: nat, v: Verdict)
    requires i < |rows| && Each(p, verdicts, rows[..i]) && p(v, rows[..i], rows[i])
    ensures Each(p, verdicts + [v], rows[..i + 1])
  {
    var taken, all, init := rows[..i + 1], verdicts + [v], rows[..i];
    forall k | 0 <= k < |taken| ensures p(all[k], taken[..k], taken[k]) {
      assert taken[..k] == rows[..k];
      assert k < i ==> init[..k] == rows[..k] && init[k] == taken[k] && p(verdicts[k], init[..k], init[k]);
    }
  }

  /** evaluateAll: every record is evaluated, and none is adopted. */
  method EvaluateAll(svc: Service, identities: seq<Principal>, records: seq<Record>, pl: ParentLookup)
    returns (verdicts: seq<Verdict>)
    modifies svc`plans
    ensures AllJudged(verdicts, records, identities, pl.resolved, pl.inFile, old(svc.plans))
  {
    verdicts := [];
    for i := 0 to |records|
      invariant AllJudged(verdicts, records[..i], identities, pl.resolved, pl.inFile, old(svc.plans))
      invariant svc.plans == Later(old(svc.plans), Asked(records[..i], identities, pl.resolved))
    {
      var v := EvaluateRecord(svc, identities, records[i], pl);
      AskedSnoc(records, i, identities, pl.resolved);
      JudgedSnoc(verdicts, records, i, v, identities, pl.resolved, pl.inFile, old(svc.plans));
      verdicts := verdicts + [v];
    }
    assert records[..|records|] == records;
  }

  ghost predicate AllPlannable(rows: seq<Record>, resolved: map<Key, ParentRef>, inFile: set<Key>) {
    forall i :: 0 <= i < |rows| ==> Plannable(rows[i], resolved, inFile)
  }

  ghost predicate AllCovered(identities: seq<Principal>, rows: seq<Record>) {
    forall i :: 0 <= i < |rows| ==> SoleCovered(identities, rows[i])
  }

  /** HasRefusals, read off the rows. */
  lemma NoRefusalMeans(
    verdicts: seq<Verdict>, rows: seq<Record>, identities: seq<Principal>, resolved: map<Key, ParentRef>, inFile: set<Key>,
    plans: seq<PlanAnswer>)
    requires AllJudged(verdicts, rows, identities, resolved, inFile, plans)
    ensures Refused !in verdicts ==> AllPlannable(rows, resolved, inFile)
    ensures Unobjecting(plans, |rows|) && AllPlannable(rows, resolved, inFile) && AllCovered(identities, rows) ==> Refused !in verdicts
  {
    forall i | 0 <= i < |rows|
      ensures verdicts[i] != Refused ==> Plannable(rows[i], resolved, inFile)
      ensures Unobjecting(plans, |rows|) && Plannable(rows[i], resolved, inFile) && SoleCovered(identities, rows[i]) ==> verdicts[i] != Refused
    {
      assert JudgedAt(verdicts[i], rows[..i], rows[i], identities, resolved, inFile, plans);
      var n := Asked(rows[..i], identities, resolved);
      AskedFew(rows[..i], identities, resolved);
      RefusedIff(verdicts[i], rows[i], identities, resolved, inFile, NextPlan(Later(plans, n)));
    }
  }

  /** The service has that many plans to give, and objects to none. */
  predicate Unobjecting(plans: seq<PlanAnswer>, n: nat) {
    n <= |plans| && forall i :: 0 <= i < n ==> plans[i].Plans?
  }

  lemma {:induction false} AskedFew(rows: seq<Record>, identities: seq<Principal>, resolved: map<Key, ParentRef>)
    ensures Asked(rows, identities, resolved) <= |rows|
    decreases |rows|
  {
    if rows != [] {
      AskedFew(rows[..|rows| - 1], identities, resolved);
    }
  }

  // ----- the writes -----

  datatype Reason = InvalidRecord | UnresolvedParent | NoPrincipal | ServiceRefused | StillPending | NoAllocation

  datatype Status = Adopted(id: string) | WaitingForParent | Failed(reason: Reason) | NotAttempted

  datatype Outcome = Outcome(record: Record, status: Status)

  /** The service was asked about the record. */
  predicate Called(o: Outcome) {
    || o.status.Adopted?
    || (o.status.Failed? && (o.status.reason.ServiceRefused? || o.status.reason.StillPending? || o.status.reason.NoAllocation?))
  }

  ghost function CalledRecords(outcomes: seq<Outcome>): seq<Record> {
    if outcomes == [] then []
    else
      var o := outcomes[|outcomes| - 1];
      CalledRecords(outcomes[..|outcomes| - 1]) + if Called(o) then [o.record] else []
  }

  ghost function Records(calls: seq<Call>): seq<Record> {
    if calls == [] then [] else Records(calls[..|calls| - 1]) + [calls[|calls| - 1].record]
  }

  predicate FromRow(a: Ledger, key: Key, ref: ParentRef) {
    a.key == key.1 && ref == ParentRef(a.id, a.bound)
  }

  predicate FromOutcome(o: Outcome, key: Key, ref: ParentRef) {
    o.status == Adopted(ref.id) && (o.record.tenant, o.record.key) == key
  }

  /** The allocation is the one the ledger holds under the key, or the one this run adopted under it. */
  ghost predicate Sourced(ledger: string -> Option<seq<Ledger>>, outcomes: seq<Outcome>, key: Key, ref: ParentRef) {
    || (exists j :: 0 <= j < |ledger(key.0).UnwrapOr([])| && FromRow(ledger(key.0).UnwrapOr([])[j], key, ref))
    || (exists j :: 0 <= j < |outcomes| && FromOutcome(outcomes[j], key, ref))
  }

  ghost predicate AllSourced(ledger: string -> Option<seq<Ledger>>, outcomes: seq<Outcome>, resolved: map<Key, ParentRef>) {
    forall key :: key in resolved ==> Sourced(ledger, outcomes, key, resolved[key])
  }

  /** A subnet is adopted only under a bound parent, and it is the parent its record names. */
  ghost predicate ParentsSourced(ledger: string -> Option<seq<Ledger>>, outcomes: seq<Outcome>, calls: seq<Call>) {
    forall i :: 0 <= i < |calls| && calls[i].record.scope == SUBNET ==>
      && calls[i].parent.Some? && calls[i].parent.value.bound
      && Sourced(ledger, outcomes, (calls[i].record.tenant, calls[i].record.parentKey), calls[i].parent.value)
  }

  lemma SourcedMore(ledger: string -> Option<seq<Ledger>>, outcomes: seq<Outcome>, o: Outcome, key: Key, ref: ParentRef)
    requires Sourced(ledger, outcomes, key, ref) || FromOutcome(o, key, ref)
    ensures Sourced(ledger, outcomes + [o], key, ref)
  {
    var more := outcomes + [o];
    if j :| 0 <= j < |outcomes| && FromOutcome(outcomes[j], key, ref) {
      assert FromOutcome(more[j], key, ref);
    }
    assert more[|outcomes|] == o;
  }

  lemma {:induction false} NoteAllSourced(
    ledger: string -> Option<seq<Ledger>>, m: map<Key, ParentRef>, tenant: string, rows: seq<Ledger>, all: seq<Ledger>)
    requires AllSourced(ledger, [], m) && rows <= all == ledger(tenant).UnwrapOr([])
    ensures AllSourced(ledger, [], NoteAll(m, tenant, rows))
    decreases |rows|
  {
    if rows != [] {
      var a := rows[|rows| - 1];
      NoteAllSourced(ledger, m, tenant, rows[..|rows| - 1], all);
      assert FromRow(all[|rows| - 1], (tenant, a.key), ParentRef(a.id, a.bound));
    }
  }

  lemma {:induction false} SeedAllSourced(ledger: string -> Option<seq<Ledger>>, tenants: seq<string>)
    ensures AllSourced(ledger, [], SeedAll(map[], ledger, tenants))
    decreases |tenants|
  {
    if tenants != [] {
      var t := tenants[|tenants| - 1];
      SeedAllSourced(ledger, tenants[..|tenants| - 1]);
      var rows := ledger(t).UnwrapOr([]);
      NoteAllSourced(ledger, SeedAll(map[], ledger, tenants[..|tenants| - 1]), t, rows, rows);
    }
  }

  /** Every call names the parent the lookup held under the record's parent key, and it was bound. */
  ghost predicate CallsUnder(was: map<Key, ParentRef>, calls: seq<Call>) {
    forall i :: 0 <= i < |calls| && calls[i].record.scope == SUBNET ==>
      var key := (calls[i].record.tenant, calls[i].record.parentKey);
      key in was && calls[i].parent == Some(was[key]) && was[key].bound
  }

  /** The lookup gained the adopted record, or nothing. */
  ghost predicate NotedBy(was: map<Key, ParentRef>, now: map<Key, ParentRef>, o: Outcome) {
    if o.status.Adopted? then
      var key := (o.record.tenant, o.record.key);
      key in now && now[key].id == o.status.id && now == was[key := now[key]]
    else now == was
  }

  /** Adopted or waiting, then at most one failure, then nothing attempted. */
  ghost predicate Shape(outcomes: seq<Outcome>) {
    Settled(outcomes, |outcomes|) || Ended(outcomes)
  }

  /** A failure happened, and nothing was attempted after it. */
  ghost predicate Ended(outcomes: seq<Outcome>) {
    exists k :: 0 <= k < |outcomes| && EndedAt(outcomes, k)
  }

  ghost predicate EndedAt(outcomes: seq<Outcome>, k: nat)
    requires k < |outcomes|
  {
    Settled(outcomes, k) && outcomes[k].status.Failed? && Abandoned(outcomes, k + 1)
  }

  ghost predicate Settled(outcomes: seq<Outcome>, k: nat) {
    forall i :: 0 <= i < k && i < |outcomes| ==> outcomes[i].status.Adopted? || outcomes[i].status.WaitingForParent?
  }

  ghost predicate Abandoned(outcomes: seq<Outcome>, k: nat) {
    forall i :: k <= i < |outcomes| ==> outcomes[i].status.NotAttempted?
  }

  /** What an answer of the service makes of the record. */
  function StatusOf(a: Answer): Status {
    match a
    case Error => Failed(ServiceRefused)
    case Accepted => Failed(StillPending)
    case Nothing => Failed(NoAllocation)
    case Allocated(l) => Adopted(l.id)
  }

  function RefOf(a: Answer): ParentRef {
    if a.Allocated? then ParentRef(a.a.id, a.a.bound) else ParentRef("", false)
  }

  /** Adopts one record; halt stops the run. */
  method AttemptOne(svc: Service, identities: seq<Principal>, pl: ParentLookup, r: Record) returns (o: Outcome, halt: bool)
    modifies svc`answers, svc`calls, pl`resolved
    ensures o.record == r && !o.status.NotAttempted?
    ensures halt <==> o.status.Failed?
    ensures o.status == Failed(InvalidRecord) <==> !WellFormed(r)
    ensures o.status == Failed(UnresolvedParent) ==> r.scope == SUBNET && (r.tenant, r.parentKey) !in old(pl.resolved)
    ensures o.status == WaitingForParent <==> WellFormed(r) && r.scope == SUBNET && Unbound(old(pl.Resolve(r.tenant, r.parentKey)))
    ensures Called(o) <==> Asks(r, identities, old(pl.resolved))
    ensures o.status == Failed(NoPrincipal) ==> !SoleCovered(identities, r)
    ensures Called(o) ==> o.status == StatusOf(Next(old(svc.answers)))
    ensures svc.answers == if Called(o) then Rest(old(svc.answers)) else old(svc.answers)
    ensures Called(o) && r.scope == SUBNET ==>
      old(pl.Resolve(r.tenant, r.parentKey)).Found? &&
      svc.calls == old(svc.calls) + [Call(r, Some(old(pl.Resolve(r.tenant, r.parentKey)).parent))]
    ensures pl.resolved == if o.status.Adopted? then old(pl.resolved)[(r.tenant, r.key) := RefOf(Next(old(svc.answers)))] else old(pl.resolved)
    ensures r.scope == VPC ==> !o.status.WaitingForParent?
    ensures old(svc.calls) <= svc.calls && CallsUnder(old(pl.resolved), svc.calls[|old(svc.calls)|..])
    ensures Records(svc.calls[|old(svc.calls)|..]) == (if Called(o) then [r] else [])
  {
    if !WellFormed(r) {
      return Outcome(r, Failed(InvalidRecord)), true;
    }
    var named: Option<ParentRef> := None;
    if r.scope == SUBNET {
      var parent := pl.Resolve(r.tenant, r.parentKey);
      if parent.Found? && !parent.parent.bound {
        return Outcome(r, WaitingForParent), false;
      }
      if !parent.Found? {
        return Outcome(r, Failed(UnresolvedParent)), true;
      }
      named := Some(parent.parent);
    }
    var principal := ResolvePrincipal(identities, r);
    if principal.None? {
      return Outcome(r, Failed(NoPrincipal)), true;
    }
    var answer := svc.Adopt(r, named);
    OneCall(old(svc.calls), Call(r, named));
    match answer
    case Error => return Outcome(r, Failed(ServiceRefused)), true;
    case Accepted => return Outcome(r, Failed(StillPending)), true;
    case Nothing => return Outcome(r, Failed(NoAllocation)), true;
    case Allocated(a) =>
      pl.Note(r.tenant, r.key, a);
      return Outcome(r, Adopted(a.id)), false;
  }

  lemma OneCall(calls: seq<Call>, c: Call)
    ensures (calls + [c])[|calls|..] == [c] && Records([c]) == [c.record]
  {
    assert [c][..0] == [];
    assert Records([c]) == Records([]) + [c.record];
  }

  /** Where a run stands after its first i records. */
  ghost predicate Progress(
    ledger: string -> Option<seq<Ledger>>, identities: seq<Principal>, ordered: seq<Record>, i: nat, outcomes: seq<Outcome>,
    stopped: bool, resolved: map<Key, ParentRef>, calls: seq<Call>)
  {
    && i <= |ordered| && |outcomes| == i
    && (forall k :: 0 <= k < i ==> outcomes[k].record == ordered[k])
    && (if stopped then Ended(outcomes) else Settled(outcomes, i))
    && ParentsSourced(ledger, outcomes, calls) && AllSourced(ledger, outcomes, resolved)
    && Records(calls) == CalledRecords(outcomes)
    && (!stopped ==> VpcKeys(ordered[..i]) <= resolved.Keys)
    && Expected(identities, outcomes)
  }

  /** No record took a branch the plan rules out. */
  ghost predicate Expected(identities: seq<Principal>, outcomes: seq<Outcome>) {
    forall k :: 0 <= k < |outcomes| ==>
      && outcomes[k].status != Failed(UnresolvedParent) && outcomes[k].status != Failed(InvalidRecord)
      && (outcomes[k].status == Failed(NoPrincipal) ==> !SoleCovered(identities, outcomes[k].record))
  }

  lemma EndedSnoc(outcomes: seq<Outcome>, o: Outcome)
    requires Ended(outcomes) && o.status.NotAttempted?
    ensures Ended(outcomes + [o])
  {
    var k :| 0 <= k < |outcomes| && EndedAt(outcomes, k);
    assert EndedAt(outcomes + [o], k);
  }

  lemma FailureEnds(outcomes: seq<Outcome>, o: Outcome)
    requires Settled(outcomes, |outcomes|) && o.status.Failed?
    ensures Ended(outcomes + [o])
  {
    assert EndedAt(outcomes + [o], |outcomes|);
  }

  lemma {:induction false} RecordsConcat(c: seq<Call>, d: seq<Call>)
    ensures Records(c + d) == Records(c) + Records(d)
    decreases |d|
  {
    if d == [] {
      assert c + d == c;
    } else {
      RecordsConcat(c, d[..|d| - 1]);
      assert (c + d)[..|c + d| - 1] == c + d[..|d| - 1];
    }
  }

  lemma CallsStep(outcomes: seq<Outcome>, o: Outcome, calls: seq<Call>, made: seq<Call>)
    requires Records(calls) == CalledRecords(outcomes) && Records(made) == (if Called(o) then [o.record] else [])
    ensures Records(calls + made) == CalledRecords(outcomes + [o])
  {
    RecordsConcat(calls, made);
    assert (outcomes + [o])[..|outcomes|] == outcomes;
  }

  lemma SourcesStep(
    ledger: string -> Option<seq<Ledger>>, outcomes: seq<Outcome>, o: Outcome, was: map<Key, ParentRef>, now: map<Key, ParentRef>,
    calls: seq<Call>, made: seq<Call>)
    requires AllSourced(ledger, outcomes, was) && ParentsSourced(ledger, outcomes, calls)
    requires CallsUnder(was, made) && NotedBy(was, now, o)
    ensures AllSourced(ledger, outcomes + [o], now) && ParentsSourced(ledger, outcomes + [o], calls + made)
  {
    forall key | key in now ensures Sourced(ledger, outcomes + [o], key, now[key]) {
      SourcedMore(ledger, outcomes, o, key, now[key]);
    }
    var all := calls + made;
    forall i | 0 <= i < |all| && all[i].record.scope == SUBNET
      ensures all[i].parent.Some? && all[i].parent.value.bound
      ensures Sourced(ledger, outcomes + [o], (all[i].record.tenant, all[i].record.parentKey), all[i].parent.value)
    {
      assert if i < |calls| then all[i] == calls[i] else all[i] == made[i - |calls|];
      SourcedMore(ledger, outcomes, o, (all[i].record.tenant, all[i].record.parentKey), all[i].parent.value);
    }
  }

  lemma ProgressStep(
    ledger: string -> Option<seq<Ledger>>, identities: seq<Principal>, ordered: seq<Record>, i: nat, outcomes: seq<Outcome>,
    stopped: bool, was: map<Key, ParentRef>, now: map<Key, ParentRef>, calls: seq<Call>, made: seq<Call>, o: Outcome)
    requires i < |ordered| && Progress(ledger, identities, ordered, i, outcomes, stopped, was, calls) && o.record == ordered[i]
    requires if stopped then o.status.NotAttempted? && made == [] else !o.status.NotAttempted?
    requires CallsUnder(was, made) && NotedBy(was, now, o) && Records(made) == (if Called(o) then [o.record] else [])
    requires ordered[i].scope == VPC ==> !o.status.WaitingForParent?
    requires Expected(identities, [o])
    ensures Progress(ledger, identities, ordered, i + 1, outcomes + [o], stopped || o.status.Failed?, now, calls + made)
  {
    CallsStep(outcomes, o, calls, made);
    SourcesStep(ledger, outcomes, o, was, now, calls, made);
    ExpectedSnoc(identities, outcomes, o);
    ShapeStep(outcomes, o, stopped);
    KeysStep(ordered, i, was, now, o, stopped);
  }

  lemma ExpectedSnoc(identities: seq<Principal>, outcomes: seq<Outcome>, o: Outcome)
    requires Expected(identities, outcomes) && Expected(identities, [o])
    ensures Expected(identities, outcomes + [o])
  {
    assert [o][0] == o;
  }

  lemma ShapeStep(outcomes: seq<Outcome>, o: Outcome, stopped: bool)
    requires if stopped then Ended(outcomes) && o.status.NotAttempted? else Settled(outcomes, |outcomes|) && !o.status.NotAttempted?
    ensures if stopped || o.status.Failed? then Ended(outcomes + [o]) else Settled(outcomes + [o], |outcomes| + 1)
  {
    if stopped {
      EndedSnoc(outcomes, o);
    } else if o.status.Failed? {
      FailureEnds(outcomes, o);
    }
  }

  lemma KeysStep(ordered: seq<Record>, i: nat, was: map<Key, ParentRef>, now: map<Key, ParentRef>, o: Outcome, stopped: bool)
    requires i < |ordered| && o.record == ordered[i] && NotedBy(was, now, o)
    requires (!stopped ==> VpcKeys(ordered[..i]) <= was.Keys) && (stopped || !o.status.NotAttempted?)
    requires ordered[i].scope == VPC ==> !o.status.WaitingForParent?
    ensures !(stopped || o.status.Failed?) ==> VpcKeys(ordered[..i + 1]) <= now.Keys
  {
    VpcKeysSnoc(ordered, i);
  }

  /** Once the first subnet is reached every vpc key of the file is resolved. */
  lemma ParentsResolved(records: seq<Record>, i: nat, resolved: map<Key, ParentRef>, inFile: set<Key>, seeded: map<Key, ParentRef>)
    requires i < |ParentsFirst(records)| && ParentsFirst(records)[i].scope == SUBNET
    requires Plannable(ParentsFirst(records)[i], seeded, inFile) && inFile == VpcKeys(ParentsFirst(records))
    requires VpcKeys(ParentsFirst(records)[..i]) <= resolved.Keys && seeded.Keys <= resolved.Keys
    ensures var r := ParentsFirst(records)[i]; (r.tenant, r.parentKey) in resolved
  {
    var ordered := ParentsFirst(records);
    ParentsFirstOrders(records);
    forall k | k in VpcKeys(ordered) ensures k in VpcKeys(ordered[..i]) {
      var r :| r in ordered && r.scope == VPC && (r.tenant, r.key) == k;
      var j :| 0 <= j < |ordered| && ordered[j] == r;
      assert j < i;
      assert ordered[..i][j] == r;
    }
  }

  /** The ledger lists the key for the tenant, or a vpc row of the file declares it. */
  ghost predicate ParentKnown(ledger: string -> Option<seq<Ledger>>, records: seq<Record>, tenant: string, key: string) {
    || (exists j :: 0 <= j < |ledger(tenant).UnwrapOr([])| && ledger(tenant).UnwrapOr([])[j].key == key)
    || (exists r :: r in records && r.scope == VPC && r.tenant == tenant && r.key == key)
  }

  /** The row is well formed, and its parent is known. */
  ghost predicate Acceptable(ledger: string -> Option<seq<Ledger>>, records: seq<Record>, r: Record) {
    WellFormed(r) && (r.scope == SUBNET ==> ParentKnown(ledger, records, r.tenant, r.parentKey))
  }

  ghost predicate AllAcceptable(ledger: string -> Option<seq<Ledger>>, records: seq<Record>) {
    forall i :: 0 <= i < |records| ==> Acceptable(ledger, records, records[i])
  }

  lemma {:induction false} NoteAllKeys(m: map<Key, ParentRef>, tenant: string, rows: seq<Ledger>, key: Key)
    ensures key in NoteAll(m, tenant, rows) <==>
      key in m || (key.0 == tenant && exists j :: 0 <= j < |rows| && rows[j].key == key.1)
    decreases |rows|
  {
    if rows != [] {
      var init := rows[..|rows| - 1];
      NoteAllKeys(m, tenant, init, key);
      assert forall j :: 0 <= j < |init| ==> init[j] == rows[j];
    }
  }

  lemma {:induction false} SeedAllKeys(ledger: string -> Option<seq<Ledger>>, tenants: seq<string>, key: Key)
    ensures key in SeedAll(map[], ledger, tenants) <==>
      key.0 in tenants && exists j :: 0 <= j < |ledger(key.0).UnwrapOr([])| && ledger(key.0).UnwrapOr([])[j].key == key.1
    decreases |tenants|
  {
    if tenants != [] {
      var t, init := tenants[|tenants| - 1], tenants[..|tenants| - 1];
      SeedAllKeys(ledger, init, key);
      NoteAllKeys(SeedAll(map[], ledger, init), t, ledger(t).UnwrapOr([]), key);
      assert tenants == init + [t];
    }
  }

  /** Plannable, told from the ledger and the file. */
  lemma PlannableIff(
    ledger: string -> Option<seq<Ledger>>, records: seq<Record>, ordered: seq<Record>, tenants: seq<string>, r: Record)
    requires multiset(ordered) == multiset(records) && (r.tenant != "" ==> r.tenant in tenants)
    ensures Plannable(r, SeedAll(map[], ledger, tenants), VpcKeys(ordered)) <==> Acceptable(ledger, records, r)
  {
    SeedAllKeys(ledger, tenants, (r.tenant, r.parentKey));
    forall q: Record ensures q in ordered <==> q in records {
      SameMembers(ordered, records, q);
    }
  }

  lemma SameMembers(s: seq<Record>, t: seq<Record>, r: Record)
    requires multiset(s) == multiset(t)
    ensures r in s <==> r in t
  {
    assert r in multiset(s) <==> r in s;
    assert r in multiset(t) <==> r in t;
  }

  lemma SameRows(s: seq<Record>, t: seq<Record>)
    requires multiset(s) == multiset(t)
    ensures forall r :: r in s <==> r in t
  {
    forall r: Record ensures r in s <==> r in t {
      SameMembers(s, t, r);
    }
  }

  /** The two readings of "no row is refused" agree on all rows. */
  lemma AllPlannableIff(ledger: string -> Option<seq<Ledger>>, records: seq<Record>, ordered: seq<Record>, tenants: seq<string>)
    requires multiset(ordered) == multiset(records)
    requires forall t :: t in tenants <==> t != "" && exists i :: 0 <= i < |ordered| && ordered[i].tenant == t
    ensures AllPlannable(ordered, SeedAll(map[], ledger, tenants), VpcKeys(ordered)) <==> AllAcceptable(ledger, records)
  {
    forall i | 0 <= i < |ordered|
      ensures Plannable(ordered[i], SeedAll(map[], ledger, tenants), VpcKeys(ordered)) <==> Acceptable(ledger, records, ordered[i])
    {
      PlannableIff(ledger, records, ordered, tenants, ordered[i]);
    }
    SameRows(ordered, records);
    if AllAcceptable(ledger, records) {
      forall i | 0 <= i < |ordered| ensures Acceptable(ledger, records, ordered[i]) {
        assert ordered[i] in records;
      }
    }
    if AllPlannable(ordered, SeedAll(map[], ledger, tenants), VpcKeys(ordered)) {
      forall i | 0 <= i < |records| ensures Acceptable(ledger, records, records[i]) {
        assert records[i] in ordered;
      }
    }
  }

  lemma AllCoveredIff(identities: seq<Principal>, records: seq<Record>, ordered: seq<Record>)
    requires forall r :: r in ordered <==> r in records
    ensures AllCovered(identities, ordered) <==> AllCovered(identities, records)
  {
    forall i | 0 <= i < |ordered| ensures ordered[i] in records { assert ordered[i] in ordered; }
    forall i | 0 <= i < |records| ensures records[i] in ordered { assert records[i] in records; }
  }

  lemma TenantsListed(ledger: string -> Option<seq<Ledger>>, records: seq<Record>, ordered: seq<Record>, tenants: seq<string>)
    requires forall r :: r in ordered <==> r in records
    requires forall t :: t in tenants <==> t != "" && exists i :: 0 <= i < |ordered| && ordered[i].tenant == t
    ensures (forall i :: 0 <= i < |tenants| ==> ledger(tenants[i]).Some?) <==>
      forall i :: 0 <= i < |records| && records[i].tenant != "" ==> ledger(records[i].tenant).Some?
  {
    if forall i :: 0 <= i < |tenants| ==> ledger(tenants[i]).Some? {
      forall i | 0 <= i < |records| && records[i].tenant != "" ensures ledger(records[i].tenant).Some? {
        assert records[i] in ordered;
        var k :| 0 <= k < |ordered| && ordered[k] == records[i];
        assert records[i].tenant in tenants;
      }
    }
    if forall i :: 0 <= i < |records| && records[i].tenant != "" ==> ledger(records[i].tenant).Some? {
      forall i | 0 <= i < |tenants| ensures ledger(tenants[i]).Some? {
        assert tenants[i] in tenants;
        var k :| 0 <= k < |ordered| && ordered[k].tenant == tenants[i];
        assert ordered[k] in records;
      }
    }
  }

  /**
    performApply: the outcomes are the records, parents first, adopted or
    waiting up to at most one failure and untouched after it; the service is
    asked about exactly the records whose outcome says so, never about any
    when the plan refused one, and about a subnet only under the bound parent its
    record names; and no record fails for a parent that did not resolve.
   */
  method PerformApply(svc: Service, identities: seq<Principal>, records: seq<Record>)
    returns (ok: bool, verdicts: seq<Verdict>, outcomes: seq<Outcome>)
    modifies svc`plans, svc`answers, svc`calls
    ensures old(svc.calls) <= svc.calls
    ensures !ok || Refused in verdicts ==> svc.calls == old(svc.calls) && outcomes == []
    ensures ok ==> |verdicts| == |records|
    ensures ok <==> forall i :: 0 <= i < |records| && records[i].tenant != "" ==> svc.ledger(records[i].tenant).Some?
    ensures ok && Refused !in verdicts ==> AllAcceptable(svc.ledger, records)
    ensures ok && AllAcceptable(svc.ledger, records) && AllCovered(identities, records) && Unobjecting(old(svc.plans), |records|) ==>
      Refused !in verdicts && (Willing(old(svc.answers), |records|) ==> Settled(outcomes, |outcomes|))
    ensures ok && Refused !in verdicts ==>
      && |outcomes| == |ParentsFirst(records)| == |records|
      && (forall i :: 0 <= i < |outcomes| ==> outcomes[i].record == ParentsFirst(records)[i])
      && Shape(outcomes)
      && Expected(identities, outcomes)
      && Records(svc.calls[|old(svc.calls)|..]) == CalledRecords(outcomes)
      && ParentsSourced(svc.ledger, outcomes, svc.calls[|old(svc.calls)|..])
  {
    var ordered := OrderParentsFirst(records);
    ParentsFirstOrders(records);
    assert |ordered| == |records| by { assert |multiset(ordered)| == |multiset(records)|; }
    verdicts, outcomes := [], [];
    var pl := new ParentLookup();
    pl.NoteFileRows(ordered);
    var tenants := DistinctTenants(ordered);
    AllPlannableIff(svc.ledger, records, ordered, tenants);
    SameRows(ordered, records);
    AllCoveredIff(identities, records, ordered);
    TenantsListed(svc.ledger, records, ordered, tenants);
    ok := pl.SeedFromLedger(svc, tenants);
    if !ok {
      return;
    }
    verdicts := EvaluateAll(svc, identities, ordered, pl);
    NoRefusalMeans(verdicts, ordered, identities, pl.resolved, pl.inFile, old(svc.plans));
    if Refused in verdicts {
      return;
    }
    SeedAllSourced(svc.ledger, tenants);
    outcomes := Attempt(svc, identities, pl, records, ordered);
  }

  lemma SuffixStep(base: nat, calls: seq<Call>, now: seq<Call>)
    requires base <= |calls| && calls <= now
    ensures now[base..] == calls[base..] + now[|calls|..]
  {
  }

  /** The service has that many answers to give, and each is an allocation. */
  predicate Willing(answers: seq<Answer>, n: nat) {
    n <= |answers| && forall i :: 0 <= i < n ==> answers[i].Allocated?
  }

  lemma WillingNext(answers: seq<Answer>, n: nat)
    requires Willing(answers, n + 1)
    ensures Next(answers).Allocated? && Willing(Rest(answers), n) && Willing(answers, n)
  {
  }

  /** A willing service fails no record that one identity covers and the plan let through. */
  lemma WillingStep(was: seq<Answer>, now: seq<Answer>, identities: seq<Principal>, o: Outcome, n: nat)
    requires Willing(was, n + 1) && Expected(identities, [o]) && SoleCovered(identities, o.record)
    requires now == (if Called(o) then Rest(was) else was) && (Called(o) ==> o.status == StatusOf(Next(was)))
    ensures !o.status.Failed? && Willing(now, n)
  {
    WillingNext(was, n);
    assert [o][0] == o;
  }

  method AttemptUnless(stopped: bool, svc: Service, identities: seq<Principal>, pl: ParentLookup, r: Record) returns (o: Outcome)
    requires WellFormed(r) && (!stopped && r.scope == SUBNET ==> (r.tenant, r.parentKey) in pl.resolved)
    modifies svc`answers, svc`calls, pl`resolved
    ensures o.record == r && Expected(identities, [o])
    ensures Called(o) ==> o.status == StatusOf(Next(old(svc.answers)))
    ensures svc.answers == if Called(o) then Rest(old(svc.answers)) else old(svc.answers)
    ensures old(svc.calls) <= svc.calls && NotedBy(old(pl.resolved), pl.resolved, o)
    ensures if stopped then o.status.NotAttempted? && svc.calls == old(svc.calls) else !o.status.NotAttempted?
    ensures CallsUnder(old(pl.resolved), svc.calls[|old(svc.calls)|..])
    ensures Records(svc.calls[|old(svc.calls)|..]) == (if Called(o) then [r] else [])
    ensures r.scope == VPC ==> !o.status.WaitingForParent?
  {
    if stopped {
      return Outcome(r, NotAttempted);
    }
    var halt;
    o, halt := AttemptOne(svc, identities, pl, r);
  }

  method Attempt(svc: Service, identities: seq<Principal>, pl: ParentLookup, ghost records: seq<Record>, ordered: seq<Record>)
    returns (outcomes: seq<Outcome>)
    requires ordered == ParentsFirst(records) && pl.inFile == VpcKeys(ordered)
    requires AllPlannable(ordered, pl.resolved, pl.inFile)
    requires AllSourced(svc.ledger, [], pl.resolved)
    modifies svc`answers, svc`calls, pl`resolved
    ensures old(svc.calls) <= svc.calls && |outcomes| == |ordered|
    ensures forall i :: 0 <= i < |outcomes| ==> outcomes[i].record == ordered[i]
    ensures Shape(outcomes)
    ensures Expected(identities, outcomes)
    ensures Willing(old(svc.answers), |ordered|) && AllCovered(identities, ordered) ==> Settled(outcomes, |outcomes|)
    ensures Records(svc.calls[|old(svc.calls)|..]) == CalledRecords(outcomes)
    ensures ParentsSourced(svc.ledger, outcomes, svc.calls[|old(svc.calls)|..])
  {
    ghost var base, seeded := |svc.calls|, pl.resolved;
    ghost var willing := Willing(svc.answers, |ordered|) && AllCovered(identities, ordered);
    var stopped := false;
    outcomes := [];
    for i := 0 to |ordered|
      invariant old(svc.calls) <= svc.calls && pl.inFile == VpcKeys(ordered) && seeded.Keys <= pl.resolved.Keys
      invariant Progress(svc.ledger, identities, ordered, i, outcomes, stopped, pl.resolved, svc.calls[base..])
      invariant willing ==> !stopped && Willing(svc.answers, |ordered| - i)
    {
      var o := AttemptNext(svc, identities, pl, records, ordered, i, outcomes, stopped, seeded, base);
      outcomes := outcomes + [o];
      stopped := stopped || o.status.Failed?;
    }
    assert ordered[..|ordered|] == ordered;
  }

  /** The next record of the run. */
  method AttemptNext(
    svc: Service, identities: seq<Principal>, pl: ParentLookup, ghost records: seq<Record>, ordered: seq<Record>, i: nat,
    ghost outcomes: seq<Outcome>, stopped: bool, ghost seeded: map<Key, ParentRef>, ghost base: nat)
    returns (o: Outcome)
    requires ordered == ParentsFirst(records) && pl.inFile == VpcKeys(ordered) && i < |ordered| && base <= |svc.calls|
    requires AllPlannable(ordered, seeded, pl.inFile) && seeded.Keys <= pl.resolved.Keys
    requires Progress(svc.ledger, identities, ordered, i, outcomes, stopped, pl.resolved, svc.calls[base..])
    modifies svc`answers, svc`calls, pl`resolved
    ensures old(svc.calls) <= svc.calls && seeded.Keys <= pl.resolved.Keys
    ensures Progress(
      svc.ledger, identities, ordered, i + 1, outcomes + [o], stopped || o.status.Failed?, pl.resolved, svc.calls[base..])
    ensures !stopped && AllCovered(identities, ordered) && Willing(old(svc.answers), |ordered| - i) ==>
      !o.status.Failed? && Willing(svc.answers, |ordered| - i - 1)
  {
    ghost var was, calls := pl.resolved, svc.calls;
    if !stopped && ordered[i].scope == SUBNET {
      ParentsResolved(records, i, pl.resolved, pl.inFile, seeded);
    }
    ghost var answers := svc.answers;
    o := AttemptUnless(stopped, svc, identities, pl, ordered[i]);
    if !stopped && AllCovered(identities, ordered) && Willing(answers, |ordered| - i) {
      WillingStep(answers, svc.answers, identities, o, |ordered| - i - 1);
    }
    SuffixStep(base, calls, svc.calls);
    ProgressStep(
      svc.ledger, identities, ordered, i, outcomes, stopped, was, pl.resolved, calls[base..], svc.calls[|calls|..], o);
  }
}
