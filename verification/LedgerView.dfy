/**
  What a reader of the inventory finds on a prefix that this system wrote: the
  allocation's own fields, or the import's (ownedFields and Sync in
  internal/netbox/client.go, and occupancy.go, adopt.go, abandon.go).
 */
module LedgerView {
  import opened Cidr
  import opened Optional
  import opened NetBox
  import opened Inventory
  import opened Contributors
  import opened Config
  import opened Ownership
  import opened Requests
  import opened Adoption
  import opened Reservation
  import opened Occupancy
  import opened Onboarding
  import opened RoundTrip
  import Sync

  /** An allocation as the custom fields of a prefix show it. */
  datatype View = View(
    id: string, key: string, operation: string, parent: string, tenant: string, environment: string, pool: string,
    policyVersion: string, state: string, account: string, region: string, zone: string)

  function Read(s: Stored): View {
    View(
      StringCF(s.fields, AllocationId), StringCF(s.fields, AllocationKey), StringCF(s.fields, OperationId),
      StringCF(s.fields, ParentAllocationId), StringCF(s.fields, TenantId), StringCF(s.fields, Environment),
      StringCF(s.fields, PoolId), StringCF(s.fields, PolicyVersion), StringCF(s.fields, State),
      StringCF(s.fields, AwsAccount), StringCF(s.fields, AwsRegion), StringCF(s.fields, AwsAz))
  }

  /** The allocation as the ledger has it. */
  function LedgerOf(a: Allocation, op: string): View {
    View(
      a.id, a.key, op, a.parent, a.tenant, a.environment, a.pool, a.policyVersion, a.state, a.account, a.region, a.az)
  }

  const UNSHOWN := View("", "", "", "", "", "", "", "", "", "", "", "")

  /** The three fields that not every allocation has: shown when it has them, and otherwise as they were. */
  predicate ShowsOptional(a: Allocation, was: Fields, now: Fields) {
    && StringCF(now, AwsResource) == a.binding.UnwrapOr(StringCF(was, AwsResource))
    && StringCF(now, LastObservedAt) == a.lastObservedAt.UnwrapOr(StringCF(was, LastObservedAt))
    && StringCF(now, QuarantineUntil) == a.quarantineUntil.UnwrapOr(StringCF(was, QuarantineUntil))
  }

  /** Everything an import may have written but the two attributes it shares with allocations. */
  predicate SameImport(s: Stored, t: Stored) {
    && SamePlace(s, t) && s.others == t.others && ListOf(s.fields) == ListOf(t.fields)
    && (Reconstructed(s.fields) <==> Reconstructed(t.fields)) && (Unreadable(s.fields) <==> Unreadable(t.fields))
    && StringCF(s.fields, ImportBatch) == StringCF(t.fields, ImportBatch)
    && StringCF(s.fields, ImportSource) == StringCF(t.fields, ImportSource)
  }

  // ----- reservations and adoptions -----

  /** The fields hold, as texts, what an allocation writes. */
  ghost predicate HoldsOwned(fields: Fields, a: Allocation, op: string) {
    forall f :: OwnedKey(a, f) ==> f in fields && fields[f] == Text(OwnedText(a, op, f))
  }

  ghost predicate KeepsUnowned(s: Stored, t: Stored, a: Allocation) {
    forall f :: !OwnedKey(a, f) ==> Value0(t.fields, f) == Value0(s.fields, f)
  }

  ghost predicate HoldsCleared(t: Stored, a: Allocation, prior: Prior) {
    forall f :: OwnedKey(a, f) ==> f in t.fields && t.fields[f] == ClearedFields(a, prior)[f]
  }

  lemma OwnedReads(s: Stored, a: Allocation, op: string, f: Field)
    requires HoldsOwned(s.fields, a, op) && OwnedKey(a, f)
    ensures StringCF(s.fields, f) == OwnedText(a, op, f)
  {
  }

  lemma OwnedShows(s: Stored, a: Allocation, op: string)
    requires HoldsOwned(s.fields, a, op)
    ensures Read(s) == LedgerOf(a, op)
  {
    OwnedReads(s, a, op, AllocationId);
    OwnedReads(s, a, op, AllocationKey);
    OwnedReads(s, a, op, OperationId);
    OwnedReads(s, a, op, ParentAllocationId);
    OwnedReads(s, a, op, TenantId);
    OwnedReads(s, a, op, Environment);
    OwnedReads(s, a, op, PoolId);
    OwnedReads(s, a, op, PolicyVersion);
    OwnedReads(s, a, op, State);
    OwnedReads(s, a, op, AwsAccount);
    OwnedReads(s, a, op, AwsRegion);
    OwnedReads(s, a, op, AwsAz);
  }

  lemma SameText(x: Fields, y: Fields, f: Field)
    requires Value0(x, f) == Value0(y, f)
    ensures StringCF(x, f) == StringCF(y, f)
  {
  }

  lemma OptionalShows(s: Stored, t: Stored, a: Allocation, op: string)
    requires HoldsOwned(t.fields, a, op) && KeepsUnowned(s, t, a)
    ensures ShowsOptional(a, s.fields, t.fields)
  {
    if a.binding.Some? { OwnedReads(t, a, op, AwsResource); } else { SameText(s.fields, t.fields, AwsResource); }
    if a.lastObservedAt.Some? { OwnedReads(t, a, op, LastObservedAt); } else { SameText(s.fields, t.fields, LastObservedAt); }
    if a.quarantineUntil.Some? { OwnedReads(t, a, op, QuarantineUntil); } else { SameText(s.fields, t.fields, QuarantineUntil); }
  }

  /** Nothing an allocation writes is one of the import's own fields. */
  lemma ImportShows(s: Stored, t: Stored, a: Allocation)
    requires SamePlace(s, t) && s.others == t.others && KeepsUnowned(s, t, a)
    ensures SameImport(s, t)
  {
    assert !OwnedKey(a, ImportBatch) && !OwnedKey(a, ImportSource);
    assert !OwnedKey(a, ImportContributors) && !OwnedKey(a, ContributorsReconstructed);
    SameText(s.fields, t.fields, ImportBatch);
    SameText(s.fields, t.fields, ImportSource);
  }

  lemma ReservedShows(a: Allocation, op: string, p: Place)
    ensures var s := Reserved(a, op, p.net, p.vrf);
      && Read(s) == LedgerOf(a, op) && ShowsOptional(a, map[], s.fields) && s.status == "reserved"
      && At(s, p) && s.tags == {} && s.description == "" && s.others == map[]
  {
    var s := Reserved(a, op, p.net, p.vrf);
    OwnedShows(s, a, op);
    OptionalShows(s.(fields := map[]), s, a, op);
  }

  lemma AdoptedShows(s: Stored, a: Allocation, op: string)
    ensures var t := AfterAdoption(s, a, op);
      Read(t) == LedgerOf(a, op) && ShowsOptional(a, s.fields, t.fields) && t.status == "reserved" && SameImport(s, t)
  {
    var t := AfterAdoption(s, a, op);
    OwnedShows(t, a, op);
    OptionalShows(s, t, a, op);
    ImportShows(s, t, a);
  }

  lemma ClearedReads(t: Stored, a: Allocation, prior: Prior, f: Field)
    requires HoldsCleared(t, a, prior) && OwnedKey(a, f)
    ensures StringCF(t.fields, f) == if f == AwsAccount then prior.account else if f == AwsRegion then prior.region else ""
  {
  }

  lemma ClearedShows(t: Stored, a: Allocation, prior: Prior)
    requires HoldsCleared(t, a, prior)
    ensures Read(t) == UNSHOWN.(account := prior.account, region := prior.region)
  {
    ClearedReads(t, a, prior, AllocationId);
    ClearedReads(t, a, prior, AllocationKey);
    ClearedReads(t, a, prior, OperationId);
    ClearedReads(t, a, prior, ParentAllocationId);
    ClearedReads(t, a, prior, TenantId);
    ClearedReads(t, a, prior, Environment);
    ClearedReads(t, a, prior, PoolId);
    ClearedReads(t, a, prior, PolicyVersion);
    ClearedReads(t, a, prior, State);
    ClearedReads(t, a, prior, AwsAccount);
    ClearedReads(t, a, prior, AwsRegion);
    ClearedReads(t, a, prior, AwsAz);
  }

  /** Given back, a prefix shows no allocation, and of the attributes an import may have set what was recorded of them. */
  lemma AbandonedShows(s: Stored, a: Allocation, prior: Prior)
    ensures var t := Patched(s, AbandonPatch(a, prior));
      && Read(t) == UNSHOWN.(account := prior.account, region := prior.region) && SameImport(s, t)
  {
    var t := Patched(s, AbandonPatch(a, prior));
    ClearingHolds(s, a, prior);
    ClearedShows(t, a, prior);
    ImportShows(s, t, a);
  }

  lemma ClearingHolds(s: Stored, a: Allocation, prior: Prior)
    ensures var t := Patched(s, AbandonPatch(a, prior));
      HoldsCleared(t, a, prior) && KeepsUnowned(s, t, a) && SamePlace(s, t) && s.others == t.others
  {
    assert s.others + map[] == s.others;
  }

  /** It takes the recorded status back if NetBox has one of that name, and is active otherwise. */
  lemma AbandonedStatus(s: Stored, a: Allocation, prior: Prior)
    ensures var t := Patched(s, AbandonPatch(a, prior));
      if prior.status == "container" || prior.status == "active" || prior.status == "reserved" || prior.status == "deprecated"
      then t.status == prior.status else t.status == "active"
  {
  }

  /** Undisturbed, a reservation in vacant space adds one prefix, and it shows the allocation. */
  method EnsureShows(nb: Server, cfg: Settings, a: Allocation, op: string, p: Place) returns (id: nat)
    requires nb.Valid() && nb.script == [] && ReservePlace(cfg, a, op) == Done(p)
    requires NoClaim(nb.Contents(), a.id) && NoneHolds(nb.Contents(), p)
    modifies nb
    ensures nb.Valid() && nb.script == [] && id !in old(nb.Contents()) && id in nb.Contents() && id != 0
    ensures nb.Contents() == old(nb.Contents())[id := nb.Contents()[id]] && At(nb.Contents()[id], p)
    ensures Read(nb.Contents()[id]) == LedgerOf(a, op) && ShowsOptional(a, map[], nb.Contents()[id].fields)
    ensures nb.Contents()[id].status == "reserved" && nb.Contents()[id].tags == {}
  {
    ghost var c := nb.Contents();
    ReservedShows(a, op, p);
    id := EnsureUndisturbed(nb, cfg, a, op, p);
  }

  method EnsureUndisturbed(nb: Server, cfg: Settings, a: Allocation, op: string, p: Place) returns (id: nat)
    requires nb.Valid() && nb.script == [] && ReservePlace(cfg, a, op) == Done(p)
    requires NoClaim(nb.Contents(), a.id) && NoneHolds(nb.Contents(), p)
    modifies nb
    ensures nb.Valid() && nb.script == [] && id !in old(nb.Contents()) && id != 0
    ensures nb.Contents() == old(nb.Contents())[id := Reserved(a, op, p.net, p.vrf)]
  {
    ghost var c := nb.Contents();
    var r, w := Ensure(nb, cfg, a, op);
    QuietlyCreated(c, nb.Contents(), a, op, p, r, w);
    id := r.value;
  }

  lemma QuietlyCreated(c: Contents, d: Contents, a: Allocation, op: string, p: Place, r: Reply<nat>, w: Option<Event>)
    requires EnsuresQuietly(c, d, a, op, p, r, w) && Reserves(w, a, op, p) && NoClaim(c, a.id) && NoneHolds(c, p)
    ensures r.Done? && r.value !in c && r.value != 0 && d == c[r.value := Reserved(a, op, p.net, p.vrf)]
  {
  }

  /** Undisturbed, an adoption changes one prefix, and it shows the allocation and still the import. */
  method AdoptShows(nb: Server, cfg: Settings, a: Allocation, op: string, id: nat)
    requires nb.Valid() && nb.script == [] && AdoptPlace(cfg, a, op).Done? && id != 0
    requires Adoptable(nb.Contents(), a, AdoptPlace(cfg, a, op).value, id)
    modifies nb
    ensures nb.Valid() && nb.script == [] && id in nb.Contents() && nb.Contents() == old(nb.Contents())[id := nb.Contents()[id]]
    ensures Read(nb.Contents()[id]) == LedgerOf(a, op) && SameImport(old(nb.Contents())[id], nb.Contents()[id])
    ensures ShowsOptional(a, old(nb.Contents())[id].fields, nb.Contents()[id].fields) && nb.Contents()[id].status == "reserved"
  {
    ghost var s := nb.Contents()[id];
    AdoptUndisturbed(nb, cfg, a, op, id);
    AdoptedShows(s, a, op);
  }

  // ----- what a settled prefix shows -----

  /** A settled prefix shows the allocation, under the status of its state. */
  lemma SettledShows(parse: Sync.Instants, a: Allocation, x: Stored, now: int, interval: int)
    requires Sync.Settled(parse, a, x, now, interval)
    ensures Read(x) == LedgerOf(a, x.Operation())
    ensures x.status == if a.state == "ACTIVE" then "active" else "reserved"
  {
    ShownField(parse, a, x, now, interval, AllocationId);
    ShownField(parse, a, x, now, interval, AllocationKey);
    ShownField(parse, a, x, now, interval, ParentAllocationId);
    ShownField(parse, a, x, now, interval, TenantId);
    ShownField(parse, a, x, now, interval, Environment);
    ShownField(parse, a, x, now, interval, PoolId);
    ShownField(parse, a, x, now, interval, PolicyVersion);
    ShownField(parse, a, x, now, interval, State);
    ShownField(parse, a, x, now, interval, AwsAccount);
    ShownField(parse, a, x, now, interval, AwsRegion);
    ShownField(parse, a, x, now, interval, AwsAz);
  }

  /** And its binding, none where the ledger has none, and the ledger's end of quarantine as a time. */
  lemma SettledShowsOptional(parse: Sync.Instants, a: Allocation, x: Stored, now: int, interval: int)
    requires Sync.Settled(parse, a, x, now, interval)
    ensures StringCF(x.fields, AwsResource) == a.binding.UnwrapOr("")
    ensures a.quarantineUntil.None? ==> StringCF(x.fields, QuarantineUntil) == ""
    ensures a.quarantineUntil.Some? && a.quarantineUntil.value != "" ==>
      var shown := parse(StringCF(x.fields, QuarantineUntil)); shown.Some? && shown == parse(a.quarantineUntil.value)
    ensures a.lastObservedAt.None? ==> StringCF(x.fields, LastObservedAt) == ""
  {
    assert Projected(a, AwsResource) && Projected(a, QuarantineUntil);
    assert Sync.ReadsAsLedger(parse, a, x, AwsResource) && Sync.ReadsAsLedger(parse, a, x, QuarantineUntil);
  }

  lemma ShownField(parse: Sync.Instants, a: Allocation, x: Stored, now: int, interval: int, f: Field)
    requires Sync.Settled(parse, a, x, now, interval)
    requires f !in {OperationId, AwsResource, LastObservedAt, QuarantineUntil} && OwnedKey(a, f)
    ensures StringCF(x.fields, f) == OwnedText(a, x.Operation(), f)
  {
    assert Projected(a, f);
    assert Sync.ReadsAsLedger(parse, a, x, f);
  }

  // ----- what the checks look at -----

  /** A prefix is somebody's when it shows an identifier, a key, an operation or a state. */
  lemma OwnedIff(s: Stored)
    ensures !s.Owned() <==> Read(s).id == "" && Read(s).key == "" && Read(s).operation == "" && Read(s).state == ""
  {
  }

  /** It is recognised by its place and by what it shows: the identifier; the operation too; and the key too. */
  lemma RecognisedIff(s: Stored, a: Allocation, op: string, p: Place, vrf: nat)
    ensures Identified(s, a, vrf) <==> s.vrf == vrf && Canonical(s.net) == a.cidr && Read(s).id == a.id
    ensures Validates(s, a, op, p) <==> s.vrf == p.vrf && s.net == p.net && Read(s).id == a.id && Read(s).operation == op
    ensures Converged(s, a, op, p) <==>
      s.vrf == p.vrf && s.net == p.net && Read(s).id == a.id && Read(s).operation == op && Read(s).key == a.key
  {
  }

  /** A list field is absent or null, a list, or something else; something else is refused by refresh and removal alike. */
  lemma ListFieldRead(s: Stored, p: Place)
    requires Ownership.Occupancy(s, p.net, p.vrf)
    ensures var v := Value0(s.fields, ImportContributors);
      && (v == Null <==> ListOf(s.fields).None? && !Unreadable(s.fields))
      && (v.Roster? <==> ListOf(s.fields) == Some(if v.Roster? then v.list else []) && !Unreadable(s.fields))
      && (!v.Roster? && v != Null <==> RefreshRefusal(s, p) == Some(UnreadableList))
      && (!v.Roster? && v != Null <==> RemoveRefusal(s, p) == Some(UnreadableList))
  {
  }

  /** An import is accepted exactly when it has a place, a batch, a description that fits, named contributors, and holds no pool. */
  lemma ImportAcceptedIff(cfg: Settings, domain: string, vrf: nat, row: Row, p: Place)
    requires p.net.Valid() && forall id :: PoolOf(cfg, domain, id) && cfg.pools[id].net.Some? ==> cfg.pools[id].net.value.Valid()
    requires OccupancyPlace(cfg, domain, vrf, row.cidr) == Done(p)
    ensures ImportRefusal(cfg, domain, vrf, row).None? <==>
      && row.batch != "" && |row.description| <= 200 && (forall c :: c in row.contributors ==> c.identity != "")
      && forall id :: PoolOf(cfg, domain, id) && cfg.pools[id].net.Some? ==> !Inside(p.net, cfg.pools[id].net.value)
  {
    TouchesPoolIff(cfg, domain, p.net);
    assert Occupancy.Named(row.contributors) <==> forall c :: c in row.contributors ==> c.identity != "" by {
      if Occupancy.Named(row.contributors) {
        forall c | c in row.contributors ensures c.identity != "" {
          var i :| 0 <= i < |row.contributors| && row.contributors[i] == c;
        }
      }
    }
  }

  /** The snapshot drops exactly the prefixes that hold a pool and are none. */
  lemma VisibleIff(s: Stored, pools: seq<Prefix>)
    requires s.net.Valid() && forall q :: q in pools ==> q.Valid()
    ensures !Visible(s, pools) <==> s.net !in pools && exists q :: q in pools && Inside(s.net, q)
  {
    PoolRulesIff(s.net, pools);
  }

  // ----- imports -----

  lemma ImportReads(row: Row, f: Field)
    requires f in {ImportBatch, ImportSource, AwsAccount, AwsRegion, AwsResource}
    ensures StringCF(ImportFields(row), f) ==
      match f case ImportBatch => row.batch case ImportSource => row.source case AwsAccount => row.account
              case AwsRegion => row.region case _ => row.resource
  {
    assert f in ImportFields(row) <==> Imports(row, f);
  }

  lemma ImportSilent(row: Row, f: Field)
    requires f !in {ImportBatch, ImportSource, AwsAccount, AwsRegion, AwsResource, ImportContributors}
    ensures f !in ImportFields(row)
  {
    assert f in ImportFields(row) <==> Imports(row, f);
  }

  /** What an import writes is what its row says, and no allocation. */
  lemma ImportedShows(row: Row, p: Place)
    ensures var s := Imported(row, p);
      && At(s, p) && s.status == "active" && s.tags == {ImportedTag} && s.description == row.description && s.others == map[]
      && Read(s) == UNSHOWN.(account := row.account, region := row.region)
      && StringCF(s.fields, ImportBatch) == row.batch && StringCF(s.fields, ImportSource) == row.source
      && StringCF(s.fields, AwsResource) == row.resource
  {
    ImportReads(row, ImportBatch);
    ImportReads(row, ImportSource);
    ImportReads(row, AwsAccount);
    ImportReads(row, AwsRegion);
    ImportReads(row, AwsResource);
    forall f | f !in {ImportBatch, ImportSource, AwsAccount, AwsRegion, AwsResource, ImportContributors}
      ensures f !in ImportFields(row)
    {
      ImportSilent(row, f);
    }
  }

  /** It lists the row's contributors when there are any, and has no list otherwise. */
  lemma ImportedLists(row: Row, p: Place)
    ensures var s := Imported(row, p);
      && (row.contributors == [] ==> ListOf(s.fields).None?) && (row.contributors != [] ==> ListOf(s.fields) == Some(row.contributors))
      && !Unreadable(s.fields) && !Reconstructed(s.fields)
  {
    ImportSilent(row, ContributorsReconstructed);
    assert ImportContributors in ImportFields(row) <==> Imports(row, ImportContributors);
  }

  // ----- the snapshot shows the reservation -----

  /**
    Undisturbed, a snapshot after a reservation shows its network as the
    allocation's, with its parent, unless the network holds a pool and is not
    one: such a network it drops.
   */
  method EnsureThenSnapshot(
    nb: Server, cfg: Settings, a: Allocation, op: string, p: Place, others: seq<Network>, pools: seq<Prefix>, unique: bool)
    returns (r: Option<seq<Network>>)
    requires nb.Valid() && nb.script == [] && ReservePlace(cfg, a, op) == Done(p)
    requires NoClaim(nb.Contents(), a.id) && NoneHolds(nb.Contents(), p)
    requires p.net.Valid() && forall q :: q in pools ==> q.Valid()
    modifies nb
    ensures nb.Valid()
    ensures r.Some? && (p.net in pools || forall q :: q in pools ==> !Inside(p.net, q)) ==>
      Network(p.net, a.id, a.parent, p.net in pools) in r.value
  {
    var id := EnsureShows(nb, cfg, a, op, p);
    var listing := ListVrf(nb, p.vrf);
    r := Snapshot(listing, others, pools, unique);
    PoolRulesIff(p.net, pools);
    if r.Some? && (p.net in pools || forall q :: q in pools ==> !Inside(p.net, q)) {
      ListedNetwork(listing, nb.Contents(), p.vrf, pools, id);
    }
  }

  // ----- reserve and cancel, import and remove -----

  /** Undisturbed, a reservation that is cancelled leaves the inventory as it was. */
  method EnsureThenCancel(nb: Server, cfg: Settings, a: Allocation, op: string, p: Place) returns (r: Reply<()>)
    requires nb.Valid() && nb.script == [] && ReservePlace(cfg, a, op) == Done(p) && a.id != "" && op != ""
    requires NoClaim(nb.Contents(), a.id) && NoneHolds(nb.Contents(), p)
    modifies nb
    ensures nb.Valid() && r.Done? && nb.Contents() == old(nb.Contents())
  {
    ghost var c := nb.Contents();
    var id := EnsureShows(nb, cfg, a, op, p);
    ghost var d := nb.Contents();
    SoleAfter(c, a.id, id, d[id]);
    r := CancelUndisturbed(nb, a, op, id);
    assert d - {id} == c;
  }

  lemma SoleAfter(c: Contents, marker: string, id: nat, s: Stored)
    requires NoClaim(c, marker) && s.Marker() == marker
    ensures SoleClaim(c[id := s], marker, id)
  {
    var d := c[id := s];
    forall j | Claims(d, marker, j) ensures j == id {
      assert !Claims(c, marker, j);
    }
  }

  method CancelUndisturbed(nb: Server, a: Allocation, op: string, id: nat) returns (r: Reply<()>)
    requires nb.Valid() && nb.script == [] && a.id != "" && op != "" && id != 0 && SoleClaim(nb.Contents(), a.id, id)
    requires nb.Contents()[id].Operation() == op && ImportedTag !in nb.Contents()[id].tags
    modifies nb
    ensures nb.Valid() && r.Done? && nb.Contents() == old(nb.Contents()) - {id}
  {
    ghost var w, found;
    r, w, found := CancelReservation(nb, a, op);
  }

  /** Undisturbed, an import that says who contributed to it can be removed again, and that leaves the inventory as it was. */
  method ImportThenRemove(nb: Server, cfg: Settings, domain: string, row: Row, p: Place) returns (r: Reply<()>)
    requires nb.Valid() && nb.script == [] && ImportRefusal(cfg, domain, 0, row).None? && row.contributors != []
    requires OccupancyPlace(cfg, domain, 0, row.cidr) == Done(p) && NoneHolds(nb.Contents(), p)
    modifies nb
    ensures nb.Valid() && r.Done? && nb.Contents() == old(nb.Contents())
  {
    ghost var c := nb.Contents();
    var id := ImportUndisturbed(nb, cfg, domain, row);
    ghost var d := nb.Contents();
    ImportRemovable(c, row, p, id);
    r := RemoveUndisturbed(nb, cfg, domain, row.cidr, p, id);
    assert d - {id} == c;
  }

  lemma ImportRemovable(c: Contents, row: Row, p: Place, id: nat)
    requires NoneHolds(c, p) && row.contributors != []
    ensures Alone(c[id := Imported(row, p)], p, id) && RemoveRefusal(Imported(row, p), p).None?
  {
    ImportedLists(row, p);
    ImportedIsOccupancy(row, p);
    var d := c[id := Imported(row, p)];
    forall j | HoldsAt(d, p, j) ensures j == id {
      assert !HoldsAt(c, p, j);
    }
  }

  method RemoveUndisturbed(nb: Server, cfg: Settings, domain: string, cidr: CidrText, p: Place, id: nat) returns (r: Reply<()>)
    requires nb.Valid() && nb.script == [] && OccupancyPlace(cfg, domain, 0, cidr) == Done(p) && !TouchesPool(cfg, domain, p.net)
    requires Alone(nb.Contents(), p, id) && RemoveRefusal(nb.Contents()[id], p).None?
    modifies nb
    ensures nb.Valid() && r.Done? && nb.Contents() == old(nb.Contents()) - {id}
  {
    ghost var w;
    r, w := DeleteOccupancy(nb, cfg, domain, 0, cidr, id);
  }
}
