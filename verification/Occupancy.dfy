/**
  Imported occupancy: creating it, adding to its contributor list, removing it
  (internal/netbox/occupancy.go, refresh.go, remove.go).
 */
module Occupancy {
  import opened Cidr
  import opened Optional
  import opened NetBox
  import opened Inventory
  import opened Contributors
  import opened Config
  import opened Ownership
  import opened Requests

  const MAX_DESCRIPTION: nat := 200

  /** One network row of an onboarding import. */
  datatype Row = Row(
    cidr: CidrText, description: string, batch: string, source: string,
    account: string, region: string, resource: string, contributors: seq<Contributor>)

  // ----- where occupancy may go -----

  predicate PoolOf(cfg: Settings, domain: string, id: string) {
    id in cfg.pools && cfg.pools[id].domain == domain
  }

  /** domainPools: every pool of the domain parses and lives in the domain's VRF. */
  predicate PoolsAgree(cfg: Settings, domain: string, vrf: nat) {
    forall id :: id in cfg.pools && cfg.pools[id].domain == domain ==>
      cfg.pools[id].net.Some? && (cfg.pools[id].vrf == 0 || cfg.pools[id].vrf == vrf)
  }

  /** refusePoolPrefix: the network is a configured pool, or an ancestor of one. */
  predicate TouchesPool(cfg: Settings, domain: string, net: Prefix) {
    exists id :: id in cfg.pools && cfg.pools[id].domain == domain && cfg.pools[id].net.Some? && Swallows(net, cfg.pools[id].net.value)
  }

  predicate Swallows(net: Prefix, pool: Prefix) {
    net == pool || (net.bits < pool.bits && net.Has(pool.addr))
  }

  /** occupancyDomain, then occupancyPrefix. */
  function OccupancyPlace(cfg: Settings, domain: string, vrf: nat, cidr: CidrText): Reply<Place> {
    if domain == "" || domain !in cfg.domains || cfg.domains[domain].vrf == 0 then Fails(Misconfigured)
    else
      var configured := cfg.domains[domain].vrf;
      if vrf != 0 && vrf != configured then Fails(Misconfigured)
      else if !PoolsAgree(cfg, domain, configured) then Fails(Misconfigured)
      else if !cidr.Canonical? then Fails(Invalid)
      else Done(Place(cidr.net, configured))
  }

  /** Every pool of the domain has a network, and no other VRF. */
  ghost predicate PoolsInVrf(cfg: Settings, domain: string) {
    domain in cfg.domains && forall id :: PoolOf(cfg, domain, id) ==>
      cfg.pools[id].net.Some? && cfg.pools[id].vrf in {0, cfg.domains[domain].vrf}
  }

  /** Occupancy goes where its row says, in the VRF that the domain is configured with and the caller does not contradict. */
  lemma OccupancyPlaceIff(cfg: Settings, domain: string, vrf: nat, cidr: CidrText, p: Place)
    ensures OccupancyPlace(cfg, domain, vrf, cidr) == Done(p) <==>
      && domain != "" && PoolsInVrf(cfg, domain) && cidr == Canonical(p.net)
      && p.vrf == cfg.domains[domain].vrf != 0 && (vrf != 0 ==> vrf == p.vrf)
  {
    if domain in cfg.domains && PoolsInVrf(cfg, domain) {
      forall id | id in cfg.pools && cfg.pools[id].domain == domain
        ensures cfg.pools[id].net.Some? && cfg.pools[id].vrf in {0, cfg.domains[domain].vrf}
      {
        assert PoolOf(cfg, domain, id);
      }
    }
  }

  /** Pool space is what holds every address of some pool of the domain. */
  lemma TouchesPoolIff(cfg: Settings, domain: string, net: Prefix)
    requires net.Valid() && forall id :: PoolOf(cfg, domain, id) && cfg.pools[id].net.Some? ==> cfg.pools[id].net.value.Valid()
    ensures TouchesPool(cfg, domain, net) <==>
      exists id :: PoolOf(cfg, domain, id) && cfg.pools[id].net.Some? && Inside(net, cfg.pools[id].net.value)
  {
    forall id | PoolOf(cfg, domain, id) && cfg.pools[id].net.Some?
      ensures Swallows(net, cfg.pools[id].net.value) <==> Inside(net, cfg.pools[id].net.value)
    {
      var pool := cfg.pools[id].net.value;
      CoversIffInside(net, pool);
      StrictlyIff(net, pool);
    }
    if id :| id in cfg.pools && cfg.pools[id].domain == domain && cfg.pools[id].net.Some? && Swallows(net, cfg.pools[id].net.value) {
      assert PoolOf(cfg, domain, id);
    }
  }

  predicate Named(contributors: seq<Contributor>) {
    forall i :: 0 <= i < |contributors| ==> contributors[i].identity != ""
  }

  // ----- creating -----

  /** The custom fields of a new import: an attribute only when it has a value, the list only when it is not empty. */
  function ImportFields(row: Row): Fields {
    map f: Field | Imports(row, f) :: ImportValue(row, f)
  }

  predicate Imports(row: Row, f: Field) {
    match f
    case ImportBatch => true
    case ImportSource => true
    case AwsAccount => row.account != ""
    case AwsRegion => row.region != ""
    case AwsResource => row.resource != ""
    case ImportContributors => row.contributors != []
    case _ => false
  }

  function ImportValue(row: Row, f: Field): Value {
    match f
    case ImportBatch => Text(row.batch)
    case ImportSource => Text(row.source)
    case AwsAccount => Text(row.account)
    case AwsRegion => Text(row.region)
    case AwsResource => Text(row.resource)
    case ImportContributors => Roster(row.contributors)
    case _ => Null
  }

  function Imported(row: Row, p: Place): Stored {
    Stored(p.net, p.vrf, ACTIVE, {ImportedTag}, row.description, ImportFields(row), map[])
  }

  lemma ImportedIsOccupancy(row: Row, p: Place)
    ensures Occupancy(Imported(row, p), p.net, p.vrf)
  {
    var f := ImportFields(row);
    assert AllocationId !in f && AllocationKey !in f && OperationId !in f && State !in f;
  }

  /** An import can always be adopted and given back: the condition of RoundTripIff holds of it. */
  lemma ImportRestores(row: Row, p: Place, a: Allocation, op: string)
    requires a.binding == None && a.lastObservedAt == None && a.quarantineUntil == None
    ensures SameUpToNull(AdoptedThenAbandoned(Imported(row, p), a, op), Imported(row, p))
  {
    var s := Imported(row, p);
    RoundTripIff(s, a, op);
    forall f ensures FieldRestores(s, a, f) {
      assert f in s.fields <==> Imports(row, f);
    }
  }

  datatype Outcome = Outcome(id: nat, created: bool)

  /** existingOccupancyPrefix: space that is occupied already is imported already, unless it is claimed. */
  function Existing(f: Found): Reply<Outcome>
    requires f.One?
  {
    if f.content.Marker() != "" then Fails(Managed)
    else if f.id == 0 then Fails(Declined)
    else Done(Outcome(f.id, false))
  }

  ghost predicate IsImport(w: Option<Event>, row: Row, p: Place) {
    w.Some? ==> w.value.writer == Importing(Imported(row, p)) && Guarded(w.value)
  }

  ghost predicate Added(c: Contents, d: Contents, id: nat, s: Stored) {
    id !in c && id != 0 && d == c[id := s]
  }

  /** The only prefix at the place, and nobody's. */
  ghost predicate Recognised(c: Contents, p: Place, id: nat) {
    id != 0 && Alone(c, p, id) && c[id].Marker() == ""
  }

  /** recoverOccupancyPrefix: the space is occupied, whoever wrote it. */
  method RecoverOccupancy(nb: Server, p: Place, original: Error) returns (r: Reply<Outcome>)
    requires nb.Valid()
    modifies nb
    ensures nb.Valid() && Ran(old(nb.Now()), nb.Now(), None)
    ensures r.Done? ==> !r.value.created && Recognised(nb.Contents(), p, r.value.id)
    ensures old(nb.script) == [] ==>
      && nb.script == [] && nb.Contents() == old(nb.Contents())
      && (r.Done? <==> exists id :: Recognised(nb.Contents(), p, id))
  {
    var found := PrefixesAt(nb, p);
    ghost var c := nb.Contents();
    if found.Fails? || !found.value.One? {
      assert found.Done? ==> forall id :: !Alone(c, p, id);
      return Fails(original);
    }
    r := Existing(found.value);
    assert r.Done? <==> Recognised(c, p, found.value.id);
  }

  /** The POST of a new import. */
  method CreateImport(nb: Server, row: Row, p: Place) returns (sent: Response<nat>, ghost w: Option<Event>)
    requires nb.Valid()
    modifies nb
    ensures nb.Valid() && Ran(old(nb.Now()), nb.Now(), w) && IsImport(w, row, p)
    ensures sent.Ok? ==> HoldsAt(nb.Contents(), p, sent.value) && nb.Contents()[sent.value].Marker() == ""
    ensures sent.Ok? ==> w.Some? && w.value.id == sent.value
    ensures old(nb.script) == [] && NoneHolds(old(nb.Contents()), p) ==>
      sent.Ok? && nb.script == [] && Added(old(nb.Contents()), nb.Contents(), sent.value, Imported(row, p))
  {
    var s := Imported(row, p);
    ImportedIsOccupancy(row, p);
    if NoneHolds(nb.Contents(), p) {
      NoneHoldsVacant(nb.Contents(), p, s);
    }
    sent, w := nb.Create(Importing(s), s);
  }

  method PostOccupancy(nb: Server, row: Row, p: Place) returns (r: Reply<Outcome>, ghost w: Option<Event>)
    requires nb.Valid()
    modifies nb
    ensures nb.Valid() && Ran(old(nb.Now()), nb.Now(), w) && IsImport(w, row, p)
    ensures r.Done? ==> HoldsAt(nb.Contents(), p, r.value.id) && nb.Contents()[r.value.id].Marker() == ""
    ensures r.Done? && r.value.created ==> w.Some? && w.value.id == r.value.id
    ensures old(nb.script) == [] && NoneHolds(old(nb.Contents()), p) ==>
      r.Done? && r.value.created && nb.script == [] && Added(old(nb.Contents()), nb.Contents(), r.value.id, Imported(row, p))
  {
    ghost var m1 := nb.Now();
    var sent;
    sent, w := CreateImport(nb, row, p);
    ghost var m2 := nb.Now();
    if sent.Ok? {
      return Done(Outcome(sent.value, true)), w;
    }
    r := RecoverOccupancy(nb, p, Unserved(sent));
    RanTrans(m1, m2, nb.Now(), w, None);
  }

  predicate RowRefused(row: Row) {
    row.batch == "" || |row.description| > MAX_DESCRIPTION || !Named(row.contributors)
  }

  /** Everything EnsureOccupancy refuses before it asks the inventory anything. */
  function ImportRefusal(cfg: Settings, domain: string, vrf: nat, row: Row): (e: Option<Error>)
    ensures e.None? ==> domain in cfg.domains && row.cidr.Canonical?
  {
    var place := OccupancyPlace(cfg, domain, vrf, row.cidr);
    if place.Fails? then Some(place.error)
    else if RowRefused(row) then Some(Invalid)
    else if TouchesPool(cfg, domain, place.value.net) then Some(PoolSpace)
    else None
  }

  /** EnsureOccupancy of a network: creates it, or confirms that its space is occupied. */
  method EnsureOccupancy(nb: Server, cfg: Settings, domain: string, vrf: nat, row: Row)
    returns (r: Reply<Outcome>, ghost w: Option<Event>)
    requires nb.Valid()
    modifies nb
    ensures nb.Valid() && Ran(old(nb.Now()), nb.Now(), w)
    ensures old(nb.script) == [] ==> nb.script == []
    ensures ImportRefusal(cfg, domain, vrf, row).Some? ==>
      r == Fails(ImportRefusal(cfg, domain, vrf, row).value) && nb.Now() == old(nb.Now())
    ensures ImportRefusal(cfg, domain, vrf, row).None? ==>
      var p := Place(row.cidr.net, cfg.domains[domain].vrf);
      && IsImport(w, row, p)
      && (r.Done? ==> HoldsAt(nb.Contents(), p, r.value.id) && nb.Contents()[r.value.id].Marker() == "")
      && (old(nb.script) == [] && NoneHolds(old(nb.Contents()), p) ==>
            r.Done? && r.value.created && Added(old(nb.Contents()), nb.Contents(), r.value.id, Imported(row, p)))
      && (old(nb.script) == [] ==>
            forall id :: id != 0 && Alone(old(nb.Contents()), p, id) && old(nb.Contents())[id].Marker() == "" ==>
              r == Done(Outcome(id, false)) && nb.Contents() == old(nb.Contents()))
  {
    var refusal := ImportRefusal(cfg, domain, vrf, row);
    if refusal.Some? {
      assert Ran(nb.Now(), nb.Now(), None);
      return Fails(refusal.value), None;
    }
    r, w := EnsureOccupancyAt(nb, row, Place(row.cidr.net, cfg.domains[domain].vrf));
  }

  /** ensureOccupancyPrefix, past its checks of the row. */
  method EnsureOccupancyAt(nb: Server, row: Row, p: Place) returns (r: Reply<Outcome>, ghost w: Option<Event>)
    requires nb.Valid()
    modifies nb
    ensures nb.Valid() && Ran(old(nb.Now()), nb.Now(), w) && IsImport(w, row, p)
    ensures r.Done? ==> HoldsAt(nb.Contents(), p, r.value.id) && nb.Contents()[r.value.id].Marker() == ""
    ensures old(nb.script) == [] ==> nb.script == []
    ensures old(nb.script) == [] && NoneHolds(old(nb.Contents()), p) ==>
      r.Done? && r.value.created && Added(old(nb.Contents()), nb.Contents(), r.value.id, Imported(row, p))
    ensures old(nb.script) == [] ==>
      forall id :: id != 0 && Alone(old(nb.Contents()), p, id) && old(nb.Contents())[id].Marker() == "" ==>
        r == Done(Outcome(id, false)) && nb.Contents() == old(nb.Contents())
  {
    ghost var m0 := nb.Now();
    var existing := PrefixesAt(nb, p);
    ghost var m1 := nb.Now();
    if existing.Fails? {
      return Fails(existing.error), None;
    }
    if existing.value.Many? {
      return Fails(Conflict), None;
    }
    if existing.value.One? {
      return Existing(existing.value), None;
    }
    r, w := PostOccupancy(nb, row, p);
    RanTrans(m0, m1, nb.Now(), None, w);
  }

  /** EnsureOccupancy when nothing interferes and nothing is at the place yet. */
  method ImportUndisturbed(nb: Server, cfg: Settings, domain: string, row: Row) returns (id: nat)
    requires nb.Valid() && nb.script == [] && ImportRefusal(cfg, domain, 0, row).None?
    requires NoneHolds(nb.Contents(), Place(row.cidr.net, cfg.domains[domain].vrf))
    modifies nb
    ensures nb.Valid() && nb.script == [] && id != 0
    ensures Added(old(nb.Contents()), nb.Contents(), id, Imported(row, Place(row.cidr.net, cfg.domains[domain].vrf)))
  {
    var r, w := EnsureOccupancy(nb, cfg, domain, 0, row);
    id := r.value.id;
  }

  // ----- adding to the contributor list -----

  datatype Refresh = Refresh(id: nat, written: bool, reconstructed: bool)

  ghost predicate IsRefresh(w: Option<Event>, p: Place, source: string, table: seq<Contributor>, tagged: bool) {
    w.Some? ==> w.value.writer == Refreshing(p.net, p.vrf, source, table) && (tagged ==> Guarded(w.value))
  }

  /** The table adds no identity to the list, or there is neither a list nor a table. */
  ghost predicate NothingNew(s: Stored, table: seq<Contributor>) {
    match ListOf(s.fields)
    case Some(list) => Identities(table) <= Identities(list)
    case None => table == []
  }

  /** Why a prefix at the right place may not be refreshed. */
  function RefreshRefusal(s: Stored, p: Place): Option<Error> {
    if !At(s, p) then Some(Conflict)
    else if s.Owned() || !s.Imported() then Some(Managed)
    else if Unreadable(s.fields) then Some(UnreadableList)
    else None
  }

  lemma RefreshGuarded(e: Event, p: Place, source: string, table: seq<Contributor>, s: Stored, merged: seq<Contributor>)
    requires RefreshRefusal(s, p).None? && e.before == Some(s)
    requires Grows(s, table, merged)
    requires IsWrite(e, Refreshing(p.net, p.vrf, source, table), e.id, Some(RefreshPatch(merged, source, ListOf(s.fields).None?)))
    ensures Guarded(e)
  {
    assert Refreshed(s, e.after.value, source, table);
  }

  lemma RefreshReadsBack(s: Stored, p: Place, source: string, merged: seq<Contributor>)
    requires RefreshRefusal(s, p).None?
    ensures ReadsBack(Patched(s, RefreshPatch(merged, source, ListOf(s.fields).None?)), merged)
  {
    RefreshPatchKeeps(s, RefreshPatch(merged, source, ListOf(s.fields).None?));
  }

  predicate ReadsBack(s: Stored, merged: seq<Contributor>) {
    !s.Owned() && s.Imported() && ListOf(s.fields) == Some(merged)
  }

  lemma EmptyMerge(table: seq<Contributor>, merged: seq<Contributor>)
    requires Lists(MergedIndex([], table), merged)
    ensures merged == [] <==> table == []
  {
    MergeIdentities([], table, merged);
    assert table != [] ==> table[0].identity in Identities(table);
    assert merged != [] ==> merged[0].identity in Identities(merged);
  }

  /** A list that a refresh would write. */
  ghost predicate Grows(s: Stored, table: seq<Contributor>, merged: seq<Contributor>) {
    && Lists(MergedIndex(ListOf(s.fields).UnwrapOr([]), table), merged)
    && (ListOf(s.fields).None? || !(Identities(table) <= Identities(ListOf(s.fields).value)))
    && Identities(table) <= Identities(merged)
  }

  /** The list to write, or none when the table adds nothing. */
  method PlanRefresh(s: Stored, table: seq<Contributor>) returns (plan: Option<seq<Contributor>>)
    ensures plan.None? <==> NothingNew(s, table)
    ensures plan.Some? ==> Grows(s, table, plan.value)
  {
    var existing := ListOf(s.fields);
    var merged, changed := MergeContributors(existing, table);
    if !changed {
      return None;
    }
    MergeIdentities(existing.UnwrapOr([]), table, merged);
    if existing.None? {
      EmptyMerge(table, merged);
      if merged == [] {
        return None;
      }
    }
    return Some(merged);
  }

  /** What a reported reconstruction means: the write found no list, if the server says what a write finds. */
  ghost predicate Reconstructs(r: Refresh, w: Option<Event>, tagged: bool) {
    && (r.reconstructed ==> r.written)
    && (tagged ==> (r.reconstructed <==> w.Some? && w.value.before.Some? && ListOf(w.value.before.value.fields).None?))
  }

  /** What a refresh of the prefix comes to when nothing interferes: a refusal, nothing to add, or the one write. */
  ghost predicate RefreshesQuietly(
    c: Contents, d: Contents, p: Place, source: string, table: seq<Contributor>, id: nat, r: Reply<Refresh>, w: Option<Event>)
    requires id in c
  {
    var s := c[id];
    if RefreshRefusal(s, p).Some? then r == Fails(RefreshRefusal(s, p).value) && w.None? && d == c
    else if NothingNew(s, table) then r == Done(Refresh(id, false, false)) && w.None? && d == c
    else
      && r == Done(Refresh(id, true, ListOf(s.fields).None?)) && w.Some?
      && id in d && d == c[id := d[id]] && Refreshed(s, d[id], source, table)
  }

  lemma RefreshIsRefreshed(s: Stored, source: string, table: seq<Contributor>, merged: seq<Contributor>)
    requires Grows(s, table, merged)
    ensures Refreshed(s, Patched(s, RefreshPatch(merged, source, ListOf(s.fields).None?)), source, table)
  {
  }

  /** The part of RefreshOccupancy after the one prefix at the CIDR is known. */
  method RefreshPrefix(nb: Server, p: Place, source: string, table: seq<Contributor>, id: nat)
    returns (r: Reply<Refresh>, ghost w: Option<Event>)
    requires nb.Valid()
    modifies nb
    ensures nb.Valid() && Ran(old(nb.Now()), nb.Now(), w) && IsRefresh(w, p, source, table, nb.tagged)
    ensures w.Some? ==> w.value.id == id
    ensures r.Done? ==> r.value.id == id && id in nb.Contents() && !nb.Contents()[id].Owned() && nb.Contents()[id].Imported()
    ensures r.Done? ==> (r.value.written <==> w.Some?) && NothingNew(nb.Contents()[id], table)
    ensures r.Done? ==> Reconstructs(r.value, w, nb.tagged)
    ensures r.Fails? && w.Some? ==> MayHaveWritten(r.error)
    ensures old(nb.script) == [] && id in old(nb.Contents()) ==>
      nb.script == [] && RefreshesQuietly(old(nb.Contents()), nb.Contents(), p, source, table, id, r, w)
  {
    ghost var m0 := nb.Now();
    var read := nb.Detail(id);
    ghost var m1 := nb.Now();
    if !read.Ok? {
      return Fails(Unserved(read)), None;
    }
    var s := read.value.content;
    var refusal := RefreshRefusal(s, p);
    if refusal.Some? {
      return Fails(refusal.value), None;
    }
    var plan := PlanRefresh(s, table);
    if plan.None? {
      return Done(Refresh(id, false, false)), None;
    }
    r, w := WriteRefresh(nb, p, source, table, id, read.value, plan.value, m1);
    RanTrans(m0, m1, nb.Now(), None, w);
  }

  /** The conditional PATCH of the grown list and its reading back. */
  method WriteRefresh(
    nb: Server, p: Place, source: string, table: seq<Contributor>, id: nat, current: Object, merged: seq<Contributor>, ghost seen: Moment)
    returns (r: Reply<Refresh>, ghost w: Option<Event>)
    requires nb.Valid() && ReadAt(seen, nb.Now(), id, current)
    requires RefreshRefusal(current.content, p).None? && Grows(current.content, table, merged)
    modifies nb
    ensures nb.Valid() && Ran(old(nb.Now()), nb.Now(), w) && IsRefresh(w, p, source, table, nb.tagged)
    ensures (w.Some? ==> w.value.id == id) && (r.Fails? && w.Some? ==> MayHaveWritten(r.error))
    ensures r.Done? ==> r.value == Refresh(id, true, ListOf(current.content.fields).None?) && w.Some?
    ensures r.Done? ==> id in nb.Contents() && ReadsBack(nb.Contents()[id], merged) && Reconstructs(r.value, w, nb.tagged)
    ensures old(nb.script) == [] && ReadAt(old(nb.Now()), old(nb.Now()), id, current) ==>
      && nb.script == [] && r.Done? && id in nb.Contents() && nb.Contents() == old(nb.Contents())[id := nb.Contents()[id]]
      && Refreshed(current.content, nb.Contents()[id], source, table)
  {
    var s, absent := current.content, ListOf(current.content.fields).None?;
    RefreshReadsBack(s, p, source, merged);
    RefreshIsRefreshed(s, source, table, merged);
    var written;
    written, w := WriteAndReadBack(
      nb, Refreshing(p.net, p.vrf, source, table), id, current, RefreshPatch(merged, source, absent),
      s => ReadsBack(s, merged), seen);
    if w.Some? && nb.tagged {
      RefreshGuarded(w.value, p, source, table, s, merged);
    }
    r := if written.Done? then Done(Refresh(id, true, absent)) else Fails(written.error);
  }

  /** RefreshOccupancy: adds the table's identities to the list of the one prefix at the CIDR, and nothing else. */
  method RefreshOccupancy(nb: Server, cfg: Settings, domain: string, vrf: nat, cidr: CidrText, source: string, table: seq<Contributor>)
    returns (r: Reply<Refresh>, ghost w: Option<Event>)
    requires nb.Valid()
    modifies nb
    ensures nb.Valid() && Ran(old(nb.Now()), nb.Now(), w)
    ensures OccupancyPlace(cfg, domain, vrf, cidr).Fails? || !Named(table) ==> r.Fails? && nb.Now() == old(nb.Now())
    ensures OccupancyPlace(cfg, domain, vrf, cidr).Done? && Named(table) ==>
      var p := OccupancyPlace(cfg, domain, vrf, cidr).value;
      && IsRefresh(w, p, source, table, nb.tagged)
      && (r.Done? ==> r.value.id in nb.Contents() && NothingNew(nb.Contents()[r.value.id], table) && (r.value.written <==> w.Some?))
      && (r.Done? ==> Reconstructs(r.value, w, nb.tagged))
      && (r.Fails? && w.Some? ==> MayHaveWritten(r.error))
      && (old(nb.script) == [] ==> forall id :: Alone(old(nb.Contents()), p, id) ==>
            nb.script == [] && RefreshesQuietly(old(nb.Contents()), nb.Contents(), p, source, table, id, r, w))
  {
    ghost var m0 := nb.Now();
    assert Ran(m0, m0, None);
    var place := OccupancyPlace(cfg, domain, vrf, cidr);
    if place.Fails? {
      return Fails(place.error), None;
    }
    if !Named(table) {
      return Fails(Invalid), None;
    }
    var existing := PrefixesAt(nb, place.value);
    ghost var m1 := nb.Now();
    if existing.Fails? {
      return Fails(existing.error), None;
    }
    if existing.value.Nothing? {
      return Fails(Absent), None;
    }
    if existing.value.Many? {
      return Fails(Conflict), None;
    }
    r, w := RefreshPrefix(nb, place.value, source, table, existing.value.id);
    RanTrans(m0, m1, nb.Now(), None, w);
  }

  // ----- removing -----

  ghost predicate IsRemoval(w: Option<Event>, p: Place, tagged: bool) {
    w.Some? ==> w.value.writer == Removing(p.net, p.vrf) && (tagged ==> Guarded(w.value))
  }

  /** Why a prefix may not be removed, in the order the checks are made. */
  function RemoveRefusal(s: Stored, p: Place): Option<Error> {
    if !At(s, p) then Some(Conflict)
    else if s.Owned() || !s.Imported() then Some(Managed)
    else if Unreadable(s.fields) then Some(UnreadableList)
    else if ListOf(s.fields).UnwrapOr([]) == [] then Some(NoContributors)
    else if Reconstructed(s.fields) then Some(ReconstructedList)
    else None
  }

  lemma RemovalGuarded(e: Event, p: Place, s: Stored)
    requires RemoveRefusal(s, p).None? && e.before == Some(s) && IsWrite(e, Removing(p.net, p.vrf), e.id, None)
    ensures Guarded(e)
  {
  }

  /** The part of DeleteOccupancy after the prefix the caller reviewed is found again. */
  method RemovePrefix(nb: Server, p: Place, id: nat) returns (r: Reply<()>, ghost w: Option<Event>)
    requires nb.Valid()
    modifies nb
    ensures nb.Valid() && Ran(old(nb.Now()), nb.Now(), w) && IsRemoval(w, p, nb.tagged)
    ensures w.Some? ==> w.value.id == id
    ensures r.Done? ==> id !in nb.Contents()
    ensures r.Fails? && w.Some? ==> MayHaveWritten(r.error)
    ensures old(nb.script) == [] && id in old(nb.Contents()) ==>
      if RemoveRefusal(old(nb.Contents())[id], p).Some? then
        r == Fails(RemoveRefusal(old(nb.Contents())[id], p).value) && nb.Contents() == old(nb.Contents())
      else r.Done? && nb.Contents() == old(nb.Contents()) - {id}
  {
    ghost var m0 := nb.Now();
    var read := nb.Detail(id);
    ghost var m1 := nb.Now();
    if !read.Ok? {
      return Fails(Unserved(read)), None;
    }
    var refusal := RemoveRefusal(read.value.content, p);
    if refusal.Some? {
      return Fails(refusal.value), None;
    }
    r, w := DeleteAndConfirm(nb, Removing(p.net, p.vrf), id, read.value, m1);
    RanTrans(m0, m1, nb.Now(), None, w);
    if w.Some? && nb.tagged {
      RemovalGuarded(w.value, p, read.value.content);
    }
  }

  /** DeleteOccupancy: removes the one prefix the caller reviewed, after every refusal has been checked again. */
  method DeleteOccupancy(nb: Server, cfg: Settings, domain: string, vrf: nat, cidr: CidrText, reviewed: nat)
    returns (r: Reply<()>, ghost w: Option<Event>)
    requires nb.Valid()
    modifies nb
    ensures nb.Valid() && Ran(old(nb.Now()), nb.Now(), w)
    ensures OccupancyPlace(cfg, domain, vrf, cidr).Fails? ==> r.Fails? && nb.Now() == old(nb.Now())
    ensures OccupancyPlace(cfg, domain, vrf, cidr).Done? ==>
      var p := OccupancyPlace(cfg, domain, vrf, cidr).value;
      && IsRemoval(w, p, nb.tagged)
      && (w.Some? ==> w.value.id == reviewed && !TouchesPool(cfg, domain, p.net))
      && (r.Done? ==> reviewed !in nb.Contents())
      && (r.Fails? && w.Some? ==> MayHaveWritten(r.error))
      && (old(nb.script) == [] && Alone(old(nb.Contents()), p, reviewed) && !TouchesPool(cfg, domain, p.net) ==>
            if RemoveRefusal(old(nb.Contents())[reviewed], p).Some? then
              r == Fails(RemoveRefusal(old(nb.Contents())[reviewed], p).value) && nb.Contents() == old(nb.Contents())
            else r.Done? && nb.Contents() == old(nb.Contents()) - {reviewed})
  {
    ghost var m0 := nb.Now();
    assert Ran(m0, m0, None);
    var place := OccupancyPlace(cfg, domain, vrf, cidr);
    if place.Fails? {
      return Fails(place.error), None;
    }
    if TouchesPool(cfg, domain, place.value.net) {
      return Fails(PoolSpace), None;
    }
    var existing := PrefixesAt(nb, place.value);
    ghost var m1 := nb.Now();
    if existing.Fails? {
      return Fails(existing.error), None;
    }
    if existing.value.Nothing? {
      return Fails(Absent), None;
    }
    if existing.value.Many? {
      return Fails(Conflict), None;
    }
    if existing.value.id != reviewed {
      return Fails(OtherId), None;
    }
    r, w := RemovePrefix(nb, place.value, reviewed);
    RanTrans(m0, m1, nb.Now(), None, w);
  }
}
