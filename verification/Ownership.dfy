/**
  Who owns a prefix. What each operation on an inventory prefix may find and
  leave behind, and what that adds up to over a whole history in which any
  number of them run at once (internal/netbox/client.go, adopt.go, abandon.go,
  cancel.go, refresh.go, remove.go). Five of them write on condition that the
  prefix is as they read it; Sync and Delete write whatever it has become.
 */
module Ownership {
  import opened Cidr
  import opened Optional
  import opened NetBox
  import opened Contributors

  const RESERVED := "reserved"
  const ACTIVE := "active"
  const ACTIVE_STATE := "ACTIVE"

  /** A field's value, null when it is missing. */
  function Value0(fields: Fields, f: Field): Value {
    if f in fields then fields[f] else Null
  }

  /** The keys an adoption or a reservation of this allocation writes. */
  predicate OwnedKey(a: Allocation, f: Field) {
    match f
    case AwsResource => a.binding.Some?
    case LastObservedAt => a.lastObservedAt.Some?
    case QuarantineUntil => a.quarantineUntil.Some?
    case ImportBatch => false
    case ImportSource => false
    case ImportContributors => false
    case ContributorsReconstructed => false
    case DriftStatus => false
    case _ => true
  }

  function OwnedText(a: Allocation, op: string, f: Field): string {
    match f
    case AllocationId => a.id
    case AllocationKey => a.key
    case OperationId => op
    case ParentAllocationId => a.parent
    case TenantId => a.tenant
    case Environment => a.environment
    case PoolId => a.pool
    case PolicyVersion => a.policyVersion
    case State => a.state
    case AwsAccount => a.account
    case AwsRegion => a.region
    case AwsAz => a.az
    case AwsResource => a.binding.UnwrapOr("")
    case LastObservedAt => a.lastObservedAt.UnwrapOr("")
    case QuarantineUntil => a.quarantineUntil.UnwrapOr("")
    case _ => ""
  }

  function OwnedFields(a: Allocation, op: string): Fields {
    map f: Field | OwnedKey(a, f) :: Text(OwnedText(a, op, f))
  }

  // ----- what each operation writes -----

  function Reserved(a: Allocation, op: string, net: Prefix, vrf: nat): Stored {
    Stored(net, vrf, RESERVED, {}, "", OwnedFields(a, op), map[])
  }

  function AdoptPatch(a: Allocation, op: string, current: Stored): Patch {
    Patch(Some(RESERVED), current.fields + OwnedFields(a, op), current.others)
  }

  /** The values NetBox accepts for a prefix status. */
  predicate PrefixStatus(s: string) {
    s == "container" || s == ACTIVE || s == RESERVED || s == "deprecated"
  }

  function AbandonStatus(prior: string): string {
    if PrefixStatus(prior) then prior else ACTIVE
  }

  /** Every key the adoption wrote, emptied, but for the two an import may have written before it. */
  function ClearedFields(a: Allocation, prior: Prior): Fields {
    map f: Field | OwnedKey(a, f) ::
      if f == AwsAccount && prior.account != "" then Text(prior.account)
      else if f == AwsRegion && prior.region != "" then Text(prior.region)
      else Null
  }

  function AbandonPatch(a: Allocation, prior: Prior): Patch {
    Patch(Some(AbandonStatus(prior.status)), ClearedFields(a, prior), map[])
  }

  /** contributorsCF: the list, None when there is none; unreadable when it is neither. */
  function ListOf(fields: Fields): Option<seq<Contributor>> {
    if ImportContributors in fields && fields[ImportContributors].Roster? then Some(fields[ImportContributors].list) else None
  }

  predicate Unreadable(fields: Fields) {
    ImportContributors in fields && !fields[ImportContributors].Null? && !fields[ImportContributors].Roster?
  }

  /** boolCF of the marker a refresh leaves when it populates an absent list. */
  predicate Reconstructed(fields: Fields) {
    ContributorsReconstructed in fields && fields[ContributorsReconstructed] == Flag(true)
  }

  function RefreshPatch(merged: seq<Contributor>, source: string, reconstruct: bool): Patch {
    var fields := map[ImportContributors := Roster(merged), ImportSource := Text(source)];
    Patch(None, if reconstruct then fields[ContributorsReconstructed := Flag(true)] else fields, map[])
  }

  /** The optional owned fields, which are cleared when the ledger carries none. */
  predicate OptionalField(f: Field) {
    f == AwsResource || f == LastObservedAt || f == QuarantineUntil
  }

  /** The fields a Sync of this allocation writes. */
  predicate Projected(a: Allocation, f: Field) {
    OwnedKey(a, f) || OptionalField(f)
  }

  /** What the ledger wants in a projected field. */
  function Desired(a: Allocation, op: string, f: Field): Value {
    if OwnedKey(a, f) then Text(OwnedText(a, op, f)) else Null
  }

  function SyncStatus(a: Allocation): string {
    if a.state == ACTIVE_STATE then ACTIVE else RESERVED
  }

  /** What a Sync sends for the prefix it read: the ledger's view, a stamp old or new, and the rest as it was. */
  ghost predicate IsProjection(a: Allocation, read: Stored, p: Patch) {
    && p.status == Some(SyncStatus(a)) && p.others == read.others
    && (forall f :: Projected(a, f) && f != LastObservedAt ==> f in p.fields && p.fields[f] == Desired(a, read.Operation(), f))
    && (forall f :: !Projected(a, f) ==> (f in p.fields <==> f in read.fields) && (f in p.fields ==> p.fields[f] == read.fields[f]))
    && LastObservedAt in p.fields
    && p.fields[LastObservedAt] in {Desired(a, read.Operation(), LastObservedAt), Value0(read.fields, LastObservedAt)}
  }

  // ----- what each operation may find -----

  /** Unmanaged imported occupancy at exactly this CIDR and VRF. */
  predicate Occupancy(s: Stored, net: Prefix, vrf: nat) {
    s.net == net && s.vrf == vrf && !s.Owned() && s.Imported()
  }

  /** The prefix of this allocation's own operation. */
  predicate OwnedBy(s: Stored, marker: string, op: string) {
    s.Marker() == marker && s.Operation() == op
  }

  /** The identity Sync and Delete ask for: the allocation's place and marker, whatever the operation and the tags. */
  predicate Identified(s: Stored, a: Allocation, vrf: nat) {
    s.vrf == vrf && a.cidr == Canonical(s.net) && s.Marker() == a.id
  }

  predicate Removable(s: Stored) {
    ListOf(s.fields).Some? && ListOf(s.fields).value != [] && !Reconstructed(s.fields)
  }

  /** The write found what its operation demands, and left exactly what its operation promises. */
  ghost predicate Guarded(e: Event) {
    match e.writer
    case Foreign => true
    case Reserving(a, op, net, vrf) => e.before == None && e.after == Some(Reserved(a, op, net, vrf))
    case Importing(row) => e.before == None && e.after == Some(row) && row.Imported() && !row.Owned()
    case Adopting(a, op, net, vrf) =>
      && a.id != "" && e.before.Some? && Occupancy(e.before.value, net, vrf)
      && e.after == Some(e.before.value.(status := RESERVED, fields := e.before.value.fields + OwnedFields(a, op)))
    case Abandoning(a, op, prior) =>
      && a.id != "" && e.before.Some? && OwnedBy(e.before.value, a.id, op)
      && e.after == Some(Patched(e.before.value, AbandonPatch(a, prior)))
    case Cancelling(a, op) =>
      && a.id != "" && e.before.Some? && OwnedBy(e.before.value, a.id, op) && !e.before.value.Imported()
      && e.after == None
    case Refreshing(net, vrf, source, table) =>
      && e.before.Some? && Occupancy(e.before.value, net, vrf) && !Unreadable(e.before.value.fields)
      && e.after.Some? && Refreshed(e.before.value, e.after.value, source, table)
    case Removing(net, vrf) =>
      && e.before.Some? && Occupancy(e.before.value, net, vrf) && Removable(e.before.value)
      && e.after == None
    case Syncing(a, vrf, read, _, sent) =>
      && Identified(read, a, vrf) && IsProjection(a, read, sent)
      && e.before.Some? && e.after == Some(Patched(e.before.value, sent))
    case Deleting(a, vrf, read, _) =>
      && Identified(read, a, vrf) && e.before.Some? && e.after == None
  }

  /** A write that is not conditional read the prefix at an earlier point of the history, and found it as it says. */
  ghost predicate ReadTruly(initial: Contents, h: seq<Event>, e: Event) {
    e.writer.Syncing? || e.writer.Deleting? ==>
      e.writer.readAt <= |h| && Find(Replay(initial, h[..e.writer.readAt]), e.id) == Some(e.writer.read)
  }

  /** What a write of this system is, landing after the history h; anyone else may write anything. */
  ghost predicate Lawful(initial: Contents, h: seq<Event>, e: Event) {
    Guarded(e) && ReadTruly(initial, h, e)
  }

  /** A refresh touches the list, its source and the reconstructed marker, and only adds to the list. */
  ghost predicate Refreshed(s: Stored, t: Stored, source: string, table: seq<Contributor>) {
    exists merged ::
      && Lists(MergedIndex(ListOf(s.fields).UnwrapOr([]), table), merged)
      && (ListOf(s.fields).None? || !(Identities(table) <= Identities(ListOf(s.fields).value)))
      && t == Patched(s, RefreshPatch(merged, source, ListOf(s.fields).None?))
  }

  // ----- single writes -----

  lemma AdoptedIsOwned(s: Stored, a: Allocation, op: string)
    requires a.id != ""
    ensures var t := s.(status := RESERVED, fields := s.fields + OwnedFields(a, op));
      OwnedBy(t, a.id, op) && t.Owned() && Patched(s, AdoptPatch(a, op, s)) == t
  {
    assert s.fields + (s.fields + OwnedFields(a, op)) == s.fields + OwnedFields(a, op);
    assert s.others + s.others == s.others;
  }

  lemma AbandonedIsFree(s: Stored, a: Allocation, prior: Prior)
    ensures var t := Patched(s, AbandonPatch(a, prior)); !t.Owned() && (s.Imported() <==> t.Imported())
  {
    var t := Patched(s, AbandonPatch(a, prior));
    assert t.fields[AllocationId] == Null && t.fields[AllocationKey] == Null;
    assert t.fields[OperationId] == Null && t.fields[State] == Null;
  }

  lemma RefreshedKeeps(s: Stored, t: Stored, source: string, table: seq<Contributor>)
    requires Refreshed(s, t, source, table)
    ensures t == s.(fields := t.fields) && (s.Owned() <==> t.Owned())
    ensures forall f :: !(f in {ImportContributors, ImportSource, ContributorsReconstructed}) ==> Value0(t.fields, f) == Value0(s.fields, f)
  {
    var merged :|
      && Lists(MergedIndex(ListOf(s.fields).UnwrapOr([]), table), merged)
      && t == Patched(s, RefreshPatch(merged, source, ListOf(s.fields).None?));
    RefreshPatchKeeps(s, RefreshPatch(merged, source, ListOf(s.fields).None?));
  }

  lemma RefreshPatchKeeps(s: Stored, p: Patch)
    requires p.status == None && p.others == map[]
    requires p.fields.Keys <= {ImportContributors, ImportSource, ContributorsReconstructed}
    ensures var t := Patched(s, p);
      && t == s.(fields := t.fields) && (s.Owned() <==> t.Owned())
      && forall f :: !(f in {ImportContributors, ImportSource, ContributorsReconstructed}) ==> Value0(t.fields, f) == Value0(s.fields, f)
  {
    var t := Patched(s, p);
    assert s.others + map[] == s.others;
    SameText(s.fields, t.fields, AllocationId);
    SameText(s.fields, t.fields, AllocationKey);
    SameText(s.fields, t.fields, OperationId);
    SameText(s.fields, t.fields, State);
  }

  lemma SameText(x: Fields, y: Fields, f: Field)
    ensures Value0(x, f) == Value0(y, f) ==> StringCF(x, f) == StringCF(y, f)
  {
  }

  // ----- whole histories -----

  /** No one but this system wrote the prefix between two points of the history. */
  ghost predicate Untouched(h: seq<Event>, id: nat, i: nat, j: nat) {
    forall k :: i <= k < j && k < |h| ==> h[k].writer.Foreign? ==> h[k].id != id
  }

  ghost predicate AllLawful(initial: Contents, h: seq<Event>) {
    forall k :: 0 <= k < |h| ==> Lawful(initial, h[..k], h[k])
  }

  lemma ReplayStep(initial: Contents, h: seq<Event>, j: nat)
    requires j < |h| && Consistent(initial, h)
    ensures Replay(initial, h[..j + 1]) == Apply(Replay(initial, h[..j]), h[j])
    ensures h[j].before == Find(Replay(initial, h[..j]), h[j].id)
  {
    assert h[..j + 1][..j] == h[..j];
  }

  /** What holds of a prefix at one point, and what every event keeps, holds at every later point. */
  lemma {:induction false} Persists(
    initial: Contents, h: seq<Event>, id: nat, i: nat, j: nat, inv: Option<Stored> -> bool)
    requires i <= j <= |h| && inv(Find(Replay(initial, h[..i]), id))
    requires forall k :: i <= k < j && inv(Find(Replay(initial, h[..k]), id)) ==> inv(Find(Replay(initial, h[..k + 1]), id))
    ensures inv(Find(Replay(initial, h[..j]), id))
    decreases j
  {
    if i < j {
      Persists(initial, h, id, i, j - 1, inv);
    }
  }

  lemma LawfulAppend(initial: Contents, h: seq<Event>, e: Event)
    requires Consistent(initial, h) && AllLawful(initial, h) && Lawful(initial, h, e)
    requires e.before == Find(Replay(initial, h), e.id)
    ensures Consistent(initial, h + [e]) && AllLawful(initial, h + [e])
    ensures Replay(initial, h + [e]) == Apply(Replay(initial, h), e)
  {
    ConsistentAppend(initial, h, e);
    forall k | 0 <= k < |h + [e]| ensures Lawful(initial, (h + [e])[..k], (h + [e])[k]) {
      assert k < |h| ==> (h + [e])[..k] == h[..k];
      assert (h + [e])[..|h|] == h;
    }
  }

  /** A prefix no event is about stays as it is. */
  lemma Idle(initial: Contents, h: seq<Event>, id: nat, i: nat, j: nat)
    requires i <= j <= |h| && Consistent(initial, h) && forall k :: i <= k < j ==> h[k].id != id
    ensures Find(Replay(initial, h[..j]), id) == Find(Replay(initial, h[..i]), id)
  {
    var was := Find(Replay(initial, h[..i]), id);
    var inv := (now: Option<Stored>) => now == was;
    forall k | i <= k < j && inv(Find(Replay(initial, h[..k]), id)) ensures inv(Find(Replay(initial, h[..k + 1]), id)) {
      ReplayStep(initial, h, k);
    }
    Persists(initial, h, id, i, j, inv);
  }

  /** A write that is not conditional was preceded by its reading. */
  lemma ReadBefore(initial: Contents, h: seq<Event>, k: nat)
    requires k < |h| && Lawful(initial, h[..k], h[k]) && (h[k].writer.Syncing? || h[k].writer.Deleting?)
    ensures h[k].writer.readAt <= k && Find(Replay(initial, h[..h[k].writer.readAt]), h[k].id) == Some(h[k].writer.read)
  {
    assert h[..k][..h[k].writer.readAt] == h[..h[k].writer.readAt];
  }

  // ----- ownership -----

  ghost predicate Releases(e: Event, id: nat, marker: string, op: string) {
    && e.id == id
    && ((e.writer.Abandoning? && e.writer.a.id == marker && e.writer.op == op)
        || (e.writer.Cancelling? && e.writer.a.id == marker && e.writer.op == op))
  }

  /** A Sync that read the prefix before the given point, when it was not this operation's. */
  ghost predicate Stale(e: Event, id: nat, marker: string, op: string, since: nat) {
    e.id == id && e.writer.Syncing? && e.writer.readAt < since && !OwnedBy(e.writer.read, marker, op)
  }

  /** What ends the ownership that began at the given point: an abandon or cancel of it, a delete, or a stale Sync. */
  ghost predicate Ends(e: Event, id: nat, marker: string, op: string, since: nat) {
    Releases(e, id, marker, op) || (e.id == id && e.writer.Deleting?) || Stale(e, id, marker, op, since)
  }

  /** Owned by the operation, where it was. */
  predicate Kept(now: Option<Stored>, s: Stored, marker: string, op: string) {
    now.Some? && OwnedBy(now.value, marker, op) && SamePlace(s, now.value)
  }

  lemma SyncMarks(read: Stored, a: Allocation, vrf: nat, sent: Patch, t: Stored)
    requires Identified(read, a, vrf) && IsProjection(a, read, sent)
    ensures OwnedBy(Patched(t, sent), a.id, read.Operation()) && SamePlace(t, Patched(t, sent))
  {
    assert sent.fields[AllocationId] == Text(a.id) && sent.fields[OperationId] == Text(read.Operation());
  }

  lemma OwnedStep(c: Contents, e: Event, id: nat, s: Stored, marker: string, op: string)
    requires Guarded(e) && e.before == Find(c, e.id) && (e.writer.Foreign? ==> e.id != id)
    requires Kept(Find(c, id), s, marker, op) && marker != ""
    requires e.id == id ==> !Releases(e, id, marker, op) && !e.writer.Deleting?
    requires e.id == id && e.writer.Syncing? ==> OwnedBy(e.writer.read, marker, op)
    ensures Kept(Find(Apply(c, e), id), s, marker, op)
  {
    if e.id == id {
      assert e.before.value.Owned();
      assert e.writer.Syncing?;
      SyncMarks(e.writer.read, e.writer.a, e.writer.vrf, e.writer.sent, e.before.value);
    }
  }

  /** Owned by the operation, where it was, at every point so far. */
  ghost predicate KeptFrom(
    initial: Contents, h: seq<Event>, id: nat, i: nat, j: nat, s: Stored, marker: string, op: string)
  {
    forall r :: i <= r <= j && r <= |h| ==> Kept(Find(Replay(initial, h[..r]), id), s, marker, op)
  }

  lemma OwnedStepAt(
    initial: Contents, h: seq<Event>, id: nat, i: nat, j: nat, s: Stored, marker: string, op: string)
    requires i <= j < |h| && Consistent(initial, h) && Lawful(initial, h[..j], h[j]) && marker != ""
    requires h[j].id == id ==> !h[j].writer.Foreign? && !Ends(h[j], id, marker, op, i)
    requires KeptFrom(initial, h, id, i, j, s, marker, op)
    ensures Kept(Find(Replay(initial, h[..j + 1]), id), s, marker, op)
  {
    ReplayStep(initial, h, j);
    if h[j].id == id && h[j].writer.Syncing? {
      ReadBefore(initial, h, j);
      assert i <= h[j].writer.readAt ==> Kept(Find(Replay(initial, h[..h[j].writer.readAt]), id), s, marker, op);
    }
    OwnedStep(Replay(initial, h[..j]), h[j], id, s, marker, op);
  }

  lemma {:induction false} KeptUntilEnded(
    initial: Contents, h: seq<Event>, id: nat, i: nat, j: nat, s: Stored, marker: string, op: string)
    requires i <= j <= |h| && Kept(Find(Replay(initial, h[..i]), id), s, marker, op)
    requires forall k :: i <= k < j && KeptFrom(initial, h, id, i, k, s, marker, op) ==>
      Kept(Find(Replay(initial, h[..k + 1]), id), s, marker, op)
    ensures KeptFrom(initial, h, id, i, j, s, marker, op)
    decreases j
  {
    if i < j {
      KeptUntilEnded(initial, h, id, i, j - 1, s, marker, op);
      assert KeptFrom(initial, h, id, i, j - 1, s, marker, op);
    }
  }

  /**
    A prefix owned by one operation of one allocation keeps its marker, its
    operation and its place, whatever else this system runs and however many
    of its processes run at once, until that operation is abandoned or
    cancelled, a Delete lands on the prefix, or a Sync lands that read it
    before, when it was not this operation's.
   */
  lemma OwnedUntilEnded(
    initial: Contents, h: seq<Event>, id: nat, i: nat, j: nat, s: Stored, marker: string, op: string)
    requires i <= j <= |h| && Consistent(initial, h) && AllLawful(initial, h) && Untouched(h, id, i, j)
    requires Find(Replay(initial, h[..i]), id) == Some(s) && OwnedBy(s, marker, op) && marker != ""
    requires forall k :: i <= k < j ==> !Ends(h[k], id, marker, op, i)
    ensures Kept(Find(Replay(initial, h[..j]), id), s, marker, op)
  {
    forall k | i <= k < j && KeptFrom(initial, h, id, i, k, s, marker, op)
      ensures Kept(Find(Replay(initial, h[..k + 1]), id), s, marker, op)
    {
      OwnedStepAt(initial, h, id, i, k, s, marker, op);
    }
    KeptUntilEnded(initial, h, id, i, j, s, marker, op);
  }

  /** Two adoptions of one prefix never meet: the first has ended before the second lands. */
  lemma AdoptionsExclude(initial: Contents, h: seq<Event>, k: nat, l: nat)
    requires k < l < |h| && Consistent(initial, h) && AllLawful(initial, h)
    requires h[k].writer.Adopting? && h[l].writer.Adopting? && h[k].id == h[l].id
    requires Untouched(h, h[k].id, k + 1, l)
    ensures exists m :: k < m < l && Ends(h[m], h[k].id, h[k].writer.a.id, h[k].writer.op, k + 1)
  {
    var w, id := h[k].writer, h[k].id;
    assert Lawful(initial, h[..k], h[k]) && Lawful(initial, h[..l], h[l]);
    AdoptedIsOwned(h[k].before.value, w.a, w.op);
    ReplayStep(initial, h, k);
    ReplayStep(initial, h, l);
    if forall m :: k < m < l ==> !Ends(h[m], id, w.a.id, w.op, k + 1) {
      OwnedUntilEnded(initial, h, id, k + 1, l, h[k].after.value, w.a.id, w.op);
      assert false;
    }
  }

  // ----- imports -----

  predicate InPlace(now: Option<Stored>, s: Stored) {
    now.Some? && SamePlace(s, now.value)
  }

  predicate SamePlace(s: Stored, t: Stored) {
    s.net == t.net && s.vrf == t.vrf && s.tags == t.tags && s.description == t.description
  }

  /** The two writes of this system that delete an imported prefix. */
  ghost predicate Erases(e: Event, id: nat) {
    e.id == id && (e.writer.Removing? || e.writer.Deleting?)
  }

  lemma ImportStep(c: Contents, e: Event, id: nat, s: Stored)
    requires Guarded(e) && e.before == Find(c, e.id) && (e.id == id ==> !e.writer.Foreign?)
    requires InPlace(Find(c, id), s) && s.Imported()
    ensures InPlace(Find(Apply(c, e), id), s) <==> !Erases(e, id)
  {
    if e.id == id && !Erases(e, id) {
      assert e.after.Some? && SamePlace(e.before.value, e.after.value);
    }
  }

  lemma ImportPersists(initial: Contents, h: seq<Event>, id: nat, i: nat, j: nat, s: Stored)
    requires i <= j <= |h| && Consistent(initial, h) && AllLawful(initial, h) && Untouched(h, id, i, j)
    requires Find(Replay(initial, h[..i]), id) == Some(s) && s.Imported()
    requires forall k :: i <= k < j ==> !Erases(h[k], id)
    ensures InPlace(Find(Replay(initial, h[..j]), id), s)
  {
    var inv := (now: Option<Stored>) => InPlace(now, s);
    forall k | i <= k < j && inv(Find(Replay(initial, h[..k]), id)) ensures inv(Find(Replay(initial, h[..k + 1]), id)) {
      ReplayStep(initial, h, k);
      assert Lawful(initial, h[..k], h[k]);
      ImportStep(Replay(initial, h[..k]), h[k], id, s);
    }
    Persists(initial, h, id, i, j, inv);
  }

  /**
    An imported prefix keeps its place, its tags and its description exactly as
    long as neither a removal of occupancy nor a Delete lands on it, whatever
    else this system runs.
   */
  lemma ImportSurvivesIff(initial: Contents, h: seq<Event>, id: nat, i: nat, j: nat, s: Stored)
    requires i <= j <= |h| && Consistent(initial, h) && AllLawful(initial, h) && Untouched(h, id, i, j)
    requires Find(Replay(initial, h[..i]), id) == Some(s) && s.Imported()
    ensures (forall k :: i <= k <= j ==> InPlace(Find(Replay(initial, h[..k]), id), s)) <==>
      forall k :: i <= k < j ==> !Erases(h[k], id)
  {
    if forall k :: i <= k < j ==> !Erases(h[k], id) {
      forall k | i <= k <= j ensures InPlace(Find(Replay(initial, h[..k]), id), s) {
        ImportPersists(initial, h, id, i, k, s);
      }
    }
    if k :| i <= k < j && Erases(h[k], id) {
      ReplayStep(initial, h, k);
      assert Lawful(initial, h[..k], h[k]);
      assert !InPlace(Find(Replay(initial, h[..k + 1]), id), s);
    }
  }

  /** What a deletion of an imported prefix by this system found: free occupancy, or a prefix read as the allocation's. */
  lemma EraseFinds(e: Event)
    requires Guarded(e) && !e.writer.Foreign? && e.before.Some? && e.after == None && e.before.value.Imported()
    ensures e.writer.Removing? || e.writer.Deleting?
    ensures e.writer.Removing? ==> !e.before.value.Owned() && Removable(e.before.value)
    ensures e.writer.Deleting? ==> Identified(e.writer.read, e.writer.a, e.writer.vrf)
  {
  }

  /** Unless the prefix changed between its read and its landing, a Delete deletes its own allocation's prefix. */
  lemma DeletesItsOwn(initial: Contents, h: seq<Event>, k: nat)
    requires k < |h| && Consistent(initial, h) && AllLawful(initial, h) && h[k].writer.Deleting?
    requires forall m :: h[k].writer.readAt <= m < k ==> h[m].id != h[k].id
    ensures h[k].before == Some(h[k].writer.read) && h[k].before.value.Marker() == h[k].writer.a.id
  {
    ReadBefore(initial, h, k);
    Idle(initial, h, h[k].id, h[k].writer.readAt, k);
    ReplayStep(initial, h, k);
  }

  // ----- a Sync that lands after an abandon -----

  /**
    A Sync that lands on a prefix that was abandoned meanwhile, and that
    nothing touched since, had read it before the abandon; and it always puts
    a marker back, its own allocation's with the operation it had read: the
    cleared one exactly when that is what it had read.
   */
  lemma SyncAfterAbandon(initial: Contents, h: seq<Event>, m: nat, k: nat)
    requires m < k < |h| && Consistent(initial, h) && Lawful(initial, h[..m], h[m]) && Lawful(initial, h[..k], h[k])
    requires h[m].writer.Abandoning? && h[k].writer.Syncing? && h[k].id == h[m].id && h[k].writer.a.id != ""
    requires forall n :: m < n < k ==> h[n].id != h[m].id
    ensures h[k].before.Some? && !h[k].before.value.Owned() && h[k].writer.readAt <= m
    ensures h[k].after.Some? && OwnedBy(h[k].after.value, h[k].writer.a.id, h[k].writer.read.Operation())
    ensures OwnedBy(h[k].after.value, h[m].writer.a.id, h[m].writer.op) <==>
      OwnedBy(h[k].writer.read, h[m].writer.a.id, h[m].writer.op)
  {
    AbandonFrees(initial, h, m);
    Idle(initial, h, h[m].id, m + 1, k);
    ReplayStep(initial, h, k);
    SyncLands(initial, h, k);
    ReadBefore(initial, h, k);
    if m < h[k].writer.readAt {
      Idle(initial, h, h[m].id, m + 1, h[k].writer.readAt);
      assert false;
    }
  }

  /** And it is what it had read whenever nothing touched the prefix between the reading and the abandon. */
  lemma SyncReadTheOwner(initial: Contents, h: seq<Event>, m: nat, k: nat)
    requires m < k < |h| && Consistent(initial, h) && Lawful(initial, h[..m], h[m]) && Lawful(initial, h[..k], h[k])
    requires h[m].writer.Abandoning? && h[k].writer.Syncing? && h[k].id == h[m].id && h[k].writer.readAt <= m
    requires forall n :: h[k].writer.readAt <= n < m ==> h[n].id != h[m].id
    ensures OwnedBy(h[k].writer.read, h[m].writer.a.id, h[m].writer.op)
  {
    ReadBefore(initial, h, k);
    Idle(initial, h, h[m].id, h[k].writer.readAt, m);
    ReplayStep(initial, h, m);
  }

  lemma AbandonFrees(initial: Contents, h: seq<Event>, m: nat)
    requires m < |h| && Consistent(initial, h) && Lawful(initial, h[..m], h[m]) && h[m].writer.Abandoning?
    ensures Find(Replay(initial, h[..m + 1]), h[m].id).Some? && !Find(Replay(initial, h[..m + 1]), h[m].id).value.Owned()
  {
    AbandonedIsFree(h[m].before.value, h[m].writer.a, h[m].writer.prior);
    ReplayStep(initial, h, m);
  }

  lemma SyncLands(initial: Contents, h: seq<Event>, k: nat)
    requires k < |h| && Lawful(initial, h[..k], h[k]) && h[k].writer.Syncing?
    ensures h[k].before.Some? && h[k].after.Some? && h[k].writer.read.Marker() == h[k].writer.a.id
    ensures OwnedBy(h[k].after.value, h[k].writer.a.id, h[k].writer.read.Operation())
  {
    var w := h[k].writer;
    SyncMarks(w.read, w.a, w.vrf, w.sent, h[k].before.value);
  }

  // ----- what having no condition allows -----

  /** A history one may append to, and the prefix it leaves. */
  ghost predicate Leaves(initial: Contents, h: seq<Event>, id: nat, s: Stored) {
    Consistent(initial, h) && AllLawful(initial, h) && Find(Replay(initial, h), id) == Some(s)
  }

  function AdoptionOf(id: nat, s: Stored, a: Allocation, op: string): Event {
    Event(
      Adopting(a, op, s.net, s.vrf), id, Some(s), Some(s.(status := RESERVED, fields := s.fields + OwnedFields(a, op))), false)
  }

  lemma AdoptionAppends(initial: Contents, h: seq<Event>, id: nat, s: Stored, a: Allocation, op: string)
    requires Leaves(initial, h, id, s) && Occupancy(s, s.net, s.vrf) && a.id != "" && a.cidr == Canonical(s.net)
    ensures var t := AdoptionOf(id, s, a, op).after.value;
      && Leaves(initial, h + [AdoptionOf(id, s, a, op)], id, t)
      && Identified(t, a, s.vrf) && OwnedBy(t, a.id, op) && t.Owned() && t.Imported()
  {
    AdoptedIsOwned(s, a, op);
    LawfulAppend(initial, h, AdoptionOf(id, s, a, op));
  }

  function AbandonOf(id: nat, t: Stored, a: Allocation, op: string, prior: Prior): Event {
    Event(Abandoning(a, op, prior), id, Some(t), Some(Patched(t, AbandonPatch(a, prior))), false)
  }

  lemma AbandonAppends(initial: Contents, h: seq<Event>, id: nat, t: Stored, a: Allocation, op: string, prior: Prior)
    requires Leaves(initial, h, id, t) && OwnedBy(t, a.id, op) && a.id != ""
    ensures var u := AbandonOf(id, t, a, op, prior).after.value;
      Leaves(initial, h + [AbandonOf(id, t, a, op, prior)], id, u) && !u.Owned()
  {
    AbandonedIsFree(t, a, prior);
    LawfulAppend(initial, h, AbandonOf(id, t, a, op, prior));
  }

  /** A write without a condition that read the prefix when the history was g lands after any longer history. */
  lemma UnconditionalAppends(initial: Contents, g: seq<Event>, h: seq<Event>, id: nat, t: Stored, u: Stored, e: Event)
    requires Leaves(initial, g, id, t) && Leaves(initial, h, id, u) && g <= h && Guarded(e)
    requires (e.writer.Syncing? || e.writer.Deleting?) && e.writer.read == t && e.writer.readAt == |g|
    requires e.id == id && e.before == Some(u)
    ensures Consistent(initial, h + [e]) && AllLawful(initial, h + [e]) && Find(Replay(initial, h + [e]), id) == e.after
  {
    assert h[..|g|] == g;
    LawfulAppend(initial, h, e);
  }

  /** Adopted and then deleted, an import is gone: its tag protects it from a cancel, not from a Delete. */
  lemma DeleteTakesAdoptedImport(initial: Contents, h: seq<Event>, id: nat, s: Stored, a: Allocation, op: string)
    requires Leaves(initial, h, id, s) && Occupancy(s, s.net, s.vrf) && a.id != "" && a.cidr == Canonical(s.net)
    ensures var e := AdoptionOf(id, s, a, op);
      var f := Event(Deleting(a, s.vrf, e.after.value, |h| + 1), id, e.after, None, false);
      && Consistent(initial, h + [e] + [f]) && AllLawful(initial, h + [e] + [f])
      && e.after.value.Imported() && e.after.value.Owned() && id !in Replay(initial, h + [e] + [f])
  {
    var e := AdoptionOf(id, s, a, op);
    var t := e.after.value;
    AdoptionAppends(initial, h, id, s, a, op);
    UnconditionalAppends(
      initial, h + [e], h + [e], id, t, t, Event(Deleting(a, s.vrf, t, |h| + 1), id, Some(t), None, false));
  }

  /** Adopted, read by a Sync, abandoned, and then written by that Sync, an import is owned again. */
  lemma SyncUndoesAbandon(
    initial: Contents, h: seq<Event>, id: nat, s: Stored, a: Allocation, op: string, prior: Prior, sent: Patch)
    requires Leaves(initial, h, id, s) && Occupancy(s, s.net, s.vrf) && a.id != "" && a.cidr == Canonical(s.net)
    requires IsProjection(a, AdoptionOf(id, s, a, op).after.value, sent)
    ensures var e := AdoptionOf(id, s, a, op);
      var f := AbandonOf(id, e.after.value, a, op, prior);
      var g := Event(Syncing(a, s.vrf, e.after.value, |h| + 1, sent), id, f.after, Some(Patched(f.after.value, sent)), true);
      && Consistent(initial, h + [e] + [f] + [g]) && AllLawful(initial, h + [e] + [f] + [g])
      && !f.after.value.Owned() && Find(Replay(initial, h + [e] + [f] + [g]), id) == g.after && OwnedBy(g.after.value, a.id, op)
  {
    var e := AdoptionOf(id, s, a, op);
    var t := e.after.value;
    var f := AbandonOf(id, t, a, op, prior);
    var u := f.after.value;
    var g := Event(Syncing(a, s.vrf, t, |h| + 1, sent), id, Some(u), Some(Patched(u, sent)), true);
    AdoptionAppends(initial, h, id, s, a, op);
    AbandonAppends(initial, h + [e], id, t, a, op, prior);
    SyncMarks(t, a, s.vrf, sent, u);
    UnconditionalAppends(initial, h + [e], h + [e] + [f], id, t, u, g);
  }

  // ----- adopt, then abandon -----

  /** Equal, reading a missing custom field as null. */
  ghost predicate SameUpToNull(s: Stored, t: Stored) {
    && SamePlace(s, t) && s.status == t.status && s.others == t.others
    && forall f :: Value0(s.fields, f) == Value0(t.fields, f)
  }

  /** What the ledger records of a prefix before it is adopted. */
  function PriorOf(s: Stored): Prior {
    Prior(s.status, StringCF(s.fields, AwsAccount), StringCF(s.fields, AwsRegion))
  }

  function AdoptedThenAbandoned(s: Stored, a: Allocation, op: string): Stored {
    Patched(Patched(s, AdoptPatch(a, op, s)), AbandonPatch(a, PriorOf(s)))
  }

  predicate Restorable(v: Value) {
    v == Null || (v.Text? && v.text != "")
  }

  /** The key is not one the adoption owns, held nothing, or held what the ledger can put back. */
  predicate FieldRestores(s: Stored, a: Allocation, f: Field) {
    || !OwnedKey(a, f)
    || (if f == AwsAccount || f == AwsRegion then Restorable(Value0(s.fields, f)) else Value0(s.fields, f) == Null)
  }

  lemma FieldRoundTrip(s: Stored, a: Allocation, op: string, f: Field)
    ensures Value0(AdoptedThenAbandoned(s, a, op).fields, f) == Value0(s.fields, f) <==> FieldRestores(s, a, f)
  {
  }

  /** Adopting and abandoning gives the prefix back exactly when no owned key held more than the ledger recorded. */
  lemma RoundTripIff(s: Stored, a: Allocation, op: string)
    ensures SameUpToNull(AdoptedThenAbandoned(s, a, op), s) <==>
      PrefixStatus(s.status) && forall f :: FieldRestores(s, a, f)
  {
    assert s.others + s.others + map[] == s.others;
    forall f ensures Value0(AdoptedThenAbandoned(s, a, op).fields, f) == Value0(s.fields, f) <==> FieldRestores(s, a, f) {
      FieldRoundTrip(s, a, op, f);
    }
  }

  /** An operator's own environment on the imported prefix does not come back. */
  lemma RoundTripLoses(s: Stored, a: Allocation, op: string)
    requires Environment in s.fields && s.fields[Environment] == Text("production")
    ensures !SameUpToNull(AdoptedThenAbandoned(s, a, op), s)
  {
    RoundTripIff(s, a, op);
    assert !FieldRestores(s, a, Environment);
  }
}
