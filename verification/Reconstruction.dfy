/**
  What a contributor list that a refresh wrote from nothing is worth: a prefix
  that once had no list cannot be removed as occupancy (internal/netbox/refresh.go
  and remove.go).
 */
module Reconstruction {
  import opened Cidr
  import opened Optional
  import opened NetBox
  import opened Contributors
  import opened Config
  import opened Ownership
  import opened Requests
  import opened Inventory
  import opened Occupancy

  /** What a refresh leaves for a reader: its source, every identity, and on a prefix without a list the marker that bars its removal. */
  lemma RefreshShows(s: Stored, t: Stored, source: string, table: seq<Contributor>)
    requires Refreshed(s, t, source, table)
    ensures StringCF(t.fields, ImportSource) == source && ListOf(t.fields).Some?
    ensures Identities(ListOf(t.fields).value) == Identities(ListOf(s.fields).UnwrapOr([])) + Identities(table)
    ensures ListOf(s.fields).None? ==> Reconstructed(t.fields) && !Removable(t)
    ensures ListOf(s.fields).Some? ==> (Reconstructed(t.fields) <==> Reconstructed(s.fields))
    ensures ContributorsReconstructed in t.fields ==> ImportContributors in t.fields
  {
    var merged :|
      && Lists(MergedIndex(ListOf(s.fields).UnwrapOr([]), table), merged)
      && t == Patched(s, RefreshPatch(merged, source, ListOf(s.fields).None?));
    PatchShows(s, merged, source);
    MergeIdentities(ListOf(s.fields).UnwrapOr([]), table, merged);
  }

  lemma PatchShows(s: Stored, merged: seq<Contributor>, source: string)
    ensures var t := Patched(s, RefreshPatch(merged, source, ListOf(s.fields).None?));
      && StringCF(t.fields, ImportSource) == source && ListOf(t.fields) == Some(merged) && ImportContributors in t.fields
      && (ListOf(s.fields).None? ==> Reconstructed(t.fields))
      && (ListOf(s.fields).Some? ==> (Reconstructed(t.fields) <==> Reconstructed(s.fields)))
  {
  }

  // ----- over whole histories -----

  /** No list, or one that a refresh wrote from nothing; and the inventory never holds the marker's field without the list's. */
  predicate Barred(s: Stored) {
    && (ListOf(s.fields).None? || Reconstructed(s.fields))
    && (ContributorsReconstructed in s.fields ==> ImportContributors in s.fields)
  }

  predicate BarredIfThere(now: Option<Stored>) {
    now.Some? ==> Barred(now.value)
  }

  lemma SyncKeepsBarred(s: Stored, read: Stored, a: Allocation, sent: Patch)
    requires Barred(s) && Barred(read) && IsProjection(a, read, sent)
    ensures Barred(Patched(s, sent))
  {
    assert !Projected(a, ImportContributors) && !Projected(a, ContributorsReconstructed);
  }

  /** Every lawful write but a creation keeps a barred prefix barred, and none of them is a removal. */
  lemma BarredStep(e: Event)
    requires Guarded(e) && !e.writer.Foreign? && e.before.Some? && Barred(e.before.value)
    requires e.writer.Syncing? ==> Barred(e.writer.read)
    ensures !e.writer.Removing? && BarredIfThere(e.after)
  {
    match e.writer
    case Refreshing(net, vrf, source, table) => RefreshShows(e.before.value, e.after.value, source, table);
    case Syncing(a, vrf, read, _, sent) => SyncKeepsBarred(e.before.value, read, a, sent);
    case _ =>
  }

  /** The prefix stands throughout, and no Sync lands on it that had read it before. */
  ghost predicate StandsSince(h: seq<Event>, id: nat, i: nat, j: nat) {
    forall k :: i <= k < j && k < |h| && h[k].id == id ==> h[k].after.Some? && (h[k].writer.Syncing? ==> h[k].writer.readAt >= i)
  }

  ghost predicate BarredNow(initial: Contents, h: seq<Event>, id: nat, m: nat)
    requires m <= |h|
  {
    Find(Replay(initial, h[..m]), id).Some? && Barred(Find(Replay(initial, h[..m]), id).value)
  }

  ghost predicate BarredFrom(initial: Contents, h: seq<Event>, id: nat, i: nat, k: nat)
    requires k <= |h|
  {
    forall m :: i <= m <= k ==> BarredNow(initial, h, id, m)
  }

  lemma {:induction false} BarredThroughout(initial: Contents, h: seq<Event>, id: nat, i: nat, j: nat)
    requires i <= j <= |h| && BarredNow(initial, h, id, i)
    requires forall k :: i <= k < j && BarredFrom(initial, h, id, i, k) ==> BarredNow(initial, h, id, k + 1)
    ensures BarredFrom(initial, h, id, i, j)
    decreases j
  {
    if i < j {
      BarredThroughout(initial, h, id, i, j - 1);
    }
  }

  lemma BarredAt(initial: Contents, h: seq<Event>, id: nat, i: nat, k: nat)
    requires i <= k < |h| && Consistent(initial, h) && Lawful(initial, h[..k], h[k]) && h[k].id == id && !h[k].writer.Foreign?
    requires (h[k].writer.Syncing? ==> h[k].writer.readAt >= i) && BarredFrom(initial, h, id, i, k)
    ensures !h[k].writer.Removing? && BarredIfThere(h[k].after)
  {
    ReplayStep(initial, h, k);
    assert BarredNow(initial, h, id, k);
    if h[k].writer.Syncing? {
      ReadBefore(initial, h, k);
      assert BarredNow(initial, h, id, h[k].writer.readAt);
    }
    BarredStep(h[k]);
  }

  lemma BarredNext(initial: Contents, h: seq<Event>, id: nat, i: nat, k: nat)
    requires i <= k < |h| && Consistent(initial, h) && Lawful(initial, h[..k], h[k]) && BarredFrom(initial, h, id, i, k)
    requires h[k].id == id ==>
      !h[k].writer.Foreign? && h[k].after.Some? && (h[k].writer.Syncing? ==> h[k].writer.readAt >= i)
    ensures BarredNow(initial, h, id, k + 1)
  {
    ReplayStep(initial, h, k);
    assert BarredNow(initial, h, id, k);
    if h[k].id == id {
      BarredAt(initial, h, id, i, k);
    }
  }

  lemma StaysBarred(initial: Contents, h: seq<Event>, id: nat, i: nat, j: nat)
    requires i <= j <= |h| && Consistent(initial, h) && AllLawful(initial, h) && Untouched(h, id, i, j) && StandsSince(h, id, i, j)
    requires BarredNow(initial, h, id, i)
    ensures BarredFrom(initial, h, id, i, j)
  {
    forall k | i <= k < j && BarredFrom(initial, h, id, i, k) ensures BarredNow(initial, h, id, k + 1) {
      assert Lawful(initial, h[..k], h[k]);
      BarredNext(initial, h, id, i, k);
    }
    BarredThroughout(initial, h, id, i, j);
  }

  /**
    A prefix that had no list at one point, or only a reconstructed one, is
    never deleted by a removal of occupancy while it stands, whatever this
    system runs, as long as nobody outside it edits the prefix and no Sync
    lands that had read it before.
   */
  lemma NeverRemoved(initial: Contents, h: seq<Event>, id: nat, i: nat, j: nat, s: Stored)
    requires i <= j < |h| && Consistent(initial, h) && AllLawful(initial, h)
    requires Untouched(h, id, i, j + 1) && StandsSince(h, id, i, j)
    requires Find(Replay(initial, h[..i]), id) == Some(s) && Barred(s)
    requires h[j].id == id && (h[j].writer.Syncing? ==> h[j].writer.readAt >= i)
    ensures !h[j].writer.Removing?
  {
    StaysBarred(initial, h, id, i, j);
    assert Lawful(initial, h[..j], h[j]);
    BarredAt(initial, h, id, i, j);
  }

  lemma AbsentBefore(initial: Contents, h: seq<Event>, id: nat, n: nat)
    requires n <= |h| && Consistent(initial, h) && id !in initial && forall m :: 0 <= m < n ==> h[m].id != id
    ensures Find(Replay(initial, h[..n]), id).None?
  {
    assert h[..0] == [];
    Idle(initial, h, id, 0, n);
  }

  lemma ReadAfterCreation(initial: Contents, h: seq<Event>, id: nat, k: nat, m: nat)
    requires k < m < |h| && Consistent(initial, h) && AllLawful(initial, h) && id !in initial
    requires (forall n :: 0 <= n < k ==> h[n].id != id) && h[m].id == id && h[m].writer.Syncing?
    ensures h[m].writer.readAt >= k + 1
  {
    assert Lawful(initial, h[..m], h[m]);
    ReadBefore(initial, h, m);
    AbsentBefore(initial, h, id, if h[m].writer.readAt <= k then h[m].writer.readAt else 0);
  }

  /** An import without contributors is never removed as occupancy, unless somebody outside this system edits it. */
  lemma UnlistedImportNeverRemoved(initial: Contents, h: seq<Event>, id: nat, k: nat, j: nat)
    requires k < j < |h| && Consistent(initial, h) && AllLawful(initial, h) && Untouched(h, id, k, j + 1)
    requires id !in initial && (forall n :: 0 <= n < k ==> h[n].id != id) && h[k].id == h[j].id == id
    requires h[k].writer.Importing? && ListOf(h[k].writer.row.fields).None?
    requires ContributorsReconstructed !in h[k].writer.row.fields
    requires forall n :: k < n < j && h[n].id == id ==> h[n].after.Some?
    ensures !h[j].writer.Removing?
  {
    ReplayStep(initial, h, k);
    assert Lawful(initial, h[..k], h[k]);
    forall m | k + 1 <= m <= j && h[m].id == id && h[m].writer.Syncing? ensures h[m].writer.readAt >= k + 1 {
      ReadAfterCreation(initial, h, id, k, m);
    }
    NeverRemoved(initial, h, id, k + 1, j, h[k].writer.row);
  }

  // ----- on the server -----

  /** Imported occupancy at the place that has no list yet, outside pool space. */
  ghost predicate Unlisted(c: Contents, cfg: Settings, domain: string, p: Place, id: nat) {
    && Alone(c, p, id) && Ownership.Occupancy(c[id], p.net, p.vrf) && !TouchesPool(cfg, domain, p.net)
    && ListOf(c[id].fields).None? && !Unreadable(c[id].fields)
  }

  lemma RefreshBars(c: Contents, d: Contents, p: Place, source: string, table: seq<Contributor>, id: nat)
    requires Alone(c, p, id) && Ownership.Occupancy(c[id], p.net, p.vrf) && ListOf(c[id].fields).None? && table != []
    requires id in d && d == c[id := d[id]] && Refreshed(c[id], d[id], source, table)
    ensures Alone(d, p, id) && RemoveRefusal(d[id], p) == Some(ReconstructedList)
    ensures ListOf(d[id].fields).Some? && Identities(ListOf(d[id].fields).value) == Identities(table)
  {
    RefreshShows(c[id], d[id], source, table);
    RefreshedKeeps(c[id], d[id], source, table);
    forall j | HoldsAt(d, p, j) ensures j == id {
      assert j != id ==> HoldsAt(c, p, j);
    }
    assert table[0].identity in Identities(table);
  }

  method RefreshUndisturbed(
    nb: Server, cfg: Settings, domain: string, cidr: CidrText, p: Place, source: string, table: seq<Contributor>, id: nat)
    returns (r: Reply<Refresh>)
    requires nb.Valid() && nb.script == [] && OccupancyPlace(cfg, domain, 0, cidr) == Done(p) && Named(table) && table != []
    requires Unlisted(nb.Contents(), cfg, domain, p, id)
    modifies nb
    ensures nb.Valid() && nb.script == [] && r == Done(Refresh(id, true, true)) && id in nb.Contents()
    ensures Alone(nb.Contents(), p, id) && RemoveRefusal(nb.Contents()[id], p) == Some(ReconstructedList)
    ensures ListOf(nb.Contents()[id].fields).Some? && Identities(ListOf(nb.Contents()[id].fields).value) == Identities(table)
  {
    ghost var c := nb.Contents();
    ghost var w;
    r, w := RefreshOccupancy(nb, cfg, domain, 0, cidr, source, table);
    RefreshBars(c, nb.Contents(), p, source, table, id);
  }

  /** The removal that follows a reconstruction, undisturbed, is refused and changes nothing. */
  method RefreshThenDelete(
    nb: Server, cfg: Settings, domain: string, cidr: CidrText, p: Place, source: string, table: seq<Contributor>, id: nat)
    returns (refreshed: Reply<Refresh>, removed: Reply<()>, ghost middle: Contents)
    requires nb.Valid() && nb.script == [] && OccupancyPlace(cfg, domain, 0, cidr) == Done(p) && Named(table) && table != []
    requires Unlisted(nb.Contents(), cfg, domain, p, id)
    modifies nb
    ensures nb.Valid() && refreshed == Done(Refresh(id, true, true))
    ensures removed == Fails(ReconstructedList) && nb.Contents() == middle && id in middle
    ensures ListOf(middle[id].fields).Some? && Identities(ListOf(middle[id].fields).value) == Identities(table)
  {
    ghost var v;
    refreshed := RefreshUndisturbed(nb, cfg, domain, cidr, p, source, table, id);
    middle := nb.Contents();
    removed, v := DeleteOccupancy(nb, cfg, domain, 0, cidr, id);
  }
}
