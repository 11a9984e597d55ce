/** The life of an imported prefix that is adopted and given back (occupancy.go, adopt.go, abandon.go in internal/netbox). */
module RoundTrip {
  import opened Cidr
  import opened Optional
  import opened NetBox
  import opened Inventory
  import opened Config
  import opened Ownership
  import opened Requests
  import opened Adoption
  import opened Occupancy
  import opened Deletion

  lemma ImportIsAdoptable(c: Contents, p: Place, a: Allocation, id: nat, s: Stored)
    requires NoneHolds(c, p) && NoClaim(c, a.id) && a.id != "" && Ownership.Occupancy(s, p.net, p.vrf)
    ensures Adoptable(c[id := s], a, p, id)
  {
    var d := c[id := s];
    forall j | HoldsAt(d, p, j) ensures j == id {
      assert !HoldsAt(c, p, j);
    }
    forall j | Claims(d, a.id, j) ensures j == id {
      assert !Claims(c, a.id, j);
    }
  }

  lemma AdoptedIsSoleClaim(c: Contents, p: Place, a: Allocation, op: string, id: nat)
    requires Adoptable(c, a, p, id) && a.id != ""
    ensures SoleClaim(c[id := AfterAdoption(c[id], a, op)], a.id, id)
    ensures OwnedBy(AfterAdoption(c[id], a, op), a.id, op) && AfterAdoption(c[id], a, op).Imported()
    ensures AfterAdoption(c[id], a, op) == Patched(c[id], AdoptPatch(a, op, c[id]))
  {
    AdoptedIsOwned(c[id], a, op);
    var d := c[id := AfterAdoption(c[id], a, op)];
    forall j | Claims(d, a.id, j) ensures j == id {
      assert j != id ==> Claims(c, a.id, j);
    }
  }

  lemma AbandonedLeavesNoClaim(c: Contents, a: Allocation, prior: Prior, id: nat)
    requires SoleClaim(c, a.id, id) && a.id != ""
    ensures NoClaim(c[id := Patched(c[id], AbandonPatch(a, prior))], a.id)
  {
    AbandonedIsFree(c[id], a, prior);
    var d := c[id := Patched(c[id], AbandonPatch(a, prior))];
    forall j ensures !Claims(d, a.id, j) {
      assert Claims(d, a.id, j) && j != id ==> Claims(c, a.id, j);
    }
  }

  // ----- the operations, undisturbed -----

  method AdoptUndisturbed(nb: Server, cfg: Settings, a: Allocation, op: string, ghost id: nat)
    requires nb.Valid() && nb.script == [] && AdoptPlace(cfg, a, op).Done? && id != 0
    requires Adoptable(nb.Contents(), a, AdoptPlace(cfg, a, op).value, id)
    modifies nb
    ensures nb.Valid() && nb.script == []
    ensures nb.Contents() == old(nb.Contents())[id := AfterAdoption(old(nb.Contents())[id], a, op)]
  {
    var r, w := Adopt(nb, cfg, a, op);
  }

  method AbandonUndisturbed(nb: Server, a: Allocation, op: string, prior: Prior, ghost id: nat)
    requires nb.Valid() && nb.script == [] && a.id != "" && op != "" && id != 0
    requires SoleClaim(nb.Contents(), a.id, id) && OwnedBy(nb.Contents()[id], a.id, op)
    modifies nb
    ensures nb.Valid() && nb.script == []
    ensures nb.Contents() == old(nb.Contents())[id := Patched(old(nb.Contents())[id], AbandonPatch(a, prior))]
  {
    var r, w, _ := AbandonAdoption(nb, a, op, prior);
  }

  method AbandonAgain(nb: Server, a: Allocation, op: string, prior: Prior) returns (ghost w: Option<Event>)
    requires nb.Valid() && nb.script == [] && a.id != "" && op != "" && NoClaim(nb.Contents(), a.id)
    modifies nb
    ensures nb.Valid() && w == None && nb.Contents() == old(nb.Contents())
  {
    var r, w', _ := AbandonAdoption(nb, a, op, prior);
    w := w';
  }

  /** Adopting and abandoning: the prefix is as the ledger can put it back, and no longer claimed. */
  method AdoptThenAbandon(nb: Server, cfg: Settings, a: Allocation, op: string, s: Stored, ghost id: nat)
    requires nb.Valid() && nb.script == [] && AdoptPlace(cfg, a, op).Done? && id != 0
    requires Adoptable(nb.Contents(), a, AdoptPlace(cfg, a, op).value, id) && nb.Contents()[id] == s
    modifies nb
    ensures nb.Valid() && nb.script == [] && NoClaim(nb.Contents(), a.id)
    ensures nb.Contents() == old(nb.Contents())[id := AdoptedThenAbandoned(s, a, op)]
  {
    ghost var c1 := nb.Contents();
    AdoptUndisturbed(nb, cfg, a, op, id);
    ghost var c2 := nb.Contents();
    AdoptedIsSoleClaim(c1, AdoptPlace(cfg, a, op).value, a, op, id);
    AbandonUndisturbed(nb, a, op, PriorOf(s), id);
    AbandonedLeavesNoClaim(c2, a, PriorOf(s), id);
  }

  /**
    Import, adopt, abandon, abandon again, undisturbed: the prefix is what the
    import made of it, nothing else changed, and the second abandon wrote
    nothing.
   */
  method ImportAdoptAbandon(nb: Server, cfg: Settings, domain: string, row: Row, a: Allocation, op: string)
    returns (id: nat, ghost again: Option<Event>)
    requires nb.Valid() && nb.script == []
    requires ImportRefusal(cfg, domain, 0, row).None?
    requires AdoptPlace(cfg, a, op) == Done(Place(row.cidr.net, cfg.domains[domain].vrf))
    requires NoneHolds(nb.Contents(), AdoptPlace(cfg, a, op).value) && NoClaim(nb.Contents(), a.id)
    requires a.binding == None && a.lastObservedAt == None && a.quarantineUntil == None
    modifies nb
    ensures nb.Valid() && again == None
    ensures id in nb.Contents() && Added(old(nb.Contents()), nb.Contents(), id, nb.Contents()[id])
    ensures SameUpToNull(nb.Contents()[id], Imported(row, AdoptPlace(cfg, a, op).value))
  {
    var p := Place(row.cidr.net, cfg.domains[domain].vrf);
    var s := Imported(row, p);
    assert Ownership.Occupancy(s, p.net, p.vrf) by {
      ImportedIsOccupancy(row, p);
    }
    assert SameUpToNull(AdoptedThenAbandoned(s, a, op), s) by {
      ImportRestores(row, p, a, op);
    }
    ghost var c0 := nb.Contents();
    id := ImportUndisturbed(nb, cfg, domain, row);
    ImportIsAdoptable(c0, p, a, id, s);
    again := AdoptAbandonTwice(nb, cfg, a, op, s, id);
    AddedOver(c0, id, s, AdoptedThenAbandoned(s, a, op));
  }

  lemma AddedOver(c: Contents, id: nat, s: Stored, t: Stored)
    ensures c[id := s][id := t] == c[id := t]
  {
  }

  method AdoptAbandonTwice(nb: Server, cfg: Settings, a: Allocation, op: string, s: Stored, ghost id: nat)
    returns (ghost again: Option<Event>)
    requires nb.Valid() && nb.script == [] && AdoptPlace(cfg, a, op).Done? && id != 0
    requires Adoptable(nb.Contents(), a, AdoptPlace(cfg, a, op).value, id) && nb.Contents()[id] == s
    modifies nb
    ensures nb.Valid() && again == None
    ensures nb.Contents() == old(nb.Contents())[id := AdoptedThenAbandoned(s, a, op)]
  {
    AdoptThenAbandon(nb, cfg, a, op, s, id);
    again := AbandonAgain(nb, a, op, PriorOf(s));
  }

  // ----- import, adopt, delete -----

  method DeleteUndisturbed(nb: Server, cfg: Settings, a: Allocation, id: nat)
    requires nb.Valid() && nb.script == [] && AllocationDomain(cfg, a).Some? && id in nb.Contents()
    requires Identified(nb.Contents()[id], a, PoolVRF(AllocationDomain(cfg, a).value.0, AllocationDomain(cfg, a).value.1))
    modifies nb
    ensures nb.Valid() && nb.Contents() == old(nb.Contents()) - {id}
  {
    var r, w := DeleteAllocation(nb, cfg, a, Some(id));
  }

  /** Import, adopt and delete, undisturbed: the import goes with its allocation. */
  method ImportAdoptDelete(nb: Server, cfg: Settings, domain: string, row: Row, a: Allocation, op: string) returns (id: nat)
    requires nb.Valid() && nb.script == []
    requires ImportRefusal(cfg, domain, 0, row).None?
    requires AdoptPlace(cfg, a, op) == Done(Place(row.cidr.net, cfg.domains[domain].vrf))
    requires NoneHolds(nb.Contents(), AdoptPlace(cfg, a, op).value) && NoClaim(nb.Contents(), a.id)
    modifies nb
    ensures nb.Valid() && nb.Contents() == old(nb.Contents())
  {
    var p := Place(row.cidr.net, cfg.domains[domain].vrf);
    var s := Imported(row, p);
    assert Ownership.Occupancy(s, p.net, p.vrf) by {
      ImportedIsOccupancy(row, p);
    }
    ghost var c0 := nb.Contents();
    id := ImportUndisturbed(nb, cfg, domain, row);
    ImportIsAdoptable(c0, p, a, id, s);
    AdoptThenDelete(nb, cfg, a, op, id);
    assert c0[id := s] - {id} == c0;
  }

  method AdoptThenDelete(nb: Server, cfg: Settings, a: Allocation, op: string, id: nat)
    requires nb.Valid() && nb.script == [] && AdoptPlace(cfg, a, op).Done? && id != 0
    requires Adoptable(nb.Contents(), a, AdoptPlace(cfg, a, op).value, id)
    modifies nb
    ensures nb.Valid() && nb.Contents() == old(nb.Contents()) - {id}
  {
    ghost var c := nb.Contents();
    AdoptedIsSoleClaim(c, AdoptPlace(cfg, a, op).value, a, op, id);
    AdoptUndisturbed(nb, cfg, a, op, id);
    DeleteUndisturbed(nb, cfg, a, id);
    assert c[id := AfterAdoption(c[id], a, op)] - {id} == c - {id};
  }
}
