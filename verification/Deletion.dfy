/**
  Deleting the prefix of a released allocation (Delete in
  internal/netbox/client.go): the one operation that checks identity, then
  deletes without a condition and whatever the tags.
 */
module Deletion {
  import opened Cidr
  import opened Optional
  import opened NetBox
  import opened Ownership
  import opened Inventory
  import opened Config
  import opened Requests

  lemma DeleteIsLawful(m: Moment, w: Event)
    requires w.writer.Deleting? && w.writer.readAt == |m.history| && IsWrite(w, w.writer, w.id, None)
    requires Identified(w.writer.read, w.writer.a, w.writer.vrf)
    requires Find(Replay(m.initial, m.history), w.id) == Some(w.writer.read)
    ensures Lawful(m.initial, m.history, w)
  {
    assert m.history[..|m.history|] == m.history;
  }

  /** The unconditional DELETE, and what its answer leaves to be found out. */
  method SendDelete(nb: Server, a: Allocation, vrf: nat, id: nat, x: Stored, ghost seen: Moment)
    returns (r: Reply<()>, ghost w: Option<Event>)
    requires nb.Valid() && seen == nb.Now() && Identified(x, a, vrf)
    requires id in nb.Contents() && nb.Contents()[id] == x
    modifies nb
    ensures nb.Valid() && Ran(seen, nb.Now(), w)
    ensures w.Some? ==> Lawful(seen.initial, seen.history, w.value) && w.value.id == id
    ensures w.Some? ==> w.value.writer == Deleting(a, vrf, x, |seen.history|)
    ensures r.Done? ==> id !in nb.Contents() || NoClaim(nb.Contents(), a.id)
    ensures old(nb.script) == [] ==> r.Done? && w.Some? && nb.Contents() == old(nb.Contents()) - {id}
  {
    var sent;
    sent, w := nb.Write(Deleting(a, vrf, x, |seen.history|), id, None, None, seen);
    ghost var m := nb.Now();
    if w.Some? {
      DeleteIsLawful(seen, w.value);
    }
    if !sent.Ok? {
      var found := FindByMarker(nb, a.id);
      RanTrans(seen, m, nb.Now(), w, None);
      return if found.Done? && found.value.Nothing? then Done(()) else Fails(Uncertain), w;
    }
    var after := nb.Detail(id);
    RanTrans(seen, m, nb.Now(), w, None);
    if after.Ok? {
      return Fails(ReadBack), w;
    }
    r := if after.NotFound? then Done(()) else Fails(Unserved(after));
  }

  /** Delete past its arguments. */
  method DeletePrefix(nb: Server, a: Allocation, vrf: nat, id: nat) returns (r: Reply<()>, ghost w: Option<Event>)
    requires nb.Valid()
    modifies nb
    ensures nb.Valid() && Ran(old(nb.Now()), nb.Now(), w)
    ensures AllLawful(nb.initial, old(nb.history)) ==> AllLawful(nb.initial, nb.history)
    ensures w.Some? ==> w.value.id == id && w.value.writer.Deleting? && w.value.writer.a == a && w.value.writer.vrf == vrf
    ensures w.Some? ==> Identified(w.value.writer.read, a, vrf)
    ensures r.Done? ==> id !in nb.Contents() || NoClaim(nb.Contents(), a.id)
    ensures old(nb.script) == [] && id in old(nb.Contents()) ==>
      if Identified(old(nb.Contents())[id], a, vrf) then r.Done? && w.Some? && nb.Contents() == old(nb.Contents()) - {id}
      else r == Fails(NotOurs) && w.None? && nb.Contents() == old(nb.Contents())
  {
    ghost var m0 := nb.Now();
    assert Ran(m0, m0, None);
    var read := nb.Detail(id);
    ghost var m1 := nb.Now();
    if !read.Ok? || !Identified(read.value.content, a, vrf) {
      ReadThenWriteKeepsLawful(m0, m0, m1, None);
      return if read.Ok? then Fails(NotOurs) else Fails(Unserved(read)), None;
    }
    r, w := SendDelete(nb, a, vrf, id, read.value.content, m1);
    ReadThenWriteKeepsLawful(m0, m1, nb.Now(), w);
  }

  /**
    Delete: at most one write, a delete, of a prefix that read as the
    allocation's; success means it is gone or nothing claims the allocation.
    An import tag is no reason to refuse.
   */
  method DeleteAllocation(nb: Server, cfg: Settings, a: Allocation, inventory: Option<nat>)
    returns (r: Reply<()>, ghost w: Option<Event>)
    requires nb.Valid()
    modifies nb
    ensures nb.Valid() && Ran(old(nb.Now()), nb.Now(), w)
    ensures AllLawful(nb.initial, old(nb.history)) ==> AllLawful(nb.initial, nb.history)
    ensures inventory.None? || AllocationDomain(cfg, a).None? ==> r.Fails? && nb.Now() == old(nb.Now())
    ensures inventory.Some? && AllocationDomain(cfg, a).Some? ==>
      var id, vrf := inventory.value, PoolVRF(AllocationDomain(cfg, a).value.0, AllocationDomain(cfg, a).value.1);
      && (w.Some? ==> w.value.id == id && w.value.writer.Deleting? && w.value.writer.a == a)
      && (w.Some? ==> Identified(w.value.writer.read, a, vrf))
      && (r.Done? ==> id !in nb.Contents() || NoClaim(nb.Contents(), a.id))
      && (old(nb.script) == [] && id in old(nb.Contents()) ==>
            if Identified(old(nb.Contents())[id], a, vrf) then r.Done? && w.Some? && nb.Contents() == old(nb.Contents()) - {id}
            else r == Fails(NotOurs) && w.None? && nb.Contents() == old(nb.Contents()))
  {
    assert Ran(nb.Now(), nb.Now(), None);
    if inventory.None? {
      return Fails(Invalid), None;
    }
    var place := AllocationDomain(cfg, a);
    if place.None? {
      return Fails(Misconfigured), None;
    }
    r, w := DeletePrefix(nb, a, PoolVRF(place.value.0, place.value.1), inventory.value);
  }
}
