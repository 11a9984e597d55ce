/**
  The request sequences the operations share: find the one prefix, write it
  conditionally on what was read, and read it back (internal/netbox/adopt.go,
  abandon.go, cancel.go, refresh.go, remove.go).
 */
module Requests {
  import opened Optional
  import opened NetBox
  import opened Inventory
  import opened Config

  /** A write that found, when entity tags are in use, exactly what was read. */
  ghost predicate Conditional(e: Option<Event>, w: Writer, id: nat, p: Option<Patch>, current: Stored, tagged: bool) {
    e.Some? ==> IsWrite(e.value, w, id, p) && (tagged ==> e.value.before == Some(current))
  }

  /** The prefix was read at an earlier moment and has the version it had then. */
  ghost predicate ReadAt(seen: Moment, now: Moment, id: nat, current: Object) {
    Evolves(seen, now) && id in seen.objects && seen.objects[id] == current && current.version < seen.clock
  }

  predicate MayHaveWritten(error: Error) {
    error == ReadBack || error == Uncertain || error == Declined
  }

  /** PATCH, conditional when there is an entity tag, then a read that must satisfy ok. */
  method WriteAndReadBack(
    nb: Server, ghost w: Writer, id: nat, current: Object, p: Patch, ok: Stored -> bool, ghost seen: Moment)
    returns (r: Reply<()>, ghost e: Option<Event>)
    requires nb.Valid() && ReadAt(seen, nb.Now(), id, current)
    modifies nb
    ensures nb.Valid() && Ran(old(nb.Now()), nb.Now(), e)
    ensures Conditional(e, w, id, Some(p), current.content, nb.tagged)
    ensures r.Done? ==> e.Some? && id in nb.Contents() && ok(nb.Contents()[id])
    ensures r.Fails? && e.Some? ==> MayHaveWritten(r.error)
    ensures old(nb.script) == [] ==> nb.script == []
    ensures old(nb.script) == [] && ReadAt(old(nb.Now()), old(nb.Now()), id, current) ==>
      && nb.Contents() == old(nb.Contents())[id := Patched(current.content, p)]
      && (if ok(Patched(current.content, p)) then r.Done? else r == Fails(ReadBack))
  {
    var sent;
    sent, e := nb.Write(w, id, nb.Tag(current), Some(p), seen);
    ghost var m := nb.Now();
    if sent.PreconditionFailed? {
      return Fails(Conflict), e;
    }
    if !sent.Ok? {
      return Fails(Unserved(sent)), e;
    }
    assert old(nb.script) == [] && ReadAt(old(nb.Now()), old(nb.Now()), id, current) ==>
      nb.Contents() == old(nb.Contents())[id := Patched(current.content, p)] && nb.Contents()[id] == Patched(current.content, p);
    var after := nb.Detail(id);
    RanTrans(old(nb.Now()), m, nb.Now(), e, None);
    if !after.Ok? {
      return Fails(Unserved(after)), e;
    }
    if !ok(after.value.content) {
      return Fails(ReadBack), e;
    }
    r := Done(());
  }

  /** DELETE, conditional when there is an entity tag, then a read that must find nothing. */
  method DeleteAndConfirm(nb: Server, ghost w: Writer, id: nat, current: Object, ghost seen: Moment)
    returns (r: Reply<()>, ghost e: Option<Event>)
    requires nb.Valid() && ReadAt(seen, nb.Now(), id, current)
    modifies nb
    ensures nb.Valid() && Ran(old(nb.Now()), nb.Now(), e)
    ensures Conditional(e, w, id, None, current.content, nb.tagged)
    ensures r.Done? ==> id !in nb.Contents()
    ensures r.Fails? && e.Some? ==> MayHaveWritten(r.error)
    ensures old(nb.script) == [] ==> nb.script == []
    ensures old(nb.script) == [] && ReadAt(old(nb.Now()), old(nb.Now()), id, current) ==>
      r.Done? && nb.Contents() == old(nb.Contents()) - {id}
  {
    var sent;
    sent, e := nb.Write(w, id, nb.Tag(current), None, seen);
    ghost var m := nb.Now();
    if sent.PreconditionFailed? {
      return Fails(Conflict), e;
    }
    if !sent.Ok? && !sent.NotFound? {
      return Fails(Unserved(sent)), e;
    }
    var after := nb.Detail(id);
    RanTrans(old(nb.Now()), m, nb.Now(), e, None);
    if after.Ok? {
      return Fails(ReadBack), e;
    }
    if !after.NotFound? {
      return Fails(Unserved(after)), e;
    }
    r := Done(());
  }

  /** How many prefixes a list holds, and which. */
  datatype Found = Nothing | One(id: nat, content: Stored) | Many(first: nat, second: nat)

  method Classify(listed: Contents) returns (f: Found)
    ensures f.Nothing? ==> forall j :: j !in listed
    ensures f.One? ==> f.id in listed && listed[f.id] == f.content && forall j :: j in listed ==> j == f.id
    ensures f.Many? ==> f.first in listed && f.second in listed && f.first != f.second
  {
    if listed == map[] {
      return Nothing;
    }
    var id :| id in listed;
    if |listed| == 1 {
      assert |listed.Keys - {id}| == 0;
      return One(id, listed[id]);
    }
    assert listed.Keys != {id};
    var other :| other in listed && other != id;
    return Many(id, other);
  }

  predicate HoldsAt(c: Contents, p: Place, id: nat) {
    id in c && At(c[id], p)
  }

  predicate Claims(c: Contents, marker: string, id: nat) {
    id in c && c[id].Marker() == marker
  }

  /** One prefix holds the place, and it alone. */
  ghost predicate Alone(c: Contents, p: Place, id: nat) {
    HoldsAt(c, p, id) && forall j :: HoldsAt(c, p, j) ==> j == id
  }

  /** No other prefix claims the allocation. */
  ghost predicate Unclaimed(c: Contents, marker: string, id: nat) {
    forall j :: Claims(c, marker, j) ==> j == id
  }

  ghost predicate NoneHolds(c: Contents, p: Place) {
    forall j :: !HoldsAt(c, p, j)
  }

  lemma NoneHoldsVacant(c: Contents, p: Place, s: Stored)
    requires NoneHolds(c, p) && At(s, p)
    ensures Vacant(c, s)
  {
    forall j | j in c ensures !(c[j].net == s.net && c[j].vrf == s.vrf) {
      assert !HoldsAt(c, p, j);
    }
  }

  ghost predicate NoClaim(c: Contents, marker: string) {
    forall j :: !Claims(c, marker, j)
  }

  /** prefixesAt: the prefixes at exactly this CIDR in this VRF. */
  method PrefixesAt(nb: Server, p: Place) returns (r: Reply<Found>)
    requires nb.Valid()
    modifies nb
    ensures nb.Valid() && Ran(old(nb.Now()), nb.Now(), None)
    ensures r.Fails? ==> r.error == Uncertain || r.error == Declined
    ensures r.Done? && r.value.Nothing? ==> NoneHolds(nb.Contents(), p)
    ensures r.Done? && r.value.One? ==> Alone(nb.Contents(), p, r.value.id) && nb.Contents()[r.value.id] == r.value.content
    ensures r.Done? && r.value.Many? ==>
      HoldsAt(nb.Contents(), p, r.value.first) && HoldsAt(nb.Contents(), p, r.value.second) && r.value.first != r.value.second
    ensures old(nb.script) == [] ==> nb.script == [] && nb.Now() == old(nb.Now()) && r.Done?
  {
    var listed := nb.List(s => At(s, p));
    if !listed.Ok? {
      return Fails(Unserved(listed));
    }
    var found := Classify(listed.value);
    assert forall j :: HoldsAt(nb.Contents(), p, j) <==> j in listed.value;
    r := Done(found);
  }

  /** findByMarker: the prefixes claiming the allocation. */
  method FindByMarker(nb: Server, marker: string) returns (r: Reply<Found>)
    requires nb.Valid()
    modifies nb
    ensures nb.Valid() && Ran(old(nb.Now()), nb.Now(), None)
    ensures r.Fails? ==> r.error == Uncertain || r.error == Declined
    ensures r.Done? && r.value.Nothing? ==> NoClaim(nb.Contents(), marker)
    ensures r.Done? && r.value.One? ==>
      Claims(nb.Contents(), marker, r.value.id) && Unclaimed(nb.Contents(), marker, r.value.id) && nb.Contents()[r.value.id] == r.value.content
    ensures r.Done? && r.value.Many? ==>
      Claims(nb.Contents(), marker, r.value.first) && Claims(nb.Contents(), marker, r.value.second) && r.value.first != r.value.second
    ensures old(nb.script) == [] ==> nb.script == [] && nb.Now() == old(nb.Now()) && r.Done?
  {
    var listed := nb.List((s: Stored) => s.Marker() == marker);
    if !listed.Ok? {
      return Fails(Unserved(listed));
    }
    var found := Classify(listed.value);
    assert forall j :: Claims(nb.Contents(), marker, j) <==> j in listed.value;
    r := Done(found);
  }

  /** One prefix claims the allocation, and it alone. */
  ghost predicate SoleClaim(c: Contents, marker: string, id: nat) {
    Claims(c, marker, id) && Unclaimed(c, marker, id)
  }

  /** The one prefix claiming the allocation, unless the caller may not touch it; None when nothing claims it. */
  method FindClaim(nb: Server, marker: string, refusal: Stored -> Option<Error>) returns (r: Reply<Option<nat>>)
    requires nb.Valid()
    modifies nb
    ensures nb.Valid() && Ran(old(nb.Now()), nb.Now(), None)
    ensures r.Done? && r.value.None? ==> NoClaim(nb.Contents(), marker)
    ensures r.Done? && r.value.Some? ==> SoleClaim(nb.Contents(), marker, r.value.value) && refusal(nb.Contents()[r.value.value]).None?
    ensures old(nb.script) == [] ==> nb.script == [] && nb.Now() == old(nb.Now())
    ensures old(nb.script) == [] && NoClaim(nb.Contents(), marker) ==> r == Done(None)
    ensures old(nb.script) == [] ==> forall k :: k != 0 && SoleClaim(nb.Contents(), marker, k) ==>
      if refusal(nb.Contents()[k]).None? then r == Done(Some(k)) else r == Fails(refusal(nb.Contents()[k]).value)
  {
    var claimed := FindByMarker(nb, marker);
    if claimed.Fails? {
      return Fails(claimed.error);
    }
    match claimed.value
    case Nothing => r := Done(None);
    case Many(_, _) => r := Fails(Ambiguous);
    case One(k, s) =>
      if k == 0 {
        return Fails(Conflict);
      }
      r := if refusal(s).Some? then Fails(refusal(s).value) else Done(Some(k));
  }
}
