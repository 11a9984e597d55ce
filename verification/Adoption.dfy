/**
  Turning imported occupancy into ownership, and giving it back
  (internal/netbox/adopt.go, internal/netbox/abandon.go).
 */
module Adoption {
  import opened Cidr
  import opened Optional
  import opened NetBox
  import opened Inventory
  import opened Config
  import opened Ownership
  import opened Requests

  /** validateExisting: the prefix carries this allocation's identity. */
  predicate Validates(s: Stored, a: Allocation, op: string, p: Place) {
    OwnedBy(s, a.id, op) && At(s, p)
  }

  /** The prefix carries the allocation, its operation and its key. */
  predicate Marked(s: Stored, a: Allocation, op: string) {
    OwnedBy(s, a.id, op) && StringCF(s.fields, AllocationKey) == a.key
  }

  /** The write an adoption may make: whatever it landed on, it leaves its marks there. */
  ghost predicate Adopts(w: Option<Event>, a: Allocation, op: string, p: Place, tagged: bool) {
    w.Some? ==>
      && w.value.writer == Adopting(a, op, p.net, p.vrf) && (tagged ==> Guarded(w.value))
      && w.value.after.Some? && Marked(w.value.after.value, a, op)
  }

  lemma AdoptionMarks(s: Stored, a: Allocation, op: string, current: Stored)
    ensures Marked(Patched(s, AdoptPatch(a, op, current)), a, op)
  {
    var owned := OwnedFields(a, op);
    assert AllocationId in owned && OperationId in owned && AllocationKey in owned;
  }

  /** At some moment since the given one, the prefix was alone at its place. */
  ghost predicate SeenAlone(initial: Contents, h: seq<Event>, from: nat, p: Place, id: nat) {
    exists t :: from <= t <= |h| && Alone(Replay(initial, h[..t]), p, id)
  }

  /** At some moment since the given one, no other prefix claimed the allocation. */
  ghost predicate SeenUnclaimed(initial: Contents, h: seq<Event>, from: nat, marker: string, id: nat) {
    exists t :: from <= t <= |h| && Unclaimed(Replay(initial, h[..t]), marker, id)
  }

  lemma SeenThen(initial: Contents, g: seq<Event>, h: seq<Event>, from: nat, p: Place, marker: string, id: nat)
    requires from <= |g| && g <= h
    ensures Alone(Replay(initial, g), p, id) ==> SeenAlone(initial, h, from, p, id)
    ensures Unclaimed(Replay(initial, g), marker, id) ==> SeenUnclaimed(initial, h, from, marker, id)
  {
    assert h[..|g|] == g;
  }

  lemma SeenEarlier(initial: Contents, h: seq<Event>, from: nat, since: nat, marker: string, id: nat)
    requires since <= from && SeenUnclaimed(initial, h, from, marker, id)
    ensures SeenUnclaimed(initial, h, since, marker, id)
  {
    var t :| from <= t <= |h| && Unclaimed(Replay(initial, h[..t]), marker, id);
    assert since <= t;
  }

  /** What an undisturbed adoption needs to find. */
  ghost predicate Adoptable(c: Contents, a: Allocation, p: Place, id: nat) {
    Alone(c, p, id) && Occupancy(c[id], p.net, p.vrf) && Unclaimed(c, a.id, id)
  }

  function AfterAdoption(s: Stored, a: Allocation, op: string): Stored {
    s.(status := RESERVED, fields := s.fields + OwnedFields(a, op))
  }

  /** A crashed adoption left the prefix as this one would. */
  predicate Converged(s: Stored, a: Allocation, op: string, p: Place) {
    Validates(s, a, op, p) && Marked(s, a, op)
  }

  /** Why the prefix at the place is not adopted, by what it reads as; a converged one is no refusal. */
  function AdoptRefusal(s: Stored, a: Allocation, op: string, p: Place): Option<Error> {
    if !At(s, p) then Some(Conflict)
    else if s.Marker() == a.id then if Converged(s, a, op, p) then None else Some(Conflict)
    else if s.Owned() then Some(Managed)
    else if !s.Imported() then Some(NotImported)
    else None
  }

  /**
    What adopting the prefix comes to when nothing interferes: a refusal, a
    prefix recognised from an earlier run, or the one write. Nothing but the
    last changes anything.
   */
  ghost predicate AdoptsQuietly(
    c: Contents, d: Contents, a: Allocation, op: string, p: Place, id: nat, r: Reply<nat>, w: Option<Event>)
    requires id in c
  {
    var s := c[id];
    if AdoptRefusal(s, a, op, p).Some? then r == Fails(AdoptRefusal(s, a, op, p).value) && w.None? && d == c
    else if s.Marker() == a.id then r == Done(id) && w.None? && d == c
    else if !Unclaimed(c, a.id, id) then r == Fails(Conflict) && w.None? && d == c
    else r == Done(id) && w.Some? && d == c[id := AfterAdoption(s, a, op)]
  }

  lemma AdoptionGuarded(e: Event, a: Allocation, op: string, p: Place, current: Stored)
    requires a.id != "" && Occupancy(current, p.net, p.vrf)
    requires IsWrite(e, Adopting(a, op, p.net, p.vrf), e.id, Some(AdoptPatch(a, op, current))) && e.before == Some(current)
    ensures Guarded(e)
  {
    AdoptedIsOwned(current, a, op);
  }

  lemma AdoptionValidates(current: Stored, a: Allocation, op: string, p: Place)
    requires a.id != "" && Occupancy(current, p.net, p.vrf)
    ensures var t := Patched(current, AdoptPatch(a, op, current));
      t == AfterAdoption(current, a, op) && Validates(t, a, op, p) && t.Imported()
  {
    AdoptedIsOwned(current, a, op);
  }

  /** The search for a rival claim, the conditional write and its reading back. */
  method ClaimAndWrite(nb: Server, a: Allocation, op: string, p: Place, id: nat, current: Object, ghost seen: Moment)
    returns (r: Reply<nat>, ghost w: Option<Event>)
    requires nb.Valid() && a.id != "" && Occupancy(current.content, p.net, p.vrf) && ReadAt(seen, nb.Now(), id, current)
    modifies nb
    ensures nb.Valid() && Ran(old(nb.Now()), nb.Now(), w) && Adopts(w, a, op, p, nb.tagged)
    ensures w.Some? ==> w.value.id == id && SeenUnclaimed(nb.initial, nb.history, |old(nb.history)|, a.id, id)
    ensures r.Done? ==> r.value == id && w.Some? && id in nb.Contents()
    ensures r.Done? ==> Validates(nb.Contents()[id], a, op, p) && nb.Contents()[id].Imported()
    ensures r.Fails? && w.Some? ==> MayHaveWritten(r.error)
    ensures old(nb.script) == [] && ReadAt(old(nb.Now()), old(nb.Now()), id, current) ==>
      if Unclaimed(old(nb.Contents()), a.id, id) then
        r == Done(id) && w.Some? && nb.Contents() == old(nb.Contents())[id := AfterAdoption(current.content, a, op)]
      else r == Fails(Conflict) && w.None? && nb.Contents() == old(nb.Contents())
    ensures old(nb.script) == [] ==> nb.script == []
  {
    ghost var m1 := nb.Now();
    var claimed := FindByMarker(nb, a.id);
    ghost var m2 := nb.Now();
    EvolvesTrans(seen, m1, m2);
    if claimed.Fails? {
      return Fails(claimed.error), None;
    }
    if claimed.value.Many? || (claimed.value.One? && claimed.value.id != id) {
      return Fails(Conflict), None;
    }
    assert Unclaimed(nb.Contents(), a.id, id);
    AdoptionValidates(current.content, a, op, p);
    var written;
    written, w := WriteAndReadBack(
      nb, Adopting(a, op, p.net, p.vrf), id, current, AdoptPatch(a, op, current.content),
      s => Validates(s, a, op, p) && s.Imported(), seen);
    RanTrans(m1, m2, nb.Now(), None, w);
    SeenThen(nb.initial, m2.history, nb.history, |m1.history|, p, a.id, id);
    if w.Some? {
      AdoptionMarks(w.value.before.value, a, op, current.content);
      if nb.tagged {
        AdoptionGuarded(w.value, a, op, p, current.content);
      }
    }
    r := if written.Done? then Done(id) else Fails(written.error);
  }

  /** The part of Adopt after the one prefix at the CIDR is known. */
  method AdoptPrefix(nb: Server, a: Allocation, op: string, p: Place, id: nat)
    returns (r: Reply<nat>, ghost w: Option<Event>)
    requires nb.Valid() && a.id != ""
    modifies nb
    ensures nb.Valid() && Ran(old(nb.Now()), nb.Now(), w) && Adopts(w, a, op, p, nb.tagged)
    ensures w.Some? ==> w.value.id == id && SeenUnclaimed(nb.initial, nb.history, |old(nb.history)|, a.id, id)
    ensures r.Done? ==> r.value == id && id in nb.Contents() && Validates(nb.Contents()[id], a, op, p)
    ensures r.Done? && w.Some? ==> nb.Contents()[id].Imported()
    ensures r.Done? && w.None? ==> Converged(nb.Contents()[id], a, op, p)
    ensures r.Fails? && w.Some? ==> MayHaveWritten(r.error)
    ensures old(nb.script) == [] && id in old(nb.Contents()) ==>
      AdoptsQuietly(old(nb.Contents()), nb.Contents(), a, op, p, id, r, w)
    ensures old(nb.script) == [] ==> nb.script == []
  {
    ghost var m0 := nb.Now();
    var read := nb.Detail(id);
    ghost var m1 := nb.Now();
    if !read.Ok? {
      return Fails(Unserved(read)), None;
    }
    var current := read.value;
    var refusal := AdoptRefusal(current.content, a, op, p);
    if refusal.Some? {
      return Fails(refusal.value), None;
    }
    if current.content.Marker() == a.id {
      return Done(id), None;
    }
    r, w := ClaimAndWrite(nb, a, op, p, id, current, m1);
    RanTrans(m0, m1, nb.Now(), None, w);
    if w.Some? {
      SeenEarlier(nb.initial, nb.history, |m1.history|, |m0.history|, a.id, id);
    }
  }

  /** The part of Adopt after the allocation's place is known. */
  method AdoptAt(nb: Server, a: Allocation, op: string, p: Place) returns (r: Reply<nat>, ghost w: Option<Event>)
    requires nb.Valid() && a.id != ""
    modifies nb
    ensures nb.Valid() && Ran(old(nb.Now()), nb.Now(), w) && Adopts(w, a, op, p, nb.tagged)
    ensures w.Some? ==> SeenUnclaimed(nb.initial, nb.history, |old(nb.history)|, a.id, w.value.id)
    ensures w.Some? ==> SeenAlone(nb.initial, nb.history, |old(nb.history)|, p, w.value.id)
    ensures r.Done? ==> r.value in nb.Contents() && Validates(nb.Contents()[r.value], a, op, p)
    ensures r.Done? && w.Some? ==> w.value.id == r.value && nb.Contents()[r.value].Imported()
    ensures r.Done? && w.None? ==> Converged(nb.Contents()[r.value], a, op, p)
    ensures r.Fails? && w.Some? ==> MayHaveWritten(r.error)
    ensures old(nb.script) == [] ==> nb.script == []
    ensures w.Some? ==> w.value.id != 0
    ensures old(nb.script) == [] && NoneHolds(old(nb.Contents()), p) ==> r == Fails(Absent) && w.None? && nb.Contents() == old(nb.Contents())
    ensures old(nb.script) == [] ==> forall id :: id != 0 && Alone(old(nb.Contents()), p, id) ==>
      AdoptsQuietly(old(nb.Contents()), nb.Contents(), a, op, p, id, r, w)
  {
    ghost var m0 := nb.Now();
    var existing := PrefixesAt(nb, p);
    ghost var m1 := nb.Now();
    if existing.Fails? {
      return Fails(existing.error), None;
    }
    if existing.value.Nothing? {
      return Fails(Absent), None;
    }
    if existing.value.Many? || existing.value.id == 0 {
      return Fails(Conflict), None;
    }
    var id := existing.value.id;
    r, w := AdoptPrefix(nb, a, op, p, id);
    RanTrans(m0, m1, nb.Now(), None, w);
    SeenThen(nb.initial, m1.history, nb.history, |m0.history|, p, a.id, id);
    if w.Some? {
      SeenEarlier(nb.initial, nb.history, |m1.history|, |m0.history|, a.id, id);
    }
  }

  /** Adopt: no write until every check has passed, and then one write at most. */
  method Adopt(nb: Server, cfg: Settings, a: Allocation, op: string) returns (r: Reply<nat>, ghost w: Option<Event>)
    requires nb.Valid()
    modifies nb
    ensures nb.Valid() && Ran(old(nb.Now()), nb.Now(), w)
    ensures old(nb.script) == [] ==> nb.script == []
    ensures AdoptPlace(cfg, a, op).Fails? ==> r == Fails(AdoptPlace(cfg, a, op).error) && nb.Now() == old(nb.Now())
    ensures AdoptPlace(cfg, a, op).Done? ==>
      var p := AdoptPlace(cfg, a, op).value;
      && Adopts(w, a, op, p, nb.tagged)
      && (w.Some? ==> SeenUnclaimed(nb.initial, nb.history, |old(nb.history)|, a.id, w.value.id))
      && (w.Some? ==> SeenAlone(nb.initial, nb.history, |old(nb.history)|, p, w.value.id))
      && (r.Done? ==> r.value in nb.Contents() && Validates(nb.Contents()[r.value], a, op, p))
      && (r.Done? && w.Some? ==> w.value.id == r.value && nb.Contents()[r.value].Imported())
      && (r.Done? && w.None? ==> Converged(nb.Contents()[r.value], a, op, p))
      && (r.Fails? && w.Some? ==> MayHaveWritten(r.error))
      && (w.Some? ==> w.value.id != 0)
      && (old(nb.script) == [] && NoneHolds(old(nb.Contents()), p) ==>
            r == Fails(Absent) && w.None? && nb.Contents() == old(nb.Contents()))
      && (old(nb.script) == [] ==> forall id :: id != 0 && Alone(old(nb.Contents()), p, id) ==>
            AdoptsQuietly(old(nb.Contents()), nb.Contents(), a, op, p, id, r, w))
  {
    assert Ran(nb.Now(), nb.Now(), None);
    var place := AdoptPlace(cfg, a, op);
    if place.Fails? {
      return Fails(place.error), None;
    }
    r, w := AdoptAt(nb, a, op, place.value);
  }

  // ----- giving it back -----

  ghost predicate SeenSole(initial: Contents, h: seq<Event>, from: nat, marker: string, id: nat) {
    exists t :: from <= t <= |h| && SoleClaim(Replay(initial, h[..t]), marker, id)
  }

  lemma SoleThen(initial: Contents, g: seq<Event>, h: seq<Event>, from: nat, marker: string, id: nat)
    requires from <= |g| && g <= h && SoleClaim(Replay(initial, g), marker, id)
    ensures SeenSole(initial, h, from, marker, id)
  {
    assert h[..|g|] == g;
  }

  ghost predicate Abandons(w: Option<Event>, a: Allocation, op: string, prior: Prior, tagged: bool) {
    w.Some? ==> w.value.writer == Abandoning(a, op, prior) && (tagged ==> Guarded(w.value))
  }

  lemma AbandonGuarded(e: Event, a: Allocation, op: string, prior: Prior)
    requires a.id != "" && e.before.Some? && OwnedBy(e.before.value, a.id, op)
    requires IsWrite(e, Abandoning(a, op, prior), e.id, Some(AbandonPatch(a, prior)))
    ensures Guarded(e)
  {
  }

  /** The part of AbandonAdoption after the one prefix claiming the allocation is known. */
  method AbandonPrefix(nb: Server, a: Allocation, op: string, prior: Prior, id: nat)
    returns (r: Reply<()>, ghost w: Option<Event>)
    requires nb.Valid() && a.id != ""
    modifies nb
    ensures nb.Valid() && Ran(old(nb.Now()), nb.Now(), w) && Abandons(w, a, op, prior, nb.tagged)
    ensures w.Some? ==> w.value.id == id
    ensures r.Done? ==> id in nb.Contents() && !nb.Contents()[id].Owned()
    ensures r.Done? && w.Some? ==> nb.Contents()[id].Imported()
    ensures r.Fails? && w.Some? ==> MayHaveWritten(r.error)
    ensures old(nb.script) == [] && id in old(nb.Contents()) && OwnedBy(old(nb.Contents())[id], a.id, op) ==>
      && nb.script == []
      && nb.Contents() == old(nb.Contents())[id := Patched(old(nb.Contents())[id], AbandonPatch(a, prior))]
      && (if old(nb.Contents())[id].Imported() then r.Done? else r == Fails(ReadBack))
  {
    ghost var m0 := nb.Now();
    var read := nb.Detail(id);
    ghost var m1 := nb.Now();
    if !read.Ok? {
      return Fails(Unserved(read)), None;
    }
    var current := read.value;
    if current.content.Marker() != a.id {
      return if !current.content.Owned() then Done(()) else Fails(Conflict), None;
    }
    if current.content.Operation() != op {
      return Fails(NotOurs), None;
    }
    AbandonedIsFree(current.content, a, prior);
    r, w := WriteAndReadBack(
      nb, Abandoning(a, op, prior), id, current, AbandonPatch(a, prior), (s: Stored) => !s.Owned() && s.Imported(), m1);
    RanTrans(m0, m1, nb.Now(), None, w);
    if w.Some? && nb.tagged {
      AbandonGuarded(w.value, a, op, prior);
    }
  }

  /** What abandoning does when nothing interferes: nothing without a claim, else it clears the one claimant it owns. */
  ghost predicate AbandonsQuietly(
    c: Contents, d: Contents, a: Allocation, op: string, prior: Prior, r: Reply<()>, w: Option<Event>)
  {
    && (NoClaim(c, a.id) ==> r.Done? && w.None? && d == c)
    && forall k :: k != 0 && SoleClaim(c, a.id, k) && OwnedBy(c[k], a.id, op) ==>
      && d == c[k := Patched(c[k], AbandonPatch(a, prior))]
      && (if c[k].Imported() then r.Done? else r == Fails(ReadBack))
  }

  /**
    AbandonAdoption: clears the one prefix this operation owns, and nothing
    else. id is the one prefix found to claim the allocation, if any was.
   */
  method AbandonAdoption(nb: Server, a: Allocation, op: string, prior: Prior)
    returns (r: Reply<()>, ghost w: Option<Event>, ghost id: Option<nat>)
    requires nb.Valid()
    modifies nb
    ensures nb.Valid() && Ran(old(nb.Now()), nb.Now(), w) && Abandons(w, a, op, prior, nb.tagged)
    ensures a.id == "" || op == "" ==> r == Fails(Invalid) && nb.Now() == old(nb.Now())
    ensures id.Some? ==> SeenSole(nb.initial, nb.history, |old(nb.history)|, a.id, id.value)
    ensures w.Some? ==> id == Some(w.value.id)
    ensures r.Done? && id.Some? ==> id.value in nb.Contents() && !nb.Contents()[id.value].Owned()
    ensures r.Done? && id.None? ==> w.None? && NoClaim(nb.Contents(), a.id)
    ensures r.Done? && w.Some? ==> nb.Contents()[w.value.id].Imported()
    ensures r.Fails? && w.Some? ==> MayHaveWritten(r.error)
    ensures old(nb.script) == [] ==> nb.script == []
    ensures old(nb.script) == [] && a.id != "" && op != "" ==>
      AbandonsQuietly(old(nb.Contents()), nb.Contents(), a, op, prior, r, w)
  {
    ghost var m0 := nb.Now();
    if a.id == "" || op == "" {
      assert Ran(m0, m0, None);
      return Fails(Invalid), None, None;
    }
    var claim := FindClaim(nb, a.id, (s: Stored) => if s.Operation() != op then Some(NotOurs) else None);
    ghost var m1 := nb.Now();
    if claim.Fails? {
      return Fails(claim.error), None, None;
    }
    if claim.value.None? {
      return Done(()), None, None;
    }
    var k := claim.value.value;
    r, w := AbandonPrefix(nb, a, op, prior, k);
    RanTrans(m0, m1, nb.Now(), None, w);
    SoleThen(nb.initial, m1.history, nb.history, |m0.history|, a.id, k);
    id := Some(k);
  }
}
