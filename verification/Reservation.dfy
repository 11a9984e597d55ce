/**
  Reserving a CIDR and cancelling a reservation that can never complete
  (Ensure in internal/netbox/client.go, internal/netbox/cancel.go).
 */
module Reservation {
  import opened Cidr
  import opened Optional
  import opened NetBox
  import opened Inventory
  import opened Config
  import opened Ownership
  import opened Requests
  import opened Adoption

  ghost predicate Reserves(w: Option<Event>, a: Allocation, op: string, p: Place) {
    w.Some? ==> w.value.writer == Reserving(a, op, p.net, p.vrf) && Guarded(w.value)
  }

  lemma ReservedValidates(a: Allocation, op: string, p: Place)
    ensures Validates(Reserved(a, op, p.net, p.vrf), a, op, p)
  {
  }

  /** What a search by marker decides: the prefix, none, or a refusal. */
  function Recognise(f: Found, a: Allocation, op: string, p: Place): Reply<Option<nat>> {
    match f
    case Nothing => Done(None)
    case One(id, s) => if Validates(s, a, op, p) then Done(Some(id)) else Fails(Conflict)
    case Many(_, _) => Fails(Ambiguous)
  }

  /** recoverAfterCreateError: a create that did not answer may still have happened. */
  method RecoverAfterCreateError(nb: Server, a: Allocation, op: string, p: Place, original: Error) returns (r: Reply<nat>)
    requires nb.Valid()
    modifies nb
    ensures nb.Valid() && Ran(old(nb.Now()), nb.Now(), None)
    ensures r.Done? ==> r.value in nb.Contents() && Validates(nb.Contents()[r.value], a, op, p)
    ensures old(nb.script) == [] ==> nb.script == [] && nb.Now() == old(nb.Now())
    ensures old(nb.script) == [] && NoClaim(nb.Contents(), a.id) ==> r == Fails(original)
    ensures old(nb.script) == [] ==> forall k: nat :: SoleClaim(nb.Contents(), a.id, k) ==>
      r == if Validates(nb.Contents()[k], a, op, p) then Done(k) else Fails(Conflict)
  {
    var found := FindByMarker(nb, a.id);
    if found.Fails? {
      return Fails(original);
    }
    match Recognise(found.value, a, op, p)
    case Done(Some(id)) => r := Done(id);
    case Done(None) => r := Fails(original);
    case Fails(e) => r := Fails(e);
  }

  /** The create, and the recovery when it was not answered. */
  method Post(nb: Server, a: Allocation, op: string, p: Place) returns (r: Reply<nat>, ghost w: Option<Event>)
    requires nb.Valid()
    modifies nb
    ensures nb.Valid() && Ran(old(nb.Now()), nb.Now(), w) && Reserves(w, a, op, p)
    ensures r.Done? ==> r.value in nb.Contents() && Validates(nb.Contents()[r.value], a, op, p)
    ensures old(nb.script) == [] && NoneHolds(old(nb.Contents()), p) ==>
      r.Done? && w.Some? && r.value == w.value.id && r.value !in old(nb.Contents()) && r.value != 0 && nb.script == [] && nb.Contents() == Apply(old(nb.Contents()), w.value)
  {
    ghost var m1 := nb.Now();
    var s := Reserved(a, op, p.net, p.vrf);
    ReservedValidates(a, op, p);
    if NoneHolds(nb.Contents(), p) {
      NoneHoldsVacant(nb.Contents(), p, s);
    }
    var sent;
    sent, w := nb.Create(Reserving(a, op, p.net, p.vrf), s);
    ghost var m2 := nb.Now();
    if sent.Ok? {
      return Done(sent.value), w;
    }
    r := RecoverAfterCreateError(nb, a, op, p, Unserved(sent));
    RanTrans(m1, m2, nb.Now(), w, None);
  }

  /** The part of Ensure after the marker search found nothing. */
  method CreateAt(nb: Server, a: Allocation, op: string, p: Place) returns (r: Reply<nat>, ghost w: Option<Event>)
    requires nb.Valid()
    modifies nb
    ensures nb.Valid() && Ran(old(nb.Now()), nb.Now(), w) && Reserves(w, a, op, p)
    ensures r.Done? ==> r.value in nb.Contents() && Validates(nb.Contents()[r.value], a, op, p)
    ensures old(nb.script) == [] && NoneHolds(old(nb.Contents()), p) ==>
      r.Done? && w.Some? && r.value == w.value.id && r.value !in old(nb.Contents()) && r.value != 0 && nb.script == [] && nb.Contents() == Apply(old(nb.Contents()), w.value)
    ensures old(nb.script) == [] && !NoneHolds(old(nb.Contents()), p) ==>
      r == Fails(Occupied) && w.None? && nb.Contents() == old(nb.Contents())
  {
    ghost var m0 := nb.Now();
    var same := PrefixesAt(nb, p);
    ghost var m1 := nb.Now();
    if same.Fails? {
      return Fails(same.error), None;
    }
    if !same.value.Nothing? {
      return Fails(Occupied), None;
    }
    r, w := Post(nb, a, op, p);
    RanTrans(m0, m1, nb.Now(), None, w);
  }

  /**
    What Ensure comes to when nothing interferes: the one prefix an earlier
    attempt created is recognised, a prefix that claims the allocation and is
    not it is refused, an occupied place is refused, and only otherwise is a
    prefix created.
   */
  ghost predicate EnsuresQuietly(
    c: Contents, d: Contents, a: Allocation, op: string, p: Place, r: Reply<nat>, w: Option<Event>)
  {
    && (NoClaim(c, a.id) && NoneHolds(c, p) ==> r.Done? && w.Some? && r.value == w.value.id && r.value !in c && r.value != 0 && d == Apply(c, w.value))
    && (NoClaim(c, a.id) && !NoneHolds(c, p) ==> r == Fails(Occupied) && w.None? && d == c)
    && (forall k: nat :: SoleClaim(c, a.id, k) ==>
          w.None? && d == c && r == if Validates(c[k], a, op, p) then Done(k) else Fails(Conflict))
    && (forall j, k :: Claims(c, a.id, j) && Claims(c, a.id, k) && j != k ==> r == Fails(Ambiguous) && w.None? && d == c)
  }

  /** Ensure: creates exactly the allocation's CIDR, or recognises the prefix an earlier attempt created. */
  method Ensure(nb: Server, cfg: Settings, a: Allocation, op: string) returns (r: Reply<nat>, ghost w: Option<Event>)
    requires nb.Valid()
    modifies nb
    ensures nb.Valid() && Ran(old(nb.Now()), nb.Now(), w)
    ensures ReservePlace(cfg, a, op).Fails? ==> r == Fails(ReservePlace(cfg, a, op).error) && nb.Now() == old(nb.Now())
    ensures ReservePlace(cfg, a, op).Done? ==>
      var p := ReservePlace(cfg, a, op).value;
      && Reserves(w, a, op, p)
      && (r.Done? ==> r.value in nb.Contents() && Validates(nb.Contents()[r.value], a, op, p))
      && (old(nb.script) == [] ==> EnsuresQuietly(old(nb.Contents()), nb.Contents(), a, op, p, r, w))
      && (old(nb.script) == [] && NoClaim(old(nb.Contents()), a.id) && NoneHolds(old(nb.Contents()), p) ==> nb.script == [])
  {
    ghost var m0 := nb.Now();
    var place := ReservePlace(cfg, a, op);
    if place.Fails? {
      assert Ran(m0, m0, None);
      return Fails(place.error), None;
    }
    var found := FindByMarker(nb, a.id);
    ghost var m1 := nb.Now();
    if found.Fails? {
      return Fails(found.error), None;
    }
    match Recognise(found.value, a, op, place.value)
    case Done(Some(id)) => return Done(id), None;
    case Fails(e) => return Fails(e), None;
    case Done(None) =>
    r, w := CreateAt(nb, a, op, place.value);
    RanTrans(m0, m1, nb.Now(), None, w);
  }

  // ----- any number of attempts -----

  /** The event neither takes the allocation's mark off a prefix nor puts it on any but the reserved one. */
  ghost predicate Respects(e: Event, a: Allocation, op: string, p: Place) {
    && (e.after.Some? && e.after.value.Marker() == a.id ==> Validates(e.after.value, a, op, p))
    && (e.before.Some? && e.before.value.Marker() == a.id ==> e.after.Some? && e.after.value.Marker() == a.id)
  }

  /** Every prefix that claims the allocation is the reserved one. */
  ghost predicate AllValidate(c: Contents, a: Allocation, op: string, p: Place) {
    forall id :: Claims(c, a.id, id) ==> Validates(c[id], a, op, p)
  }

  /** A reservation respects itself, however many run at once. */
  lemma ReservingRespects(e: Event, a: Allocation, op: string, p: Place)
    requires Guarded(e) && e.writer == Reserving(a, op, p.net, p.vrf)
    ensures Respects(e, a, op, p)
  {
    ReservedValidates(a, op, p);
  }

  predicate Carries(now: Option<Stored>, marker: string) {
    now.Some? && now.value.Marker() == marker
  }

  lemma ClaimStays(initial: Contents, h: seq<Event>, k: nat, a: Allocation, op: string, p: Place, id: nat)
    requires k < |h| && Consistent(initial, h) && Respects(h[k], a, op, p) && Carries(Find(Replay(initial, h[..k]), id), a.id)
    ensures Carries(Find(Replay(initial, h[..k + 1]), id), a.id)
  {
    ReplayStep(initial, h, k);
  }

  lemma ClaimsPersist(
    initial: Contents, h: seq<Event>, i: nat, j: nat, a: Allocation, op: string, p: Place, id: nat)
    requires i <= j <= |h| && Consistent(initial, h)
    requires forall k :: 0 <= k < j ==> Respects(h[k], a, op, p)
    requires Claims(Replay(initial, h[..i]), a.id, id)
    ensures Claims(Replay(initial, h[..j]), a.id, id)
  {
    var inv := (now: Option<Stored>) => Carries(now, a.id);
    forall k | i <= k < j && inv(Find(Replay(initial, h[..k]), id)) ensures inv(Find(Replay(initial, h[..k + 1]), id)) {
      ClaimStays(initial, h, k, a, op, p, id);
    }
    Persists(initial, h, id, i, j, inv);
  }

  lemma {:induction false} ClaimsValidate(
    initial: Contents, h: seq<Event>, j: nat, a: Allocation, op: string, p: Place)
    requires j <= |h| && Consistent(initial, h) && AllValidate(initial, a, op, p)
    requires forall k :: 0 <= k < j ==> Respects(h[k], a, op, p)
    ensures AllValidate(Replay(initial, h[..j]), a, op, p)
    decreases j
  {
    if 0 < j {
      ClaimsValidate(initial, h, j - 1, a, op, p);
      ReplayStep(initial, h, j - 1);
      var c, e := Replay(initial, h[..j - 1]), h[j - 1];
      assert Respects(e, a, op, p);
      forall id | Claims(Apply(c, e), a.id, id) ensures Validates(Apply(c, e)[id], a, op, p) {
        assert id != e.id ==> Claims(c, a.id, id);
      }
    }
  }

  /**
    One prefix, whatever happened: attempts to reserve an allocation, repeated
    or at once, answered or not, that succeed at any two moments of a history
    name the same prefix, and no other ever claims the allocation.
   */
  lemma ReservationsAgree(
    initial: Contents, h: seq<Event>, i: nat, j: nat, a: Allocation, op: string, p: Place, x: nat, y: nat)
    requires i <= j <= |h| && Consistent(initial, h) && AllValidate(initial, a, op, p)
    requires forall k :: 0 <= k < j ==> Respects(h[k], a, op, p)
    requires Unique(Replay(initial, h[..j]))
    requires Claims(Replay(initial, h[..i]), a.id, x) && Claims(Replay(initial, h[..j]), a.id, y)
    ensures x == y
  {
    ClaimsPersist(initial, h, i, j, a, op, p, x);
    ClaimsValidate(initial, h, j, a, op, p);
    var c := Replay(initial, h[..j]);
    assert Validates(c[x], a, op, p) && Validates(c[y], a, op, p);
  }

  function TwoCreates(w: Writer, s: Stored): seq<Event> {
    [Event(w, 1, None, Some(s), false), Event(w, 2, None, Some(s), true)]
  }

  lemma TwoCreatesReplay(w: Writer, s: Stored)
    ensures Consistent(map[], TwoCreates(w, s))
    ensures Replay(map[], TwoCreates(w, s)) == map[1 := s, 2 := s]
  {
    var none: Contents, h := map[], TwoCreates(w, s);
    assert h[..1] == [h[0]] && h[..0] == [] && [] + [h[0]] == [h[0]] && [h[0]] + [h[1]] == h;
    assert Replay(none, []) == none;
    ConsistentAppend(none, [], h[0]);
    ConsistentAppend(none, [h[0]], h[1]);
  }

  /** Without the server's uniqueness rule two attempts at once may leave two prefixes. */
  lemma UniquenessNeeded(a: Allocation, op: string, p: Place)
    ensures var h := TwoCreates(Reserving(a, op, p.net, p.vrf), Reserved(a, op, p.net, p.vrf));
      && Consistent(map[], h) && (forall k :: 0 <= k < |h| ==> Guarded(h[k]) && Respects(h[k], a, op, p))
      && Claims(Replay(map[], h), a.id, 1) && Claims(Replay(map[], h), a.id, 2)
  {
    ReservedValidates(a, op, p);
    TwoCreatesReplay(Reserving(a, op, p.net, p.vrf), Reserved(a, op, p.net, p.vrf));
  }

  // ----- cancelling -----

  ghost predicate Cancels(w: Option<Event>, a: Allocation, op: string, tagged: bool) {
    w.Some? ==> w.value.writer == Cancelling(a, op) && (tagged ==> Guarded(w.value))
  }

  /** deletingOurOwnReservation. */
  function CancelRefusal(s: Stored, op: string): Option<Error> {
    if s.Operation() != op then Some(NotOurs) else if s.Imported() then Some(ImportTagged) else None
  }

  lemma CancelGuarded(e: Event, a: Allocation, op: string, s: Stored)
    requires a.id != "" && s.Marker() == a.id && CancelRefusal(s, op).None?
    requires e.before == Some(s) && IsWrite(e, Cancelling(a, op), e.id, None)
    ensures Guarded(e)
  {
  }

  /** The part of CancelReservation after the one prefix claiming the allocation is known. */
  method CancelPrefix(nb: Server, a: Allocation, op: string, id: nat) returns (r: Reply<()>, ghost w: Option<Event>)
    requires nb.Valid() && a.id != ""
    modifies nb
    ensures nb.Valid() && Ran(old(nb.Now()), nb.Now(), w) && Cancels(w, a, op, nb.tagged)
    ensures w.Some? ==> w.value.id == id
    ensures r.Done? ==> id in nb.Contents() ==> w.None? && !nb.Contents()[id].Owned()
    ensures r.Fails? && w.Some? ==> MayHaveWritten(r.error)
    ensures old(nb.script) == [] ==> nb.script == []
    ensures old(nb.script) == [] && Claims(old(nb.Contents()), a.id, id) ==>
      if CancelRefusal(old(nb.Contents())[id], op).None? then r.Done? && nb.Contents() == old(nb.Contents()) - {id}
      else r.Fails? && nb.Contents() == old(nb.Contents())
  {
    ghost var m0 := nb.Now();
    var read := nb.Detail(id);
    ghost var m1 := nb.Now();
    if !read.Ok? {
      return Fails(Unserved(read)), None;
    }
    var current := read.value;
    if current.content.Marker() != a.id {
      return if !current.content.Owned() then Done(()) else Fails(Conflict), None;
    }
    var refusal := CancelRefusal(current.content, op);
    if refusal.Some? {
      return Fails(refusal.value), None;
    }
    r, w := DeleteAndConfirm(nb, Cancelling(a, op), id, current, m1);
    RanTrans(m0, m1, nb.Now(), None, w);
    if w.Some? && nb.tagged {
      CancelGuarded(w.value, a, op, current.content);
    }
  }

  /**
    CancelReservation: deletes the one prefix this operation reserved, never an
    import. id is the one prefix found to claim the allocation, if any was.
   */
  method CancelReservation(nb: Server, a: Allocation, op: string)
    returns (r: Reply<()>, ghost w: Option<Event>, ghost id: Option<nat>)
    requires nb.Valid()
    modifies nb
    ensures nb.Valid() && Ran(old(nb.Now()), nb.Now(), w) && Cancels(w, a, op, nb.tagged)
    ensures a.id == "" || op == "" ==> r == Fails(Invalid) && nb.Now() == old(nb.Now())
    ensures id.Some? ==> SeenSole(nb.initial, nb.history, |old(nb.history)|, a.id, id.value)
    ensures w.Some? ==> id == Some(w.value.id)
    ensures r.Done? && id.Some? ==> id.value in nb.Contents() ==> w.None? && !nb.Contents()[id.value].Owned()
    ensures r.Done? && id.None? ==> w.None? && NoClaim(nb.Contents(), a.id)
    ensures r.Fails? && w.Some? ==> MayHaveWritten(r.error)
    ensures old(nb.script) == [] && a.id != "" && op != "" && NoClaim(old(nb.Contents()), a.id) ==>
      r.Done? && w.None? && nb.Contents() == old(nb.Contents())
    ensures old(nb.script) == [] && a.id != "" && op != "" ==> forall k :: k != 0 && SoleClaim(old(nb.Contents()), a.id, k) ==>
      if CancelRefusal(old(nb.Contents())[k], op).None? then r.Done? && nb.Contents() == old(nb.Contents()) - {k}
      else r.Fails? && nb.Contents() == old(nb.Contents())
  {
    ghost var m0 := nb.Now();
    if a.id == "" || op == "" {
      assert Ran(m0, m0, None);
      return Fails(Invalid), None, None;
    }
    var claim := FindClaim(nb, a.id, s => CancelRefusal(s, op));
    ghost var m1 := nb.Now();
    if claim.Fails? {
      return Fails(claim.error), None, None;
    }
    if claim.value.None? {
      return Done(()), None, None;
    }
    var k := claim.value.value;
    r, w := CancelPrefix(nb, a, op, k);
    RanTrans(m0, m1, nb.Now(), None, w);
    SoleThen(nb.initial, m1.history, nb.history, |m0.history|, a.id, k);
    id := Some(k);
  }
}
