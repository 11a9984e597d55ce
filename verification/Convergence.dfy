/**
  Several runs of one operation, and several operations at once, against one
  inventory: a re-run recognises its own earlier write, attempts agree, and
  adoptions exclude each other (internal/netbox/adopt.go, and Ensure in
  internal/netbox/client.go).
 */
module Convergence {
  import opened Cidr
  import opened Optional
  import opened NetBox
  import opened Ownership
  import opened Inventory
  import opened Config
  import opened Requests
  import opened Adoption
  import opened Reservation

  // ----- re-runs -----

  /** The prefix is as the write left it. */
  predicate Standing(c: Contents, w: Event) {
    w.after.Some? && Find(c, w.id) == w.after
  }

  lemma UniqueAlone(c: Contents, p: Place, id: nat)
    requires Unique(c) && HoldsAt(c, p, id)
    ensures Alone(c, p, id)
  {
    forall j | HoldsAt(c, p, j) ensures j == id {
      assert c[j].net == c[id].net && c[j].vrf == c[id].vrf;
    }
  }

  /** Nothing else is at the place: by itself, or because the server forbids it and the write found the prefix there. */
  ghost predicate AloneThere(nb: Server, c: Contents, p: Place, id: nat) {
    Alone(c, p, id) || (nb.unique && (nb.tagged || HoldsAt(c, p, id)))
  }

  lemma LandedAlone(nb: Server, c: Contents, w: Event, a: Allocation, op: string, p: Place)
    requires Adopts(Some(w), a, op, p, nb.tagged) && Standing(c, w) && AloneThere(nb, c, p, w.id) && (nb.unique ==> Unique(c))
    ensures Alone(c, p, w.id) && Converged(c[w.id], a, op, p)
  {
    if !Alone(c, p, w.id) {
      UniqueAlone(c, p, w.id);
    }
  }

  /**
    An adoption whose write landed, whatever was answered and whatever others
    did meanwhile, and the same adoption run again undisturbed: as long as the
    prefix stands as it was written, alone at its place, the second run names
    it and writes nothing. middle is the inventory between the two.
   */
  method AdoptAgain(nb: Server, cfg: Settings, a: Allocation, op: string)
    returns (first: Reply<nat>, ghost w: Option<Event>, ghost middle: Contents, second: Reply<nat>, ghost again: Option<Event>)
    requires nb.Valid()
    modifies nb
    ensures nb.Valid()
    ensures w.Some? ==> AdoptPlace(cfg, a, op).Done?
    ensures w.Some? && Standing(middle, w.value) && AloneThere(nb, middle, AdoptPlace(cfg, a, op).value, w.value.id) ==>
      second == Done(w.value.id) && again.None? && nb.Contents() == middle
  {
    first, w := Adopt(nb, cfg, a, op);
    middle := nb.Contents();
    nb.script := [];
    if w.Some? {
      ghost var p := AdoptPlace(cfg, a, op).value;
      if Standing(middle, w.value) && AloneThere(nb, middle, p, w.value.id) {
        LandedAlone(nb, middle, w.value, a, op, p);
      }
    }
    second, again := Adopt(nb, cfg, a, op);
  }

  lemma LandedClaims(c: Contents, w: Event, a: Allocation, op: string, p: Place)
    requires Reserves(Some(w), a, op, p) && Standing(c, w) && Unclaimed(c, a.id, w.id)
    ensures SoleClaim(c, a.id, w.id) && Validates(c[w.id], a, op, p)
  {
    ReservedValidates(a, op, p);
  }

  lemma QuietlyRecognised(
    c: Contents, d: Contents, a: Allocation, op: string, p: Place, r: Reply<nat>, w: Option<Event>, id: nat)
    requires EnsuresQuietly(c, d, a, op, p, r, w) && SoleClaim(c, a.id, id) && Validates(c[id], a, op, p)
    ensures r == Done(id) && w.None? && d == c
  {
  }

  /**
    A reservation whose create landed, answered or not, and the same
    reservation run again undisturbed: as long as the prefix stands and no
    other claims the allocation, the second run names it and creates nothing.
   */
  method EnsureAgain(nb: Server, cfg: Settings, a: Allocation, op: string)
    returns (first: Reply<nat>, ghost w: Option<Event>, ghost middle: Contents, second: Reply<nat>, ghost again: Option<Event>)
    requires nb.Valid()
    modifies nb
    ensures nb.Valid()
    ensures w.Some? && Standing(middle, w.value) && Unclaimed(middle, a.id, w.value.id) ==>
      second == Done(w.value.id) && again.None? && nb.Contents() == middle
  {
    first, w := Ensure(nb, cfg, a, op);
    middle := nb.Contents();
    nb.script := [];
    second, again := Ensure(nb, cfg, a, op);
    if w.Some? && Standing(middle, w.value) && Unclaimed(middle, a.id, w.value.id) {
      ghost var p := ReservePlace(cfg, a, op).value;
      LandedClaims(middle, w.value, a, op, p);
      QuietlyRecognised(middle, nb.Contents(), a, op, p, second, again, w.value.id);
    }
  }

  // ----- several at once -----

  /**
    Nothing before the given point, and nobody else since, took the
    allocation's mark off a prefix, or put it on any but the reserved one.
   */
  ghost predicate OthersRespect(initial: Contents, h: seq<Event>, from: nat, a: Allocation, op: string, p: Place) {
    AllValidate(initial, a, op, p) && forall k :: 0 <= k < |h| && (k < from || h[k].peer) ==> Respects(h[k], a, op, p)
  }

  /** What a run of Ensure itself wrote respects the reservation. */
  lemma OwnRespect(m: Moment, n: Moment, w: Option<Event>, a: Allocation, op: string, p: Place)
    requires Ran(m, n, w) && Reserves(w, a, op, p)
    ensures forall k :: |m.history| <= k < |n.history| && !n.history[k].peer ==> Respects(n.history[k], a, op, p)
  {
    var added := n.history[|m.history|..];
    forall k | |m.history| <= k < |n.history| && !n.history[k].peer ensures Respects(n.history[k], a, op, p) {
      assert added[k - |m.history|] == n.history[k];
      OwnMembers(added, n.history[k]);
      ReservingRespects(n.history[k], a, op, p);
    }
  }

  /** Two runs of Ensure among others that respect the reservation: all of the history does. */
  lemma BothRespect(l: Moment, m: Moment, n: Moment, v: Option<Event>, w: Option<Event>, a: Allocation, op: string, p: Place)
    requires Ran(l, m, v) && Ran(m, n, w) && Reserves(v, a, op, p) && Reserves(w, a, op, p)
    requires OthersRespect(n.initial, n.history, |l.history|, a, op, p)
    ensures forall k :: 0 <= k < |n.history| ==> Respects(n.history[k], a, op, p)
  {
    OwnRespect(l, m, v, a, op, p);
    OwnRespect(m, n, w, a, op, p);
    forall k | 0 <= k < |n.history| ensures Respects(n.history[k], a, op, p) {
      assert k < |m.history| ==> n.history[k] == m.history[k];
    }
  }

  lemma BothName(
    l: Moment, m: Moment, n: Moment, v: Option<Event>, w: Option<Event>, a: Allocation, op: string, p: Place, x: nat, y: nat)
    requires Ran(l, m, v) && Ran(m, n, w) && Reserves(v, a, op, p) && Reserves(w, a, op, p)
    requires OthersRespect(n.initial, n.history, |l.history|, a, op, p)
    requires Consistent(n.initial, n.history) && Unique(Replay(n.initial, n.history))
    requires Claims(Replay(n.initial, m.history), a.id, x) && Claims(Replay(n.initial, n.history), a.id, y)
    ensures x == y
  {
    BothRespect(l, m, n, v, w, a, op, p);
    assert n.history[..|m.history|] == m.history && n.history[..|n.history|] == n.history;
    ReservationsAgree(n.initial, n.history, |m.history|, |n.history|, a, op, p, x, y);
  }

  /**
    Two reservations of one allocation under any interference by others that
    respects it, on a server that keeps prefixes unique, name one prefix.
   */
  method EnsureTwice(nb: Server, cfg: Settings, a: Allocation, op: string) returns (first: Reply<nat>, second: Reply<nat>)
    requires nb.Valid() && nb.unique
    modifies nb
    ensures nb.Valid() && (first.Done? || second.Done? ==> ReservePlace(cfg, a, op).Done?)
    ensures first.Done? && second.Done? && OthersRespect(nb.initial, nb.history, |old(nb.history)|, a, op, ReservePlace(cfg, a, op).value) ==>
      first.value == second.value
  {
    ghost var w, v;
    ghost var l := nb.Now();
    first, w := Ensure(nb, cfg, a, op);
    ghost var m := nb.Now();
    second, v := Ensure(nb, cfg, a, op);
    if first.Done? && second.Done? {
      ghost var p := ReservePlace(cfg, a, op).value;
      if OthersRespect(nb.initial, nb.history, |l.history|, a, op, p) {
        BothName(l, m, nb.Now(), w, v, a, op, p, first.value, second.value);
      }
    }
  }

  /** In this history the second write came after the first, and something ended the first's ownership in between. */
  ghost predicate EndedBetween(h: seq<Event>, v: Event, w: Event) {
    exists k, l :: 0 <= k < l < |h| && h[k] == v && h[l] == w && EndedIn(h, k, l)
  }

  ghost predicate EndedIn(h: seq<Event>, k: nat, l: nat)
    requires k < l < |h|
  {
    h[k].writer.Adopting? && (Untouched(h, h[k].id, k + 1, l) ==>
      exists m :: k < m < l && Ends(h[m], h[k].id, h[k].writer.a.id, h[k].writer.op, k + 1))
  }

  lemma FirstEnded(l: Moment, m: Moment, n: Moment, v: Event, w: Event)
    requires Ran(l, m, Some(v)) && Ran(m, n, Some(w)) && Consistent(n.initial, n.history) && AllLawful(n.initial, n.history)
    requires v.writer.Adopting? && w.writer.Adopting? && v.id == w.id
    ensures EndedBetween(n.history, v, w)
  {
    var i := OwnIndex(l, m, v);
    var j := OwnIndex(m, n, w);
    assert n.history[i] == m.history[i];
    if Untouched(n.history, v.id, i + 1, j) {
      AdoptionsExclude(n.initial, n.history, i, j);
    }
    assert EndedIn(n.history, i, j);
  }

  /**
    Two adoptions on one server, with any number of further processes of this
    system at work before, between and after their requests: the history stays
    lawful, and if both land on one prefix that nobody else edited, the first
    had ended before the second landed.
   */
  method AdoptBoth(nb: Server, cfg: Settings, a: Allocation, op: string, b: Allocation, op': string)
    returns (first: Reply<nat>, second: Reply<nat>, ghost v: Option<Event>, ghost w: Option<Event>)
    requires nb.Valid() && nb.tagged && AllLawful(nb.initial, nb.history)
    modifies nb
    ensures nb.Valid() && AllLawful(nb.initial, nb.history)
    ensures v.Some? && w.Some? && v.value.id == w.value.id ==> EndedBetween(nb.history, v.value, w.value)
  {
    ghost var m0 := nb.Now();
    first, v := Adopt(nb, cfg, a, op);
    ghost var m1 := nb.Now();
    RunKeepsLawful(m0, m1, v);
    second, w := Adopt(nb, cfg, b, op');
    ghost var m2 := nb.Now();
    RunKeepsLawful(m1, m2, w);
    if v.Some? && w.Some? && v.value.id == w.value.id {
      FirstEnded(m0, m1, m2, v.value, w.value);
    }
  }
}
