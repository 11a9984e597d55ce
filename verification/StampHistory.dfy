/**
  The observation stamp when several Syncs overlap (Sync in
  internal/netbox/client.go). Each reads, then writes whatever the prefix has
  become, so a stamp that only rises in a run of Syncs one after another can
  move back when they meet.
 */
module StampHistory {
  import opened Cidr
  import opened Optional
  import opened NetBox
  import opened Ownership
  import opened Sync

  /** The write is what Sync decides at that instant for the prefix it read, and every time in it parses. */
  ghost predicate Carries(parse: Instants, e: Event, now: int, interval: int) {
    && e.writer.Syncing? && e.writer.sent == Payload(parse, e.writer.a, e.writer.read, now, interval)
    && e.writer.a.lastObservedAt.Some? && parse(e.writer.a.lastObservedAt.value).Some? && StampOf(parse, e.writer.read).Some?
  }

  /** The stamp that a Sync sends: its observation when one is due, and otherwise the one it read. */
  function SentStamp(parse: Instants, a: Allocation, read: Stored, now: int, interval: int): int
    requires a.lastObservedAt.Some? && parse(a.lastObservedAt.value).Some? && StampOf(parse, read).Some?
  {
    var held, want := StampOf(parse, read).value, parse(a.lastObservedAt.value).value;
    if want > held && now - held >= interval then want else held
  }

  lemma PayloadStamp(parse: Instants, a: Allocation, read: Stored, now: int, interval: int)
    requires a.lastObservedAt.Some? && parse(a.lastObservedAt.value).Some? && StampOf(parse, read).Some?
    ensures var v := Projection(parse, a, read, now, interval)[LastObservedAt];
      v.Text? && parse(v.text) == Some(SentStamp(parse, a, read, now, interval))
  {
    assert OwnedText(a, read.Operation(), LastObservedAt) == a.lastObservedAt.value;
  }

  lemma LandsSentStamp(parse: Instants, e: Event, now: int, interval: int)
    requires Guarded(e) && Carries(parse, e, now, interval)
    ensures e.before.Some? && e.after.Some?
    ensures StampOf(parse, e.after.value) == Some(SentStamp(parse, e.writer.a, e.writer.read, now, interval))
  {
    var w := e.writer;
    PayloadStamp(parse, w.a, w.read, now, interval);
    assert LastObservedAt in w.sent.fields;
    assert e.after.value.fields[LastObservedAt] == w.sent.fields[LastObservedAt];
  }

  /** The stamp is earlier after the write than before it. */
  predicate MovesBack(parse: Instants, e: Event) {
    && e.before.Some? && e.after.Some? && StampOf(parse, e.before.value).Some? && StampOf(parse, e.after.value).Some?
    && StampOf(parse, e.after.value).value < StampOf(parse, e.before.value).value
  }

  /** The last write on the prefix in the stretch is h[m]. */
  ghost predicate LastOn(h: seq<Event>, id: nat, m: nat, k: nat)
    requires m < k <= |h|
  {
    h[m].id == id && forall n :: m < n < k ==> h[n].id != id
  }

  lemma {:induction false} FindLast(h: seq<Event>, id: nat, i: nat, k: nat) returns (m: Option<nat>)
    requires i <= k <= |h|
    ensures m.None? ==> forall n :: i <= n < k ==> h[n].id != id
    ensures m.Some? ==> i <= m.value < k && LastOn(h, id, m.value, k)
    decreases k
  {
    if i == k {
      return None;
    }
    if h[k - 1].id == id {
      return Some(k - 1);
    }
    m := FindLast(h, id, i, k - 1);
  }

  /** The write left a stamp later than the given instant. */
  predicate LeavesLater(parse: Instants, e: Event, stamp: int) {
    e.after.Some? && StampOf(parse, e.after.value).Some? && StampOf(parse, e.after.value).value > stamp
  }

  /** Since the Sync read, others wrote the prefix, and the last of them left a later stamp than it sends. */
  ghost predicate Overtaken(parse: Instants, h: seq<Event>, k: nat, stamp: int)
    requires k < |h| && h[k].writer.Syncing?
  {
    exists m: nat :: h[k].writer.readAt <= m < k && LastOn(h, h[k].id, m, k) && LeavesLater(parse, h[m], stamp)
  }

  /** In any lawful history, a landing Sync moves the stamp back exactly when it was overtaken. */
  lemma MovesBackIff(parse: Instants, initial: Contents, h: seq<Event>, k: nat, now: int, interval: int)
    requires k < |h| && Consistent(initial, h) && AllLawful(initial, h) && Carries(parse, h[k], now, interval)
    ensures MovesBack(parse, h[k]) <==>
      Overtaken(parse, h, k, SentStamp(parse, h[k].writer.a, h[k].writer.read, now, interval))
  {
    var id, from := h[k].id, h[k].writer.readAt;
    assert Lawful(initial, h[..k], h[k]);
    LandsSentStamp(parse, h[k], now, interval);
    ReadBefore(initial, h, k);
    ReplayStep(initial, h, k);
    var last := FindLast(h, id, from, k);
    if last.None? {
      Idle(initial, h, id, from, k);
    } else {
      BeforeIs(initial, h, last.value, k);
      assert forall m: nat :: from <= m < k && LastOn(h, id, m, k) ==> m == last.value;
    }
  }

  lemma BeforeIs(initial: Contents, h: seq<Event>, m: nat, k: nat)
    requires m < k < |h| && Consistent(initial, h) && LastOn(h, h[k].id, m, k)
    ensures h[k].before == h[m].after
  {
    ReplayStep(initial, h, m);
    Idle(initial, h, h[k].id, m + 1, k);
    ReplayStep(initial, h, k);
  }

  function SyncOf(
    parse: Instants, h: seq<Event>, id: nat, a: Allocation, vrf: nat, read: Stored, u: Stored, now: int, interval: int): Event
  {
    var sent := Payload(parse, a, read, now, interval);
    Event(Syncing(a, vrf, read, |h|, sent), id, Some(u), Some(Patched(u, sent)), true)
  }

  /** A Sync that read the prefix when the history was g may land after any longer history, and leaves the stamp it sends. */
  lemma SyncAppends(
    parse: Instants, initial: Contents, g: seq<Event>, h: seq<Event>, id: nat, x: Stored, u: Stored,
    a: Allocation, vrf: nat, now: int, interval: int)
    requires Leaves(initial, g, id, x) && Leaves(initial, h, id, u) && g <= h && Identified(x, a, vrf)
    requires a.lastObservedAt.Some? && parse(a.lastObservedAt.value).Some? && StampOf(parse, x).Some?
    ensures var e := SyncOf(parse, g, id, a, vrf, x, u, now, interval);
      && Leaves(initial, h + [e], id, e.after.value)
      && StampOf(parse, e.after.value) == Some(SentStamp(parse, a, x, now, interval))
  {
    var e := SyncOf(parse, g, id, a, vrf, x, u, now, interval);
    PayloadProjects(parse, a, x, now, interval);
    UnconditionalAppends(initial, g, h, id, x, u, e);
    LandsSentStamp(parse, e, now, interval);
  }

  /**
    Two Syncs that read the same prefix: one finds its stamp an interval old
    and writes a new one, the other began before that and has only a status to
    correct. Landing second, it puts the old stamp back.
   */
  lemma SyncsCross(
    parse: Instants, initial: Contents, h: seq<Event>, id: nat, x: Stored, a: Allocation, b: Allocation, vrf: nat,
    early: int, late: int, interval: int)
    requires Leaves(initial, h, id, x) && Identified(x, a, vrf) && b.id == a.id && b.cidr == a.cidr
    requires StampOf(parse, x).Some? && x.status != SyncStatus(b)
    requires a.lastObservedAt.Some? && parse(a.lastObservedAt.value).Some? && b.lastObservedAt == a.lastObservedAt
    requires parse(a.lastObservedAt.value).value > StampOf(parse, x).value
    requires early - StampOf(parse, x).value < interval <= late - StampOf(parse, x).value
    ensures var e := SyncOf(parse, h, id, a, vrf, x, x, late, interval);
      var f := SyncOf(parse, h, id, b, vrf, x, e.after.value, early, interval);
      && Consistent(initial, h + [e] + [f]) && AllLawful(initial, h + [e] + [f])
      && !Settled(parse, b, x, early, interval) && MovesBack(parse, f)
  {
    var e := SyncOf(parse, h, id, a, vrf, x, x, late, interval);
    SyncAppends(parse, initial, h, h, id, x, x, a, vrf, late, interval);
    SyncAppends(parse, initial, h, h + [e], id, x, e.after.value, b, vrf, early, interval);
  }
}
