/**
  Projecting the ledger's view of an allocation onto its prefix (Sync in
  internal/netbox/client.go): what is written, when nothing is, and what a run
  of such projections does to the observation stamp.
 */
module Sync {
  import opened Cidr
  import opened Optional
  import opened NetBox
  import opened Ownership
  import opened Inventory
  import opened Config
  import opened Requests

  /** time.Parse with RFC 3339, as an instant; no time is spelled by the empty text. */
  type Instants = p: string -> Option<int> | p("") == None
    witness (s: string) => None

  /** sameProjectionValue. */
  predicate SameProjection(parse: Instants, f: Field, desired: Value, current: Value) {
    match desired
    case Null => current == Null || current == Text("")
    case Text(want) =>
      if want == "" && current == Null then true
      else
        var now := if (f == State || f == DriftStatus) && current.Choice? then Text(current.value) else current;
        now.Text? &&
        if f == QuarantineUntil then parse(want).Some? && parse(now.text).Some? && parse(want) == parse(now.text)
        else want == now.text
    case _ => false
  }

  /** shouldRefreshObservationStamp. */
  predicate RefreshStamp(parse: Instants, desired: Value, current: Value, now: int, interval: int) {
    match desired
    case Null => current != Null && current != Text("")
    case Text(want) =>
      || parse(want).None? || !current.Text? || current.text == "" || parse(current.text).None?
      || (parse(want).value > parse(current.text).value && now - parse(current.text).value >= interval)
    case _ => true
  }

  predicate Refreshes(parse: Instants, a: Allocation, x: Stored, now: int, interval: int) {
    RefreshStamp(parse, Desired(a, x.Operation(), LastObservedAt), Value0(x.fields, LastObservedAt), now, interval)
  }

  /** The fields of the payload that the platform owns; a stamp that is not due stays as it is. */
  function Projection(parse: Instants, a: Allocation, x: Stored, now: int, interval: int): Fields {
    map f: Field | Projected(a, f) ::
      if f == LastObservedAt && !Refreshes(parse, a, x, now, interval) then Value0(x.fields, f)
      else Desired(a, x.Operation(), f)
  }

  // ----- what silence means -----

  /** A value a reader can take at its text: none, a text, or the choice of a selection field. */
  predicate Plain(f: Field, v: Value) {
    v.Null? || v.Text? || (v.Choice? && f == State)
  }

  /** The field reads as the ledger's text, or, for the end of a quarantine, as the ledger's time. */
  predicate ReadsAsLedger(parse: Instants, a: Allocation, x: Stored, f: Field) {
    if !OwnedKey(a, f) then StringCF(x.fields, f) == ""
    else if f == QuarantineUntil && !(a.quarantineUntil == Some("") && Value0(x.fields, f) == Null) then
      parse(StringCF(x.fields, f)).Some? && parse(StringCF(x.fields, f)) == parse(OwnedText(a, x.Operation(), f))
    else StringCF(x.fields, f) == OwnedText(a, x.Operation(), f)
  }

  /** No stamp is due: the ledger has none and neither does the prefix, or the held one is recent or not older. */
  predicate StampSettled(parse: Instants, a: Allocation, x: Stored, now: int, interval: int) {
    var held := Value0(x.fields, LastObservedAt);
    match a.lastObservedAt
    case None => held == Null || held == Text("")
    case Some(want) =>
      && held.Text? && parse(held.text).Some? && parse(want).Some?
      && (parse(want).value <= parse(held.text).value || now - parse(held.text).value < interval)
  }

  /** A reader of the prefix sees the ledger's view of the allocation. */
  ghost predicate Settled(parse: Instants, a: Allocation, x: Stored, now: int, interval: int) {
    && x.status == SyncStatus(a) && StampSettled(parse, a, x, now, interval)
    && forall f :: Projected(a, f) && f != LastObservedAt ==> Plain(f, Value0(x.fields, f)) && ReadsAsLedger(parse, a, x, f)
  }

  lemma AgreesIff(parse: Instants, a: Allocation, x: Stored, f: Field)
    requires Projected(a, f) && f != LastObservedAt
    ensures SameProjection(parse, f, Desired(a, x.Operation(), f), Value0(x.fields, f)) <==>
      Plain(f, Value0(x.fields, f)) && ReadsAsLedger(parse, a, x, f)
  {
    var v := Value0(x.fields, f);
    assert v.Text? ==> StringCF(x.fields, f) == v.text;
    assert v.Null? ==> StringCF(x.fields, f) == "";
  }

  lemma StampIff(parse: Instants, a: Allocation, x: Stored, now: int, interval: int)
    ensures StampSettled(parse, a, x, now, interval) <==> !Refreshes(parse, a, x, now, interval)
  {
    assert a.lastObservedAt.Some? ==> OwnedText(a, x.Operation(), LastObservedAt) == a.lastObservedAt.value;
  }

  // ----- what is sent -----

  /** The loop over the projected fields: whether any but the stamp differs. */
  method ProjectionChanged(parse: Instants, a: Allocation, x: Stored, fields: Fields) returns (changed: bool)
    requires forall f :: f in fields <==> Projected(a, f)
    requires forall f :: f in fields && f != LastObservedAt ==> fields[f] == Desired(a, x.Operation(), f)
    ensures !changed <==>
      forall f :: Projected(a, f) && f != LastObservedAt ==> Plain(f, Value0(x.fields, f)) && ReadsAsLedger(parse, a, x, f)
  {
    changed := false;
    var pending := fields.Keys;
    while pending != {}
      invariant pending <= fields.Keys
      invariant forall f :: f in fields && f !in pending && f != LastObservedAt ==>
        Plain(f, Value0(x.fields, f)) && ReadsAsLedger(parse, a, x, f)
      decreases |pending|
    {
      var f :| f in pending;
      if f != LastObservedAt {
        AgreesIff(parse, a, x, f);
        if !SameProjection(parse, f, fields[f], Value0(x.fields, f)) {
          return true;
        }
      }
      pending := pending - {f};
    }
  }

  /** What Sync sends for a prefix it read; nothing exactly when its reader already sees the ledger's view. */
  method DecideSync(parse: Instants, a: Allocation, x: Stored, now: int, interval: int) returns (plan: Option<Patch>)
    ensures plan.None? <==> interval > 0 && Settled(parse, a, x, now, interval)
    ensures plan.Some? ==> plan.value == Payload(parse, a, x, now, interval) && IsProjection(a, x, plan.value)
  {
    var fields := Projection(parse, a, x, now, interval);
    var changed := ProjectionChanged(parse, a, x, fields);
    StampIff(parse, a, x, now, interval);
    if !changed && !Refreshes(parse, a, x, now, interval) && x.status == SyncStatus(a) && interval > 0 {
      return None;
    }
    PayloadProjects(parse, a, x, now, interval);
    plan := Some(Payload(parse, a, x, now, interval));
  }

  function Payload(parse: Instants, a: Allocation, x: Stored, now: int, interval: int): Patch {
    Patch(Some(SyncStatus(a)), x.fields + Projection(parse, a, x, now, interval), x.others)
  }

  lemma PayloadProjects(parse: Instants, a: Allocation, x: Stored, now: int, interval: int)
    ensures IsProjection(a, x, Payload(parse, a, x, now, interval))
  {
  }

  /** The prefix after an undisturbed Sync. */
  ghost function Synced(parse: Instants, a: Allocation, x: Stored, now: int, interval: int): Stored {
    if interval > 0 && Settled(parse, a, x, now, interval) then x else Patched(x, Payload(parse, a, x, now, interval))
  }

  /** The prefix is the allocation's, and its reader sees the ledger's view. */
  ghost predicate SeesLedger(c: Contents, id: nat, parse: Instants, a: Allocation, vrf: nat, now: int, interval: int) {
    id in c && Identified(c[id], a, vrf) && Settled(parse, a, c[id], now, interval)
  }

  /** The write a Sync may make, and when it read: a prefix that was the allocation's, and what is sent projects it. */
  ghost predicate Syncs(w: Option<Event>, a: Allocation, vrf: nat, h: seq<Event>) {
    w.Some? ==>
      && w.value.writer.Syncing? && w.value.writer.a == a && w.value.writer.vrf == vrf && w.value.writer.readAt <= |h|
      && Guarded(w.value)
  }

  /** What is sent is the payload for the prefix as it was read. */
  ghost predicate SendsPayload(w: Option<Event>, parse: Instants, now: int, interval: int) {
    w.Some? && w.value.writer.Syncing? ==>
      w.value.writer.sent == Payload(parse, w.value.writer.a, w.value.writer.read, now, interval)
  }

  /**
    Sync: reads the prefix, refuses one that is not the allocation's, and
    writes the projection whatever the prefix has become since.
   */
  method SyncAllocation(
    nb: Server, cfg: Settings, parse: Instants, a: Allocation, inventory: Option<nat>, now: int, interval: int)
    returns (r: Reply<()>, ghost w: Option<Event>)
    requires nb.Valid()
    modifies nb
    ensures nb.Valid() && Ran(old(nb.Now()), nb.Now(), w)
    ensures AllLawful(nb.initial, old(nb.history)) ==> AllLawful(nb.initial, nb.history)
    ensures old(nb.script) == [] ==> nb.script == []
    ensures inventory.None? || AllocationDomain(cfg, a).None? ==> r.Fails? && nb.Now() == old(nb.Now())
    ensures inventory.Some? && AllocationDomain(cfg, a).Some? ==>
      var vrf := PoolVRF(AllocationDomain(cfg, a).value.0, AllocationDomain(cfg, a).value.1);
      && Syncs(w, a, vrf, nb.history) && SendsPayload(w, parse, now, interval)
      && (w.Some? ==> w.value.id == inventory.value)
      && (r.Done? && w.None? ==> interval > 0 && SeesLedger(nb.Contents(), inventory.value, parse, a, vrf, now, interval))
      && (old(nb.script) == [] && inventory.value in old(nb.Contents()) ==>
            var x := old(nb.Contents())[inventory.value];
            if Identified(x, a, vrf) then
              r.Done? && nb.Contents() == old(nb.Contents())[inventory.value := Synced(parse, a, x, now, interval)]
            else r == Fails(NotOurs) && w.None? && nb.Contents() == old(nb.Contents()))
  {
    ghost var m0 := nb.Now();
    assert Ran(m0, m0, None);
    if inventory.None? {
      return Fails(Invalid), None;
    }
    var place := AllocationDomain(cfg, a);
    if place.None? {
      return Fails(Misconfigured), None;
    }
    r, w := SyncPrefix(nb, parse, a, PoolVRF(place.value.0, place.value.1), inventory.value, now, interval);
  }

  /** Sync past its arguments. */
  method SyncPrefix(nb: Server, parse: Instants, a: Allocation, vrf: nat, id: nat, now: int, interval: int)
    returns (r: Reply<()>, ghost w: Option<Event>)
    requires nb.Valid()
    modifies nb
    ensures nb.Valid() && Ran(old(nb.Now()), nb.Now(), w)
    ensures AllLawful(nb.initial, old(nb.history)) ==> AllLawful(nb.initial, nb.history)
    ensures old(nb.script) == [] ==> nb.script == []
    ensures Syncs(w, a, vrf, nb.history) && SendsPayload(w, parse, now, interval) && (w.Some? ==> w.value.id == id)
    ensures r.Done? && w.None? ==> interval > 0 && SeesLedger(nb.Contents(), id, parse, a, vrf, now, interval)
    ensures old(nb.script) == [] && id in old(nb.Contents()) ==>
      var x := old(nb.Contents())[id];
      if Identified(x, a, vrf) then r.Done? && nb.Contents() == old(nb.Contents())[id := Synced(parse, a, x, now, interval)]
      else r == Fails(NotOurs) && w.None? && nb.Contents() == old(nb.Contents())
  {
    ghost var m0 := nb.Now();
    var read := nb.Detail(id);
    ghost var m1 := nb.Now();
    if !read.Ok? || !Identified(read.value.content, a, vrf) {
      ReadThenWriteKeepsLawful(m0, m0, m1, None);
      return if read.Ok? then Fails(NotOurs) else Fails(Unserved(read)), None;
    }
    r, w := SendProjection(nb, parse, a, vrf, id, read.value.content, now, interval);
    ReadThenWriteKeepsLawful(m0, m1, nb.Now(), w);
  }

  /** The projection of a prefix just read, sent unless its reader sees the ledger's view already. */
  method SendProjection(nb: Server, parse: Instants, a: Allocation, vrf: nat, id: nat, x: Stored, now: int, interval: int)
    returns (r: Reply<()>, ghost w: Option<Event>)
    requires nb.Valid() && Identified(x, a, vrf) && id in nb.Contents() && nb.Contents()[id] == x
    modifies nb
    ensures nb.Valid() && Ran(old(nb.Now()), nb.Now(), w)
    ensures w.Some? ==> Lawful(nb.initial, old(nb.history), w.value)
    ensures Syncs(w, a, vrf, nb.history) && SendsPayload(w, parse, now, interval) && (w.Some? ==> w.value.id == id)
    ensures r.Done? && w.None? ==>
      interval > 0 && Settled(parse, a, x, now, interval) && nb.Contents() == old(nb.Contents())
    ensures old(nb.script) == [] ==>
      nb.script == [] && r.Done? && nb.Contents() == old(nb.Contents())[id := Synced(parse, a, x, now, interval)]
  {
    ghost var seen := nb.Now();
    var plan := DecideSync(parse, a, x, now, interval);
    if plan.None? {
      assert Ran(seen, seen, None);
      return Done(()), None;
    }
    var sent;
    sent, w := SendSync(nb, a, vrf, id, x, plan.value, seen);
    r := if sent.Ok? then Done(()) else Fails(Unserved(sent));
  }

  /** The unconditional PATCH. */
  method SendSync(nb: Server, a: Allocation, vrf: nat, id: nat, x: Stored, sent: Patch, ghost seen: Moment)
    returns (answer: Response<()>, ghost w: Option<Event>)
    requires nb.Valid() && seen == nb.Now() && Identified(x, a, vrf) && IsProjection(a, x, sent)
    requires id in nb.Contents() && nb.Contents()[id] == x
    modifies nb
    ensures nb.Valid() && Ran(seen, nb.Now(), w)
    ensures w.Some? ==> Lawful(seen.initial, seen.history, w.value)
    ensures answer.Ok? ==> w.Some?
    ensures Syncs(w, a, vrf, nb.history) && (w.Some? ==> w.value.id == id)
    ensures w.Some? ==> w.value.writer.read == x && w.value.writer.sent == sent
    ensures old(nb.script) == [] ==> nb.script == [] && answer.Ok? && nb.Contents() == old(nb.Contents())[id := Patched(x, sent)]
  {
    answer, w := nb.Write(Syncing(a, vrf, x, |seen.history|, sent), id, None, Some(sent), seen);
    if w.Some? {
      SyncIsLawful(seen, w.value);
    }
  }

  lemma SyncIsLawful(m: Moment, w: Event)
    requires w.writer.Syncing? && w.writer.readAt == |m.history| && IsWrite(w, w.writer, w.id, Some(w.writer.sent))
    requires Identified(w.writer.read, w.writer.a, w.writer.vrf) && IsProjection(w.writer.a, w.writer.read, w.writer.sent)
    requires Find(Replay(m.initial, m.history), w.id) == Some(w.writer.read)
    ensures Lawful(m.initial, m.history, w)
  {
    assert m.history[..|m.history|] == m.history;
  }

  // ----- one Sync -----

  /** Sync never touches what the platform does not own, whether it writes or not. */
  lemma SyncPreserves(parse: Instants, a: Allocation, x: Stored, now: int, interval: int)
    ensures var y := Synced(parse, a, x, now, interval);
      && SamePlace(x, y) && y.others == x.others
      && forall f :: !Projected(a, f) ==> Value0(y.fields, f) == Value0(x.fields, f)
  {
    assert x.others + x.others == x.others;
  }

  lemma SentField(parse: Instants, a: Allocation, x: Stored, now: int, interval: int, f: Field)
    requires Projected(a, f)
    ensures Value0(Patched(x, Payload(parse, a, x, now, interval)).fields, f) ==
      if f == LastObservedAt && !Refreshes(parse, a, x, now, interval) then Value0(x.fields, f)
      else Desired(a, x.Operation(), f)
  {
  }

  /** The ledger's own times parse. */
  predicate TimesParse(parse: Instants, a: Allocation) {
    && (a.lastObservedAt.Some? ==> parse(a.lastObservedAt.value).Some?)
    && (a.quarantineUntil.Some? ==> parse(a.quarantineUntil.value).Some?)
  }

  lemma DesiredAgrees(parse: Instants, a: Allocation, op: string, f: Field)
    requires Projected(a, f) && f != LastObservedAt
    ensures SameProjection(parse, f, Desired(a, op, f), Desired(a, op, f)) <==>
      (f == QuarantineUntil && a.quarantineUntil.Some? ==> parse(a.quarantineUntil.value).Some?)
  {
  }

  lemma StampSettles(parse: Instants, a: Allocation, x: Stored, now: int, interval: int)
    ensures StampSettled(parse, a, Patched(x, Payload(parse, a, x, now, interval)), now, interval) <==>
      (a.lastObservedAt.Some? ==> parse(a.lastObservedAt.value).Some?)
  {
    SentField(parse, a, x, now, interval, LastObservedAt);
    StampIff(parse, a, x, now, interval);
    assert a.lastObservedAt.Some? ==> OwnedText(a, x.Operation(), LastObservedAt) == a.lastObservedAt.value;
  }

  lemma FieldSettles(parse: Instants, a: Allocation, x: Stored, now: int, interval: int, f: Field)
    requires Projected(a, f) && f != LastObservedAt
    ensures var y := Patched(x, Payload(parse, a, x, now, interval));
      Plain(f, Value0(y.fields, f)) && ReadsAsLedger(parse, a, y, f) <==>
      (f == QuarantineUntil && a.quarantineUntil.Some? ==> parse(a.quarantineUntil.value).Some?)
  {
    var y := Patched(x, Payload(parse, a, x, now, interval));
    SentField(parse, a, x, now, interval, f);
    SentField(parse, a, x, now, interval, OperationId);
    assert y.Operation() == x.Operation();
    AgreesIff(parse, a, y, f);
    DesiredAgrees(parse, a, x.Operation(), f);
  }

  /**
    After a Sync that wrote, a reader sees the ledger's view, and a repeat at
    the same instant is silent, exactly when the ledger's own times parse.
   */
  lemma SyncSettlesIff(parse: Instants, a: Allocation, x: Stored, now: int, interval: int)
    ensures Settled(parse, a, Patched(x, Payload(parse, a, x, now, interval)), now, interval) <==> TimesParse(parse, a)
  {
    StampSettles(parse, a, x, now, interval);
    forall f | Projected(a, f) && f != LastObservedAt
      ensures var y := Patched(x, Payload(parse, a, x, now, interval));
        Plain(f, Value0(y.fields, f)) && ReadsAsLedger(parse, a, y, f) <==>
        (f == QuarantineUntil && a.quarantineUntil.Some? ==> parse(a.quarantineUntil.value).Some?)
    {
      FieldSettles(parse, a, x, now, interval, f);
    }
    assert Projected(a, QuarantineUntil);
  }

  // ----- a run of Syncs -----

  /** One Sync of a run: the allocation as the ledger had it then, and the instant. */
  datatype Step = Step(a: Allocation, now: int)

  /** The states of a run: each Sync applied to what the one before left. */
  ghost predicate IsRun(parse: Instants, interval: int, states: seq<Stored>, steps: seq<Step>) {
    |states| == |steps| + 1 && forall k :: 0 <= k < |steps| ==> StepAt(parse, interval, states, steps, k)
  }

  ghost predicate StepAt(parse: Instants, interval: int, states: seq<Stored>, steps: seq<Step>, k: nat)
    requires k < |steps| < |states|
  {
    states[k + 1] == Synced(parse, steps[k].a, states[k], steps[k].now, interval)
  }

  /** The instant of the stored stamp, if it has one. */
  function StampOf(parse: Instants, x: Stored): Option<int> {
    var v := Value0(x.fields, LastObservedAt);
    if v.Text? then parse(v.text) else None
  }

  /** Every Sync carries an observation time that parses. */
  ghost predicate Observed(parse: Instants, steps: seq<Step>) {
    forall k :: 0 <= k < |steps| ==> steps[k].a.lastObservedAt.Some? && parse(steps[k].a.lastObservedAt.value).Some?
  }

  /** One Sync leaves a stamp that parses, or replaces it by a strictly later one once the interval has passed. */
  lemma StampStep(parse: Instants, a: Allocation, x: Stored, now: int, interval: int)
    requires StampOf(parse, x).Some? && a.lastObservedAt.Some? && parse(a.lastObservedAt.value).Some?
    ensures var y, held, want := Synced(parse, a, x, now, interval), StampOf(parse, x).value, parse(a.lastObservedAt.value).value;
      if want > held && now - held >= interval then StampOf(parse, y) == Some(want)
      else Value0(y.fields, LastObservedAt) == Value0(x.fields, LastObservedAt)
  {
    StampIff(parse, a, x, now, interval);
    SentField(parse, a, x, now, interval, LastObservedAt);
    assert OwnedText(a, x.Operation(), LastObservedAt) == a.lastObservedAt.value;
  }

  /** The stamp moved at this Sync. */
  predicate MovedAt(states: seq<Stored>, k: nat)
    requires k + 1 < |states|
  {
    Value0(states[k].fields, LastObservedAt) != Value0(states[k + 1].fields, LastObservedAt)
  }

  /** A stamp that parses has not moved back, and where the stored value is another one, it is strictly later. */
  ghost predicate Rose(parse: Instants, s: Stored, t: Stored) {
    && StampOf(parse, s).Some? && StampOf(parse, t).Some? && StampOf(parse, s).value <= StampOf(parse, t).value
    && (Value0(s.fields, LastObservedAt) != Value0(t.fields, LastObservedAt) ==>
          StampOf(parse, s).value < StampOf(parse, t).value)
  }

  lemma StepRose(parse: Instants, a: Allocation, x: Stored, now: int, interval: int)
    requires StampOf(parse, x).Some? && a.lastObservedAt.Some? && parse(a.lastObservedAt.value).Some?
    ensures Rose(parse, x, Synced(parse, a, x, now, interval))
  {
    StampStep(parse, a, x, now, interval);
  }

  lemma RoseTrans(parse: Instants, s: Stored, t: Stored, u: Stored)
    requires Rose(parse, s, t) && Rose(parse, t, u)
    ensures Rose(parse, s, u)
  {
  }

  lemma {:induction false} RoseAlong(parse: Instants, states: seq<Stored>, i: nat, j: nat)
    requires i <= j < |states| && StampOf(parse, states[i]).Some?
    requires forall k :: i <= k < j && StampOf(parse, states[k]).Some? ==> Rose(parse, states[k], states[k + 1])
    ensures Rose(parse, states[i], states[j])
    decreases j
  {
    if i < j {
      RoseAlong(parse, states, i, j - 1);
      RoseTrans(parse, states[i], states[j - 1], states[j]);
    }
  }

  /**
    In any run of Syncs a stored stamp that parses never moves back, and where
    the stored value is another one later, it is strictly later.
   */
  lemma StampsRise(parse: Instants, interval: int, states: seq<Stored>, steps: seq<Step>, i: nat, j: nat)
    requires IsRun(parse, interval, states, steps) && Observed(parse, steps) && i <= j <= |steps|
    requires StampOf(parse, states[i]).Some?
    ensures Rose(parse, states[i], states[j])
  {
    forall k | i <= k < j && StampOf(parse, states[k]).Some? ensures Rose(parse, states[k], states[k + 1]) {
      assert StepAt(parse, interval, states, steps, k);
      StepRose(parse, steps[k].a, states[k], steps[k].now, interval);
    }
    RoseAlong(parse, states, i, j);
  }

  /**
    Wherever it moves in a run, it moves to that Sync's observation, strictly
    later than the one it replaces, and exactly when that observation is later
    and the Sync's instant is the interval or more after the one it replaces.
   */
  lemma StampMoves(parse: Instants, interval: int, states: seq<Stored>, steps: seq<Step>, k: nat)
    requires IsRun(parse, interval, states, steps) && Observed(parse, steps) && k < |steps|
    requires StampOf(parse, states[0]).Some?
    ensures StampOf(parse, states[k]).Some?
    ensures MovedAt(states, k) <==>
      parse(steps[k].a.lastObservedAt.value).value > StampOf(parse, states[k]).value
      && steps[k].now - StampOf(parse, states[k]).value >= interval
    ensures MovedAt(states, k) ==> StampOf(parse, states[k + 1]) == parse(steps[k].a.lastObservedAt.value)
  {
    StampsRise(parse, interval, states, steps, 0, k);
    assert StepAt(parse, interval, states, steps, k);
    StampStep(parse, steps[k].a, states[k], steps[k].now, interval);
  }

  /** How old the observation a Sync carries is at that Sync, as its text tells it, to the second. */
  function Age(parse: Instants, a: Allocation, now: int): int
    requires a.lastObservedAt.Some? && parse(a.lastObservedAt.value).Some?
  {
    now - parse(a.lastObservedAt.value).value
  }

  /**
    Any two stamps written in a run are at least the interval apart, less the
    age of the observation that the later one records; and so are the Syncs
    that wrote them, less the age of the earlier one's.
   */
  lemma StampsSpaced(parse: Instants, interval: int, states: seq<Stored>, steps: seq<Step>, k: nat, l: nat)
    requires IsRun(parse, interval, states, steps) && Observed(parse, steps) && k < l < |steps|
    requires StampOf(parse, states[0]).Some? && MovedAt(states, k) && MovedAt(states, l)
    ensures StampOf(parse, states[k + 1]).Some? && StampOf(parse, states[l + 1]).Some?
    ensures StampOf(parse, states[l + 1]).value - StampOf(parse, states[k + 1]).value >=
      interval - Age(parse, steps[l].a, steps[l].now)
    ensures steps[l].now - steps[k].now >= interval - Age(parse, steps[k].a, steps[k].now)
  {
    StampMoves(parse, interval, states, steps, k);
    StampMoves(parse, interval, states, steps, l);
    StampsRise(parse, interval, states, steps, k + 1, l);
  }

  /** The Sync replaces the stamp that the allocation's prefix holds. */
  ghost predicate Replaces(parse: Instants, a: Allocation, vrf: nat, x: Stored, now: int, interval: int) {
    && Identified(x, a, vrf) && StampOf(parse, x).Some?
    && Value0(Synced(parse, a, x, now, interval).fields, LastObservedAt) != Value0(x.fields, LastObservedAt)
  }

  /** Every stamp that the Sync can find and replace is at least this much older than the one it writes. */
  ghost predicate Spaces(parse: Instants, a: Allocation, vrf: nat, now: int, interval: int, gap: int) {
    forall x :: Replaces(parse, a, vrf, x, now, interval) ==>
      var y := Synced(parse, a, x, now, interval);
      StampOf(parse, y).Some? && StampOf(parse, y).value - StampOf(parse, x).value >= gap
  }

  /** A prefix of the allocation that holds the given stamp. */
  function Holding(a: Allocation, vrf: nat, stamp: string): Stored
    requires a.cidr.Canonical?
  {
    Stored(a.cidr.net, vrf, RESERVED, {}, "", map[AllocationId := Text(a.id), LastObservedAt := Text(stamp)], map[])
  }

  /**
    The most that a Sync guarantees: the interval less the age of its
    observation, or a single instant when that is more.
   */
  lemma SpacesIff(
    parse: Instants, text: int -> string, a: Allocation, vrf: nat, now: int, interval: int, gap: int)
    requires a.lastObservedAt.Some? && parse(a.lastObservedAt.value).Some? && a.cidr.Canonical?
    requires forall t :: parse(text(t)) == Some(t)
    ensures Spaces(parse, a, vrf, now, interval, gap) <==> gap <= 1 || gap <= interval - Age(parse, a, now)
  {
    forall x | Replaces(parse, a, vrf, x, now, interval)
      ensures var y := Synced(parse, a, x, now, interval);
        StampOf(parse, y).Some? && (gap <= 1 || gap <= interval - Age(parse, a, now) ==>
          StampOf(parse, y).value - StampOf(parse, x).value >= gap)
    {
      StampStep(parse, a, x, now, interval);
    }
    // The youngest stamp old enough to be replaced.
    var want := parse(a.lastObservedAt.value).value;
    var held := if want - 1 <= now - interval then want - 1 else now - interval;
    var x := Holding(a, vrf, text(held));
    assert Identified(x, a, vrf) && StampOf(parse, x) == Some(held);
    StampStep(parse, a, x, now, interval);
    assert Replaces(parse, a, vrf, x, now, interval);
  }

  /**
    Stamps are replaced only by stamps at least the interval later exactly
    when the observation is no older than the Sync that carries it.
   */
  lemma IntervalKeptIff(parse: Instants, text: int -> string, a: Allocation, vrf: nat, now: int, interval: int)
    requires a.lastObservedAt.Some? && parse(a.lastObservedAt.value).Some? && a.cidr.Canonical? && interval > 1
    requires forall t :: parse(text(t)) == Some(t)
    ensures Spaces(parse, a, vrf, now, interval, interval) <==> parse(a.lastObservedAt.value).value >= now
  {
    SpacesIff(parse, text, a, vrf, now, interval, interval);
  }

  /** With an older observation it may creep: a stamp one instant later replaces one that is an interval old. */
  lemma StampMayCreep(parse: Instants, a: Allocation, x: Stored, held: string, want: string, interval: int)
    requires interval > 1 && parse(held) == Some(0) && parse(want) == Some(1)
    requires Value0(x.fields, LastObservedAt) == Text(held) && a.lastObservedAt == Some(want)
    ensures StampOf(parse, Synced(parse, a, x, interval, interval)) == Some(1)
  {
    StampStep(parse, a, x, interval, interval);
  }

  // ----- a run against the inventory -----

  /** The same allocation, at the same place, whatever the ledger has learned of it since. */
  predicate Same(cfg: Settings, a: Allocation, b: Allocation) {
    a.id == b.id && a.cidr == b.cidr && AllocationDomain(cfg, a).Some? && AllocationDomain(cfg, a) == AllocationDomain(cfg, b)
  }

  lemma SyncKeepsIdentity(parse: Instants, a: Allocation, b: Allocation, vrf: nat, x: Stored, now: int, interval: int)
    requires Identified(x, a, vrf) && a.id == b.id && a.cidr == b.cidr
    ensures Identified(x, b, vrf) && Identified(Synced(parse, b, x, now, interval), a, vrf)
  {
    PayloadProjects(parse, b, x, now, interval);
    SyncMarks(x, b, vrf, Payload(parse, b, x, now, interval), x);
  }

  lemma RunSnoc(parse: Instants, interval: int, states: seq<Stored>, steps: seq<Step>, n: nat, y: Stored)
    requires n < |steps| && IsRun(parse, interval, states, steps[..n])
    requires y == Synced(parse, steps[n].a, states[n], steps[n].now, interval)
    ensures IsRun(parse, interval, states + [y], steps[..n + 1])
  {
    var all, taken := states + [y], steps[..n + 1];
    forall k | 0 <= k < |taken| ensures StepAt(parse, interval, all, taken, k) {
      assert k < n ==> StepAt(parse, interval, states, steps[..n], k);
    }
  }

  method SyncUndisturbed(nb: Server, cfg: Settings, parse: Instants, a: Allocation, id: nat, now: int, interval: int)
    requires nb.Valid() && nb.script == [] && AllocationDomain(cfg, a).Some? && id in nb.Contents()
    requires Identified(nb.Contents()[id], a, PoolVRF(AllocationDomain(cfg, a).value.0, AllocationDomain(cfg, a).value.1))
    modifies nb
    ensures nb.Valid() && nb.script == []
    ensures nb.Contents() == old(nb.Contents())[id := Synced(parse, a, old(nb.Contents())[id], now, interval)]
  {
    var r, w := SyncAllocation(nb, cfg, parse, a, Some(id), now, interval);
  }

  /** A worker that projects an allocation again and again, undisturbed: its prefix goes through the states of a run. */
  method SyncRepeatedly(
    nb: Server, cfg: Settings, parse: Instants, a: Allocation, id: nat, interval: int, steps: seq<Step>)
    returns (ghost states: seq<Stored>)
    requires nb.Valid() && nb.script == [] && id in nb.Contents()
    requires forall k :: 0 <= k < |steps| ==> Same(cfg, a, steps[k].a)
    requires AllocationDomain(cfg, a).Some?
    requires Identified(nb.Contents()[id], a, PoolVRF(AllocationDomain(cfg, a).value.0, AllocationDomain(cfg, a).value.1))
    modifies nb
    ensures nb.Valid() && IsRun(parse, interval, states, steps) && states[0] == old(nb.Contents())[id]
    ensures nb.Contents() == old(nb.Contents())[id := states[|steps|]]
  {
    ghost var vrf := PoolVRF(AllocationDomain(cfg, a).value.0, AllocationDomain(cfg, a).value.1);
    ghost var c := nb.Contents();
    states := [c[id]];
    assert c[id := c[id]] == c;
    for n := 0 to |steps|
      invariant nb.Valid() && nb.script == []
      invariant IsRun(parse, interval, states, steps[..n]) && states[0] == c[id]
      invariant nb.Contents() == c[id := states[n]] && Identified(states[n], a, vrf)
    {
      ghost var x := states[n];
      SyncKeepsIdentity(parse, a, steps[n].a, vrf, x, steps[n].now, interval);
      SyncUndisturbed(nb, cfg, parse, steps[n].a, id, steps[n].now, interval);
      ghost var y := Synced(parse, steps[n].a, x, steps[n].now, interval);
      RunSnoc(parse, interval, states, steps, n, y);
      states := states + [y];
      assert c[id := x][id := y] == c[id := y];
    }
    assert steps[..|steps|] == steps;
  }
}
