/**
  The remote inventory as the adapter sees it: NetBox prefixes behind an HTTP
  API in which every request is one step. Between any two requests of one
  process anything may happen to any prefix, including the writes of further
  processes of this system, and any request may go unanswered, before or after
  it took effect.

  A detail read returns an entity tag that changes with every write, and a
  write made conditional on one (If-Match, section 13.1.1 of RFC 9110) is
  refused with 412 (section 15.5.13) when the prefix has changed since.
 */
module Inventory {
  import opened Cidr
  import opened Optional
  import opened NetBox
  import opened Ownership

  /** The writes of this process among the given events, in order. */
  function Own(h: seq<Event>): seq<Event> {
    if h == [] then [] else Own(h[..|h| - 1]) + (if h[|h| - 1].peer then [] else [h[|h| - 1]])
  }

  lemma {:induction false} OwnConcat(g: seq<Event>, h: seq<Event>)
    ensures Own(g + h) == Own(g) + Own(h)
  {
    if h == [] {
      assert g + h == g;
    } else {
      OwnConcat(g, h[..|h| - 1]);
      assert (g + h)[..|g + h| - 1] == g + h[..|h| - 1];
    }
  }

  // ----- the server -----

  /** A write by another process: of this system, where it is what such a process would write, or of anyone. */
  datatype Edit = Edit(writer: Writer, id: nat, after: Option<Stored>)

  /** What becomes of a request: served, refused out of hand, lost on the way in, or lost on the way out. */
  datatype Fate = Answered | Rejected | Dropped | Unanswered

  /** What happens before the next request, and what becomes of it. */
  datatype Turn = Turn(edits: seq<Edit>, fate: Fate)

  /** NoAnswer stands for a transport failure, a timeout, a 5xx or a 429; Refused for any other 4xx. */
  datatype Response<+T> = Ok(value: T) | NotFound | PreconditionFailed | Refused | NoAnswer

  function ContentsOf(objects: map<nat, Object>): Contents {
    map id | id in objects :: objects[id].content
  }

  function Select(c: Contents, p: Stored -> bool): Contents {
    map id | id in c && p(c[id]) :: c[id]
  }

  /** No two prefixes hold one CIDR in one VRF. */
  ghost predicate Unique(c: Contents) {
    forall i, j :: i in c && j in c && c[i].net == c[j].net && c[i].vrf == c[j].vrf ==> i == j
  }

  predicate Taken(c: Contents, id: nat, s: Stored) {
    exists j :: j in c && j != id && c[j].net == s.net && c[j].vrf == s.vrf
  }

  predicate Vacant(c: Contents, s: Stored) {
    forall j :: j in c ==> !(c[j].net == s.net && c[j].vrf == s.vrf)
  }

  lemma PatchKeepsUnique(c: Contents, id: nat, after: Option<Stored>)
    requires id in c && (after.Some? ==> after.value.net == c[id].net && after.value.vrf == c[id].vrf)
    ensures Unique(c) && after.Some? ==> !Taken(c, id, after.value)
  {
  }

  /** Versions are older than the clock, and identifiers below the next one. */
  ghost predicate Stamped(objects: map<nat, Object>, clock: nat, nextId: nat) {
    forall id :: id in objects ==> objects[id].version < clock && id < nextId
  }

  datatype Moment = Moment(initial: Contents, objects: map<nat, Object>, clock: nat, history: seq<Event>)

  /** Between two moments a prefix is untouched, gone, or carries a version of its own. */
  ghost predicate Evolves(m: Moment, n: Moment) {
    && m.clock <= n.clock
    && forall id :: id in n.objects ==> (id in m.objects && n.objects[id] == m.objects[id]) || n.objects[id].version >= m.clock
  }

  /** Every write of another process since the given point is lawful. */
  ghost predicate PeersLawful(initial: Contents, h: seq<Event>, from: nat) {
    forall k :: from <= k < |h| && h[k].peer ==> Lawful(initial, h[..k], h[k])
  }

  /** From m to n this process made exactly the writes w, whatever others did meanwhile. */
  ghost predicate Ran(m: Moment, n: Moment, w: Option<Event>) {
    && Evolves(m, n)
    && m.initial == n.initial && PeersLawful(n.initial, n.history, |m.history|)
    && m.history <= n.history
    && Own(n.history[|m.history|..]) == (if w.Some? then [w.value] else [])
  }

  lemma RanTrans(l: Moment, m: Moment, n: Moment, v: Option<Event>, w: Option<Event>)
    requires Ran(l, m, v) && Ran(m, n, w) && (v.None? || w.None?)
    ensures Ran(l, n, if v.Some? then v else w)
  {
    EvolvesTrans(l, m, n);
    OwnSplit(l.history, m.history, n.history);
    PeersTrans(l.initial, |l.history|, m.history, n.history);
  }

  lemma PeersTrans(initial: Contents, from: nat, g: seq<Event>, h: seq<Event>)
    requires g <= h && PeersLawful(initial, g, from) && PeersLawful(initial, h, |g|)
    ensures PeersLawful(initial, h, from)
  {
    forall k | from <= k < |h| && h[k].peer ensures Lawful(initial, h[..k], h[k]) {
      if k < |g| {
        assert h[..k] == g[..k] && h[k] == g[k];
      }
    }
  }

  lemma OwnSplit(f: seq<Event>, g: seq<Event>, h: seq<Event>)
    requires f <= g <= h
    ensures f <= h && Own(h[|f|..]) == Own(g[|f|..]) + Own(h[|g|..])
  {
    assert h[|f|..] == g[|f|..] + h[|g|..];
    OwnConcat(g[|f|..], h[|g|..]);
  }

  lemma EvolvesTrans(l: Moment, m: Moment, n: Moment)
    requires Evolves(l, m) && Evolves(m, n)
    ensures Evolves(l, n)
  {
  }

  class Server {
    /** Whether detail reads carry an entity tag. */
    const tagged: bool
    /** Whether the server refuses a second prefix at one CIDR in one VRF. */
    const unique: bool
    ghost const initial: Contents
    var objects: map<nat, Object>
    var nextId: nat
    var clock: nat
    /** The environment's moves to come; once it runs out, every request is served undisturbed. */
    var script: seq<Turn>
    ghost var history: seq<Event>

    ghost predicate Valid()
      reads this
    {
      && Stamped(objects, clock, nextId)
      && ContentsOf(objects) == Replay(initial, history)
      && Consistent(initial, history)
      && (unique ==> Unique(ContentsOf(objects)))
      && 0 < nextId
    }

    ghost function Now(): Moment
      reads this
    {
      Moment(initial, objects, clock, history)
    }

    ghost function Contents(): Contents
      reads this
    {
      ContentsOf(objects)
    }

    function Tag(o: Object): Option<nat> {
      if tagged then Some(o.version) else None
    }

    constructor (objects: map<nat, Object>, nextId: nat, clock: nat, script: seq<Turn>, tagged: bool, unique: bool)
      requires Stamped(objects, clock, nextId)
      requires unique ==> Unique(ContentsOf(objects))
      requires 0 < nextId
      ensures Valid() && history == [] && this.objects == objects && this.script == script
      ensures this.tagged == tagged && this.unique == unique && initial == ContentsOf(objects)
    {
      this.objects, this.nextId, this.clock, this.script := objects, nextId, clock, script;
      this.tagged, this.unique := tagged, unique;
      initial, history := ContentsOf(objects), [];
    }

    /** One write taking effect. */
    method Commit(ghost w: Writer, id: nat, after: Option<Stored>, ghost peer: bool) returns (ghost e: Event)
      requires Valid()
      requires PeersLawful(initial, history + [Event(w, id, Find(Contents(), id), after, peer)], |history|)
      requires after.Some? && unique ==> !Taken(Contents(), id, after.value)
      modifies `objects, `nextId, `clock, `history
      ensures Valid()
      ensures e == Event(w, id, Find(old(Contents()), id), after, peer)
      ensures Contents() == Apply(old(Contents()), e)
      ensures Ran(old(Now()), Now(), if peer then None else Some(e))
    {
      e := Event(w, id, Find(Contents(), id), after, peer);
      ghost var was := objects;
      var next := if after.Some? then objects[id := Object(after.value, clock)] else objects - {id};
      ContentsApply(was, clock, nextId, next, e);
      ConsistentAppend(initial, history, e);
      OwnStep(history, e);
      objects, clock, history := next, clock + 1, history + [e];
      nextId := if after.Some? && nextId <= id then id + 1 else nextId;
    }

    /** Whatever others do before the next request is served. */
    method Interleave() returns (fate: Fate)
      requires Valid()
      modifies this
      ensures Valid() && Ran(old(Now()), Now(), None)
      ensures old(script) == [] ==> script == [] && Now() == old(Now()) && fate == Answered
    {
      assert Ran(Now(), Now(), None);
      if script == [] {
        return Answered;
      }
      var turn := script[0];
      script := script[1..];
      for i := 0 to |turn.edits|
        invariant Valid() && Ran(old(Now()), Now(), None)
      {
        ghost var m := Now();
        Perform(turn.edits[i]);
        RanTrans(old(Now()), m, Now(), None, None);
      }
      fate := turn.fate;
    }

    /**
      A write by another process, subject to the same uniqueness rule as ours.
      It counts as the operation it claims to be exactly when it is lawful for
      that operation, and otherwise as anyone's.
     */
    method Perform(edit: Edit)
      requires Valid()
      modifies `objects, `nextId, `clock, `history
      ensures Valid() && Ran(old(Now()), Now(), None)
    {
      assert Ran(Now(), Now(), None);
      var c := ContentsOf(objects);
      if edit.after.Some? && unique && Taken(c, edit.id, edit.after.value) {
        return;
      }
      ghost var claimed := Event(edit.writer, edit.id, Find(c, edit.id), edit.after, true);
      ghost var attributed := if Lawful(initial, history, claimed) then edit.writer else Foreign;
      PeersStep(initial, history, Event(attributed, edit.id, Find(c, edit.id), edit.after, true));
      ghost var _ := Commit(attributed, edit.id, edit.after, true);
    }

    // ----- requests -----

    /** GET of one prefix. */
    method Detail(id: nat) returns (r: Response<Object>)
      requires Valid()
      modifies this
      ensures Valid() && Ran(old(Now()), Now(), None)
      ensures r.Ok? ==> id in objects && r.value == objects[id]
      ensures r.NotFound? ==> id !in objects
      ensures !r.PreconditionFailed?
      ensures old(script) == [] ==> script == [] && Now() == old(Now()) && (if id in objects then r.Ok? else r.NotFound?)
    {
      var fate := Interleave();
      match fate
      case Answered => r := if id in objects then Ok(objects[id]) else NotFound;
      case Rejected => r := Refused;
      case _ => r := NoAnswer;
    }

    /** GET of a list, narrowed by the caller to the prefixes it asked about. */
    method List(p: Stored -> bool) returns (r: Response<Contents>)
      requires Valid()
      modifies this
      ensures Valid() && Ran(old(Now()), Now(), None)
      ensures r.Ok? ==> r.value == Select(Contents(), p)
      ensures !r.PreconditionFailed?
      ensures old(script) == [] ==> script == [] && Now() == old(Now()) && r.Ok?
    {
      var fate := Interleave();
      match fate
      case Answered => r := Ok(Select(ContentsOf(objects), p));
      case Rejected => r := Refused;
      case _ => r := NoAnswer;
    }

    /** PATCH or DELETE of one prefix, conditional on the entity tag when one is given. */
    method Write(ghost w: Writer, id: nat, tag: Option<nat>, p: Option<Patch>, ghost seen: Moment)
      returns (r: Response<()>, ghost e: Option<Event>)
      requires Valid()
      requires Evolves(seen, Now())
      requires tag.Some? ==> id in seen.objects && seen.objects[id].version == tag.value < seen.clock
      modifies this
      ensures Valid() && Ran(old(Now()), Now(), e)
      ensures e.Some? ==> IsWrite(e.value, w, id, p)
      ensures e.Some? && tag.Some? ==> e.value.before == Some(seen.objects[id].content)
      ensures r.Ok? ==> e.Some?
      ensures e.Some? ==> r.Ok? || r.NoAnswer?
      ensures old(script) == [] ==> script == []
      ensures old(script) == [] && id in old(objects) && (tag.Some? ==> tag.value == old(objects)[id].version) ==>
        r.Ok? && e.value.before == Some(old(objects)[id].content) && Contents() == Apply(old(Contents()), e.value)
    {
      ghost var was := Now();
      var fate := Interleave();
      ghost var m := Now();
      EvolvesTrans(seen, was, m);
      r, e := ServeWrite(fate, w, id, tag, p);
      RanTrans(was, m, Now(), None, e);
    }

    method ServeWrite(fate: Fate, ghost w: Writer, id: nat, tag: Option<nat>, p: Option<Patch>)
      returns (r: Response<()>, ghost e: Option<Event>)
      requires Valid()
      modifies `objects, `nextId, `clock, `history
      ensures Valid() && Ran(old(Now()), Now(), e)
      ensures e.Some? ==> IsWrite(e.value, w, id, p) && e.value.before == Find(old(Contents()), id)
      ensures e.Some? ==> Contents() == Apply(old(Contents()), e.value)
      ensures e.Some? ==> id in old(objects) && (tag.Some? ==> tag.value == old(objects)[id].version)
      ensures r.Ok? ==> e.Some?
      ensures e.Some? ==> r.Ok? || r.NoAnswer?
      ensures fate.Answered? && id in old(objects) && (tag.Some? ==> tag.value == old(objects)[id].version) ==> r.Ok?
    {
      e := None;
      assert Ran(Now(), Now(), None);
      if fate.Dropped? {
        return NoAnswer, None;
      }
      if fate.Rejected? {
        return Refused, None;
      }
      if id !in objects {
        return if fate.Answered? then NotFound else NoAnswer, None;
      }
      if tag.Some? && objects[id].version != tag.value {
        return if fate.Answered? then PreconditionFailed else NoAnswer, None;
      }
      ghost var event := Replace(w, id, p);
      return if fate.Answered? then Ok(()) else NoAnswer, Some(event);
    }

    method Replace(ghost w: Writer, id: nat, p: Option<Patch>) returns (ghost e: Event)
      requires Valid() && id in objects
      modifies `objects, `nextId, `clock, `history
      ensures Valid() && Ran(old(Now()), Now(), Some(e))
      ensures IsWrite(e, w, id, p) && e.before == Find(old(Contents()), id) && Contents() == Apply(old(Contents()), e)
    {
      var after := if p.Some? then Some(Patched(objects[id].content, p.value)) else None;
      PatchKeepsUnique(Contents(), id, after);
      PeersStep(initial, history, Event(w, id, Find(Contents(), id), after, false));
      e := Commit(w, id, after, false);
    }

    /** POST of a prefix. */
    method Create(ghost w: Writer, s: Stored) returns (r: Response<nat>, ghost e: Option<Event>)
      requires Valid()
      modifies this
      ensures Valid() && Ran(old(Now()), Now(), e)
      ensures e.Some? ==> e.value.writer == w && e.value.before == None && e.value.after == Some(s) && e.value.id != 0
      ensures r.Ok? ==> e.Some? && e.value.id == r.value && r.value in Contents() && Contents()[r.value] == s
      ensures e.Some? ==> r.Ok? || r.NoAnswer?
      ensures !r.NotFound? && !r.PreconditionFailed?
      ensures old(script) == [] ==> script == []
      ensures old(script) == [] && (unique ==> Vacant(old(Contents()), s)) ==>
        r.Ok? && r.value !in old(Contents()) && Contents() == Apply(old(Contents()), e.value)
    {
      ghost var was := Now();
      var fate := Interleave();
      ghost var m := Now();
      r, e := ServeCreate(fate, w, s);
      RanTrans(was, m, Now(), None, e);
    }

    method ServeCreate(fate: Fate, ghost w: Writer, s: Stored) returns (r: Response<nat>, ghost e: Option<Event>)
      requires Valid()
      modifies `objects, `nextId, `clock, `history
      ensures Valid() && Ran(old(Now()), Now(), e)
      ensures e.Some? ==> e.value == Event(w, old(nextId), None, Some(s), false) && Contents() == Apply(old(Contents()), e.value)
      ensures r.Ok? ==> e.Some? && e.value.id == r.value
      ensures e.Some? ==> r.Ok? || r.NoAnswer?
      ensures !r.NotFound? && !r.PreconditionFailed?
      ensures fate.Answered? && (unique ==> Vacant(old(Contents()), s)) ==> r.Ok?
    {
      assert Ran(Now(), Now(), None);
      if fate.Dropped? {
        return NoAnswer, None;
      }
      if fate.Rejected? {
        return Refused, None;
      }
      var c := ContentsOf(objects);
      if unique && Taken(c, nextId, s) {
        return if fate.Answered? then Refused else NoAnswer, None;
      }
      var id := nextId;
      PeersStep(initial, history, Event(w, id, Find(Contents(), id), Some(s), false));
      ghost var event := Commit(w, id, Some(s), false);
      return if fate.Answered? then Ok(id) else NoAnswer, Some(event);
    }
  }

  lemma ContentsApply(was: map<nat, Object>, clock: nat, nextId: nat, now: map<nat, Object>, e: Event)
    requires Stamped(was, clock, nextId)
    requires now == if e.after.Some? then was[e.id := Object(e.after.value, clock)] else was - {e.id}
    ensures ContentsOf(now) == Apply(ContentsOf(was), e)
    ensures Stamped(now, clock + 1, if e.after.Some? && nextId <= e.id then e.id + 1 else nextId)
    ensures forall id :: id in now ==> (id in was && now[id] == was[id]) || now[id].version >= clock
    ensures Unique(ContentsOf(was)) && (e.after.Some? ==> !Taken(ContentsOf(was), e.id, e.after.value)) ==> Unique(ContentsOf(now))
  {
  }

  lemma OwnStep(h: seq<Event>, e: Event)
    ensures Own((h + [e])[|h|..]) == if e.peer then [] else [e]
  {
    assert (h + [e])[|h|..] == [e];
    assert [e][..0] == [];
    assert Own([e]) == Own([]) + (if e.peer then [] else [e]);
  }

  lemma PeersStep(initial: Contents, h: seq<Event>, e: Event)
    requires e.peer ==> Lawful(initial, h, e)
    ensures PeersLawful(initial, h + [e], |h|)
  {
    assert (h + [e])[..|h|] == h;
  }

  // ----- composing runs -----

  lemma {:induction false} OwnMembers(h: seq<Event>, e: Event)
    ensures e in Own(h) <==> e in h && !e.peer
    decreases |h|
  {
    if h != [] {
      var init, last := h[..|h| - 1], h[|h| - 1];
      assert h == init + [last];
      OwnMembers(init, e);
    }
  }

  /** Where in the history the one write of an operation is. */
  lemma OwnIndex(m: Moment, n: Moment, w: Event) returns (k: nat)
    requires Ran(m, n, Some(w))
    ensures |m.history| <= k < |n.history| && n.history[k] == w
  {
    var added := n.history[|m.history|..];
    OwnMembers(added, w);
    var j :| 0 <= j < |added| && added[j] == w;
    k := |m.history| + j;
  }

  /**
    A lawful operation keeps the whole history lawful, whatever the other
    processes of this system, and anyone else, wrote meanwhile.
   */
  lemma RunKeepsLawful(m: Moment, n: Moment, w: Option<Event>)
    requires AllLawful(m.initial, m.history) && Ran(m, n, w)
    requires w.Some? ==> Lawful(m.initial, m.history, w.value)
    ensures AllLawful(n.initial, n.history)
  {
    var added := n.history[|m.history|..];
    forall k | 0 <= k < |n.history| ensures Lawful(n.initial, n.history[..k], n.history[k]) {
      var e := n.history[k];
      if k < |m.history| {
        assert n.history[..k] == m.history[..k] && e == m.history[k];
      } else if !e.peer {
        assert added[k - |m.history|] == e;
        OwnMembers(added, e);
        LawfulLater(m.initial, m.history, n.history[..k], e);
      }
    }
  }

  /** The same, for an operation that read at m what it wrote on later. */
  lemma ReadThenWriteKeepsLawful(l: Moment, m: Moment, n: Moment, w: Option<Event>)
    requires Ran(l, m, None) && Ran(m, n, w) && (w.Some? ==> Lawful(m.initial, m.history, w.value))
    ensures AllLawful(l.initial, l.history) ==> AllLawful(n.initial, n.history)
    ensures Ran(l, n, w)
  {
    if AllLawful(l.initial, l.history) {
      RunKeepsLawful(l, m, None);
      RunKeepsLawful(m, n, w);
    }
    RanTrans(l, m, n, None, w);
  }

  lemma LawfulLater(initial: Contents, g: seq<Event>, h: seq<Event>, e: Event)
    requires g <= h && Lawful(initial, g, e)
    ensures Lawful(initial, h, e)
  {
    if e.writer.Syncing? || e.writer.Deleting? {
      assert h[..e.writer.readAt] == g[..e.writer.readAt];
    }
  }
}
