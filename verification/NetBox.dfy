/**
  NetBox prefixes as the adapter reads and writes them, who may write them, and
  the histories of such writes (internal/netbox/client.go).
 */
module NetBox {
  import opened Cidr
  import opened Optional

  /** The custom fields the adapter knows by name. */
  datatype Field =
    | AllocationId | AllocationKey | OperationId | State | ParentAllocationId
    | TenantId | Environment | PoolId | PolicyVersion | AwsAccount | AwsRegion | AwsAz
    | AwsResource | LastObservedAt | QuarantineUntil
    | ImportBatch | ImportSource | ImportContributors | ContributorsReconstructed
    | DriftStatus

  datatype Contributor = Contributor(
    identity: string, resource: string, detail: string, observedAt: Option<string>,
    firstSeenBatch: string, lastSeenBatch: string, sourceFile: string, sourceRow: int)

  /** A custom field value as JSON decodes it. */
  datatype Value = Null | Text(text: string) | Choice(value: string) | Flag(on: bool) | Roster(list: seq<Contributor>) | Opaque

  type Fields = map<Field, Value>

  /** Stands for the printed form of a composite value, of which only that it is not empty matters. */
  const UNPRINTED := "map[...]"

  /** stringCF: a missing or null field reads as the empty string, and nothing else does unless its text is empty. */
  function StringCF(fields: Fields, key: Field): string {
    if key !in fields then ""
    else
      match fields[key]
      case Null => ""
      case Text(s) => s
      case Choice(v) => if key == State || key == DriftStatus then v else UNPRINTED
      case Flag(on) => if on then "true" else "false"
      case Roster(_) => UNPRINTED
      case Opaque => UNPRINTED
  }

  datatype Tag = ImportedTag | OtherTag(slug: string)

  /** A prefix without its version; others holds the custom fields the adapter does not know. */
  datatype Stored = Stored(
    net: Prefix, vrf: nat, status: string, tags: set<Tag>, description: string, fields: Fields, others: map<string, Value>)
  {
    predicate Imported() {
      ImportedTag in tags
    }

    /** Any of the four ownership fields is set. */
    predicate Owned() {
      || StringCF(fields, AllocationId) != "" || StringCF(fields, AllocationKey) != ""
      || StringCF(fields, OperationId) != "" || StringCF(fields, State) != ""
    }

    function Marker(): string {
      StringCF(fields, AllocationId)
    }

    function Operation(): string {
      StringCF(fields, OperationId)
    }
  }

  datatype Object = Object(content: Stored, version: nat)

  /** An allocation's CIDR as text: empty, not canonical IPv4, or a prefix. */
  datatype CidrText = NoCidr | Malformed | Canonical(net: Prefix)

  /** The part of an allocation the adapter reads. */
  datatype Allocation = Allocation(
    id: string, key: string, domain: string, pool: string, cidr: CidrText, parent: string, tenant: string,
    environment: string, policyVersion: string, state: string, account: string, region: string, az: string,
    binding: Option<string>, lastObservedAt: Option<string>, quarantineUntil: Option<string>)

  datatype Prior = Prior(status: string, account: string, region: string)

  /**
    Who made a write, and on whose behalf. Foreign is anyone but this system.
    The two writes that are never conditional carry the prefix they read and
    how long the history was when they read it.
   */
  datatype Writer =
    | Foreign
    | Reserving(a: Allocation, op: string, net: Prefix, vrf: nat)
    | Adopting(a: Allocation, op: string, net: Prefix, vrf: nat)
    | Abandoning(a: Allocation, op: string, prior: Prior)
    | Cancelling(a: Allocation, op: string)
    | Importing(row: Stored)
    | Refreshing(net: Prefix, vrf: nat, source: string, table: seq<Contributor>)
    | Removing(net: Prefix, vrf: nat)
    | Syncing(a: Allocation, vrf: nat, read: Stored, readAt: nat, sent: Patch)
    | Deleting(a: Allocation, vrf: nat, read: Stored, readAt: nat)

  datatype Patch = Patch(status: Option<string>, fields: Fields, others: map<string, Value>)

  /** PATCH: custom fields merge key by key; an absent status and an absent tag list are left alone. */
  function Patched(s: Stored, p: Patch): Stored {
    s.(status := p.status.UnwrapOr(s.status), fields := s.fields + p.fields, others := s.others + p.others)
  }

  /** One write that took effect: the prefix before and after it, and whether another process made it. */
  datatype Event = Event(writer: Writer, id: nat, before: Option<Stored>, after: Option<Stored>, peer: bool)

  type Contents = map<nat, Stored>

  function Find(c: Contents, id: nat): Option<Stored> {
    if id in c then Some(c[id]) else None
  }

  function Apply(c: Contents, e: Event): Contents {
    match e.after
    case Some(s) => c[e.id := s]
    case None => c - {e.id}
  }

  /** The inventory after a history. */
  function Replay(initial: Contents, history: seq<Event>): Contents {
    if history == [] then initial else Apply(Replay(initial, history[..|history| - 1]), history[|history| - 1])
  }

  /** Every event changed what was there when it took effect. */
  ghost predicate Consistent(initial: Contents, history: seq<Event>) {
    forall i :: 0 <= i < |history| ==> history[i].before == Find(Replay(initial, history[..i]), history[i].id)
  }

  lemma ConsistentAppend(initial: Contents, h: seq<Event>, e: Event)
    requires Consistent(initial, h) && e.before == Find(Replay(initial, h), e.id)
    ensures Consistent(initial, h + [e])
    ensures Replay(initial, h + [e]) == Apply(Replay(initial, h), e)
  {
    assert (h + [e])[..|h|] == h;
    forall i | 0 <= i < |h + [e]|
      ensures (h + [e])[i].before == Find(Replay(initial, (h + [e])[..i]), (h + [e])[i].id)
    {
      assert i <= |h|;
      assert (h + [e])[..i] == h[..i];
      assert i == |h| ==> h[..i] == h;
    }
  }

  /** The effect of a PATCH, or of a DELETE when there is no payload. */
  ghost predicate IsWrite(e: Event, w: Writer, id: nat, p: Option<Patch>) {
    && e.writer == w && e.id == id && e.before.Some?
    && e.after == (if p.Some? then Some(Patched(e.before.value, p.value)) else None)
  }
}
