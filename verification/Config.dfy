/**
  Where an allocation may live: the configured overlap domains and their pools
  (internal/netbox/client.go, adopt.go, occupancy.go), and the outcomes an
  operation on the inventory reports.
 */
module Config {
  import opened Cidr
  import opened Optional
  import opened NetBox
  import opened Inventory

  datatype Domain = Domain(vrf: nat, requireUnique: bool)

  /** net is None when the configured CIDR does not parse; a zero vrf means the domain's. */
  datatype Pool = Pool(domain: string, net: Option<Prefix>, vrf: nat)

  datatype Settings = Settings(domains: map<string, Domain>, pools: map<string, Pool>)

  datatype Error =
    | Invalid | Misconfigured | Absent | Conflict | Managed | NotImported | Ambiguous | NotOurs | ImportTagged
    | UnreadableList | NoContributors | ReconstructedList | PoolSpace | OtherId | Occupied
    | ReadBack | Uncertain | Declined

  datatype Reply<+T> = Done(value: T) | Fails(error: Error)

  datatype Place = Place(net: Prefix, vrf: nat)

  /** unanswered and the wrappers around it: no answer is uncertain, any other refusal is an answer. */
  function Unserved<T>(r: Response<T>): (e: Error)
    ensures e == Uncertain <==> r.NoAnswer?
  {
    if r.NoAnswer? then Uncertain else Declined
  }

  function PoolVRF(d: Domain, p: Pool): nat {
    if p.vrf != 0 then p.vrf else d.vrf
  }

  function AllocationDomain(cfg: Settings, a: Allocation): Option<(Domain, Pool)> {
    if a.domain in cfg.domains && a.pool in cfg.pools && cfg.pools[a.pool].domain == a.domain
    then Some((cfg.domains[a.domain], cfg.pools[a.pool]))
    else None
  }

  /** The checks Adopt makes before it asks the inventory anything. */
  function AdoptPlace(cfg: Settings, a: Allocation, op: string): Reply<Place> {
    if a.id == "" || a.cidr.NoCidr? || op == "" then Fails(Invalid)
    else
      match AllocationDomain(cfg, a)
      case None => Fails(Misconfigured)
      case Some((d, p)) =>
        if a.cidr.Malformed? then Fails(Invalid)
        else if p.net.None? then Fails(Misconfigured)
        else if a.cidr.net == p.net.value || !p.net.value.Covers(a.cidr.net) then Fails(Invalid)
        else Done(Place(a.cidr.net, PoolVRF(d, p)))
  }

  /** The checks Ensure makes: the same, but a whole pool may be reserved. */
  function ReservePlace(cfg: Settings, a: Allocation, op: string): Reply<Place> {
    if a.id == "" || a.cidr.NoCidr? || op == "" then Fails(Invalid)
    else
      match AllocationDomain(cfg, a)
      case None => Fails(Misconfigured)
      case Some((d, p)) =>
        if a.cidr.Malformed? then Fails(Invalid)
        else if p.net.None? || !p.net.value.Covers(a.cidr.net) then Fails(Invalid)
        else Done(Place(a.cidr.net, PoolVRF(d, p)))
  }

  // ----- what the two sets of checks come to -----

  /** The configured networks and the allocation's are canonical. */
  ghost predicate NetsValid(cfg: Settings, a: Allocation) {
    && (a.cidr.Canonical? ==> a.cidr.net.Valid())
    && (a.pool in cfg.pools && cfg.pools[a.pool].net.Some? ==> cfg.pools[a.pool].net.value.Valid())
  }

  /** The request names itself, and its pool belongs to its domain; the place is its network, in the VRF that the pool or else the domain names. */
  ghost predicate Locates(cfg: Settings, a: Allocation, op: string, p: Place) {
    && a.id != "" && op != "" && a.cidr == Canonical(p.net)
    && a.domain in cfg.domains && a.pool in cfg.pools && cfg.pools[a.pool].domain == a.domain
    && (cfg.pools[a.pool].vrf != 0 ==> p.vrf == cfg.pools[a.pool].vrf)
    && (cfg.pools[a.pool].vrf == 0 ==> p.vrf == cfg.domains[a.domain].vrf)
  }

  /** A reservation may go exactly where every address is an address of its pool. */
  lemma ReservePlaceIff(cfg: Settings, a: Allocation, op: string, p: Place)
    requires NetsValid(cfg, a)
    ensures ReservePlace(cfg, a, op) == Done(p) <==>
      Locates(cfg, a, op, p) && cfg.pools[a.pool].net.Some? && Inside(cfg.pools[a.pool].net.value, p.net)
  {
    if a.cidr.Canonical? && a.pool in cfg.pools && cfg.pools[a.pool].net.Some? {
      CoversIffInside(cfg.pools[a.pool].net.value, a.cidr.net);
    }
  }

  /** An adoption may go exactly there, but not to the whole pool. */
  lemma AdoptPlaceIff(cfg: Settings, a: Allocation, op: string, p: Place)
    requires NetsValid(cfg, a)
    ensures AdoptPlace(cfg, a, op) == Done(p) <==>
      Locates(cfg, a, op, p) && cfg.pools[a.pool].net.Some? && Strictly(cfg.pools[a.pool].net.value, p.net)
  {
    if a.cidr.Canonical? && a.pool in cfg.pools && cfg.pools[a.pool].net.Some? {
      StrictlyIff(cfg.pools[a.pool].net.value, a.cidr.net);
    }
  }

  predicate At(s: Stored, p: Place) {
    s.net == p.net && s.vrf == p.vrf
  }
}
