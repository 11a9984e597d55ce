/**
  Planning an import against a snapshot of the inventory, and applying the
  plan (planPrefixCandidates in internal/onboard/plan.go, Snapshot in
  internal/netbox/client.go, EnsureOccupancy in internal/netbox/occupancy.go).
 */
module Onboarding {
  import opened Cidr
  import opened Optional
  import opened NetBox
  import opened Inventory
  import opened Config
  import opened Ownership
  import opened Requests
  import opened Occupancy

  // ----- the snapshot -----

  datatype Listed = Listed(id: nat, content: Stored)

  /** An occupied network as the allocator and the planner read it. */
  datatype Network = Network(net: Prefix, allocation: string, parent: string, pool: bool)

  predicate IsPool(net: Prefix, pools: seq<Prefix>) {
    net in pools
  }

  /** Contains a pool and is wider: the snapshot drops it. */
  predicate IsAncestor(net: Prefix, pools: seq<Prefix>) {
    exists q :: q in pools && q.bits > net.bits && net.Has(q.addr)
  }

  function NetworkOf(s: Stored, pools: seq<Prefix>): Network {
    Network(s.net, s.Marker(), StringCF(s.fields, ParentAllocationId), IsPool(s.net, pools))
  }

  predicate Visible(s: Stored, pools: seq<Prefix>) {
    IsPool(s.net, pools) || !IsAncestor(s.net, pools)
  }

  function Networks(listing: seq<Listed>, pools: seq<Prefix>): seq<Network> {
    if listing == [] then []
    else
      var s := listing[|listing| - 1].content;
      Networks(listing[..|listing| - 1], pools) + if Visible(s, pools) then [NetworkOf(s, pools)] else []
  }

  ghost predicate Shows(listing: seq<Listed>, pools: seq<Prefix>, n: Network) {
    exists i :: 0 <= i < |listing| && Visible(listing[i].content, pools) && NetworkOf(listing[i].content, pools) == n
  }

  lemma ShowsSnoc(init: seq<Listed>, last: Listed, pools: seq<Prefix>, n: Network)
    ensures Shows(init + [last], pools, n) <==>
      Shows(init, pools, n) || (Visible(last.content, pools) && NetworkOf(last.content, pools) == n)
  {
    var all := init + [last];
    if Shows(init, pools, n) {
      var i :| 0 <= i < |init| && Visible(init[i].content, pools) && NetworkOf(init[i].content, pools) == n;
      assert all[i] == init[i];
    }
    assert all[|init|] == last;
  }

  lemma {:induction false} InNetworks(listing: seq<Listed>, pools: seq<Prefix>, n: Network)
    ensures n in Networks(listing, pools) <==> Shows(listing, pools, n)
    decreases |listing|
  {
    if listing != [] {
      var init, last := listing[..|listing| - 1], listing[|listing| - 1];
      InNetworks(init, pools, n);
      ShowsSnoc(init, last, pools, n);
      assert listing == init + [last];
    }
  }

  ghost predicate DistinctNets(listing: seq<Listed>) {
    forall i, j :: 0 <= i < j < |listing| ==> listing[i].content.net != listing[j].content.net
  }

  ghost function NetsOf(listing: seq<Listed>): set<Prefix> {
    set l | l in listing :: l.content.net
  }

  lemma NetsSnoc(listing: seq<Listed>, i: nat)
    requires i < |listing|
    ensures listing[..i + 1][..i] == listing[..i]
    ensures NetsOf(listing[..i + 1]) == NetsOf(listing[..i]) + {listing[i].content.net}
    ensures DistinctNets(listing[..i + 1]) <==> DistinctNets(listing[..i]) && listing[i].content.net !in NetsOf(listing[..i])
    ensures DistinctNets(listing) ==> DistinctNets(listing[..i + 1])
  {
    var init, all := listing[..i], listing[..i + 1];
    assert all == init + [listing[i]];
    if DistinctNets(init) && listing[i].content.net !in NetsOf(init) {
      forall j, k | 0 <= j < k < |all| ensures all[j].content.net != all[k].content.net {
        assert j < |init| && init[j] in init;
      }
    }
  }

  function Matches(listing: seq<Listed>, q: Prefix): nat {
    if listing == [] then 0
    else Matches(listing[..|listing| - 1], q) + if listing[|listing| - 1].content.net == q then 1 else 0
  }

  /** The prefix part of Snapshot: addresses and ranges are passed in as the networks they become. */
  method Snapshot(listing: seq<Listed>, others: seq<Network>, pools: seq<Prefix>, requireUnique: bool)
    returns (r: Option<seq<Network>>)
    ensures r.Some? <==> (requireUnique ==> DistinctNets(listing)) && forall q :: q in pools ==> Matches(listing, q) == 1
    ensures r.Some? ==> r.value == Networks(listing, pools) + others
  {
    var seen: set<Prefix>, out := {}, [];
    for i := 0 to |listing|
      invariant out == Networks(listing[..i], pools)
      invariant requireUnique ==> DistinctNets(listing[..i]) && seen == NetsOf(listing[..i])
    {
      NetsSnoc(listing, i);
      var s := listing[i].content;
      if requireUnique {
        if s.net in seen {
          return None;
        }
        seen := seen + {s.net};
      }
      if Visible(s, pools) {
        out := out + [NetworkOf(s, pools)];
      }
    }
    assert listing[..|listing|] == listing;
    for k := 0 to |pools|
      invariant forall m :: 0 <= m < k ==> Matches(listing, pools[m]) == 1
    {
      var matches := CountMatches(listing, pools[k]);
      if matches != 1 {
        assert pools[k] in pools;
        return None;
      }
    }
    r := Some(out + others);
  }

  method CountMatches(listing: seq<Listed>, q: Prefix) returns (n: nat)
    ensures n == Matches(listing, q)
  {
    n := 0;
    for i := 0 to |listing|
      invariant n == Matches(listing[..i], q)
    {
      assert listing[..i + 1][..i] == listing[..i];
      if listing[i].content.net == q {
        n := n + 1;
      }
    }
    assert listing[..|listing|] == listing;
  }

  // ----- the plan -----

  /** One row's contribution; net is None unless the row is a canonical IPv4 CIDR. */
  datatype Candidate = Candidate(row: int, net: Option<Prefix>)

  datatype Rule =
    | InvalidCidr | DuplicateCidr | PoolExactMatch | PoolAncestor | OverlapsManaged
    | InsideManagedVpc | AlreadyUnmanaged | OutsidePool
  {
    predicate Error() {
      InvalidCidr? || PoolExactMatch? || PoolAncestor? || OverlapsManaged?
    }
  }

  datatype Finding = Finding(rule: Rule, net: Option<Prefix>, rows: seq<int>)

  /** childOfManagedVPC: strictly inside the prefix of a managed allocation that has no parent. */
  predicate ChildOfManagedVpc(net: Prefix, n: Network) {
    n.parent == "" && !n.pool && net.bits > n.net.bits && n.net.Has(net.addr)
  }

  predicate ClashesWith(net: Prefix, n: Network) {
    n.allocation != "" && net.Overlaps(n.net) && !ChildOfManagedVpc(net, n)
  }

  predicate Managed(net: Prefix, networks: seq<Network>) {
    exists n :: n in networks && ClashesWith(net, n)
  }

  predicate InsideVpc(net: Prefix, networks: seq<Network>) {
    exists n :: n in networks && n.allocation != "" && net.Overlaps(n.net) && ChildOfManagedVpc(net, n)
  }

  predicate Already(net: Prefix, networks: seq<Network>) {
    exists n :: n in networks && n.allocation == "" && !n.pool && n.net == net
  }

  predicate InsideAnyPool(net: Prefix, pools: seq<Prefix>) {
    exists q :: q in pools && q.Covers(net)
  }

  /** The first rule that refuses the network, if any does. */
  function Refusal(net: Prefix, pools: seq<Prefix>, networks: seq<Network>): Option<Rule> {
    if IsPool(net, pools) then Some(PoolExactMatch)
    else if IsAncestor(net, pools) then Some(PoolAncestor)
    else if Managed(net, networks) then Some(OverlapsManaged)
    else None
  }

  predicate Writes(net: Prefix, pools: seq<Prefix>, networks: seq<Network>) {
    Refusal(net, pools, networks).None? && !Already(net, networks)
  }

  // ----- what the rules say about addresses -----

  /** The network is somebody's, shares an address with the new one, and is not a parentless allocation that holds it with room to spare. */
  lemma ClashesIff(net: Prefix, n: Network)
    requires net.Valid() && n.net.Valid()
    ensures ClashesWith(net, n) <==>
      n.allocation != "" && Meets(net, n.net) && !(n.parent == "" && !n.pool && Strictly(n.net, net))
  {
    OverlapsIffShare(net, n.net);
    StrictlyIff(n.net, net);
  }

  ghost predicate NetsValid(net: Prefix, pools: seq<Prefix>, networks: seq<Network>) {
    net.Valid() && (forall q :: q in pools ==> q.Valid()) && forall n :: n in networks ==> n.net.Valid()
  }

  /** The pool rules together: no pool lies inside the network. */
  lemma PoolRulesIff(net: Prefix, pools: seq<Prefix>)
    requires net.Valid() && forall q :: q in pools ==> q.Valid()
    ensures IsPool(net, pools) || IsAncestor(net, pools) <==> exists q :: q in pools && Inside(net, q)
    ensures IsAncestor(net, pools) <==> exists q :: q in pools && Strictly(net, q)
  {
    forall q | q in pools
      ensures Inside(net, q) <==> net == q || Strictly(net, q)
      ensures Strictly(net, q) <==> q.bits > net.bits && net.Has(q.addr)
    {
      CoversIffInside(net, q);
      StrictlyIff(net, q);
    }
  }

  /**
    A network is written exactly when it holds no pool, every allocation that
    it meets is parentless and holds it with room to spare, and nobody's
    occupancy is at it already.
   */
  lemma WritesIff(net: Prefix, pools: seq<Prefix>, networks: seq<Network>)
    requires NetsValid(net, pools, networks)
    ensures Writes(net, pools, networks) <==>
      && (forall q :: q in pools ==> !Inside(net, q))
      && (forall n :: n in networks && n.allocation != "" && Meets(net, n.net) ==> n.parent == "" && !n.pool && Strictly(n.net, net))
      && (forall n :: n in networks && n.net == net ==> n.allocation != "" || n.pool)
  {
    PoolRulesIff(net, pools);
    forall n | n in networks
      ensures ClashesWith(net, n) <==>
        n.allocation != "" && Meets(net, n.net) && !(n.parent == "" && !n.pool && Strictly(n.net, net))
    {
      ClashesIff(net, n);
    }
  }

  /** And refused exactly when it holds a pool, or meets an allocation that is not such a one. */
  lemma RefusalIff(net: Prefix, pools: seq<Prefix>, networks: seq<Network>)
    requires NetsValid(net, pools, networks)
    ensures Refusal(net, pools, networks).Some? <==>
      || (exists q :: q in pools && Inside(net, q))
      || (exists n :: n in networks && n.allocation != "" && Meets(net, n.net) && !(n.parent == "" && !n.pool && Strictly(n.net, net)))
  {
    PoolRulesIff(net, pools);
    forall n | n in networks
      ensures ClashesWith(net, n) <==>
        n.allocation != "" && Meets(net, n.net) && !(n.parent == "" && !n.pool && Strictly(n.net, net))
    {
      ClashesIff(net, n);
    }
  }

  predicate HasErrors(findings: seq<Finding>) {
    exists f :: f in findings && f.rule.Error()
  }

  /** Some finding of the rule is about the network. */
  ghost predicate Found(findings: seq<Finding>, rule: Rule, net: Prefix) {
    exists f :: f in findings && f.rule == rule && f.net == Some(net)
  }

  lemma FoundConcat(f: seq<Finding>, g: seq<Finding>, rule: Rule, net: Prefix)
    ensures Found(f + g, rule, net) <==> Found(f, rule, net) || Found(g, rule, net)
  {
    if Found(f, rule, net) {
      var x :| x in f && x.rule == rule && x.net == Some(net);
      assert x in f + g;
    }
    if Found(g, rule, net) {
      var x :| x in g && x.rule == rule && x.net == Some(net);
      assert x in f + g;
    }
  }

  /** The rows of the table that are about the network. */
  function RowsOf(candidates: seq<Candidate>, net: Prefix): seq<int> {
    if candidates == [] then []
    else
      var c := candidates[|candidates| - 1];
      RowsOf(candidates[..|candidates| - 1], net) + if c.net == Some(net) then [c.row] else []
  }

  /** When a rule has something to say about a network of the table. */
  predicate Applies(rule: Rule, net: Prefix, rows: seq<int>, pools: seq<Prefix>, networks: seq<Network>) {
    match rule
    case InvalidCidr => false
    case DuplicateCidr => |rows| > 1
    case PoolExactMatch => net in pools
    case PoolAncestor => net !in pools && IsAncestor(net, pools)
    case OverlapsManaged => net !in pools && !IsAncestor(net, pools) && Managed(net, networks)
    case InsideManagedVpc => Refusal(net, pools, networks).None? && InsideVpc(net, networks)
    case AlreadyUnmanaged => Refusal(net, pools, networks).None? && Already(net, networks)
    case OutsidePool => Refusal(net, pools, networks).None? && !Already(net, networks) && !InsideAnyPool(net, pools)
  }

  /** The two remarks, told from addresses: the network lies in a parentless allocation, and in no pool. */
  lemma RemarksIff(net: Prefix, pools: seq<Prefix>, networks: seq<Network>)
    requires NetsValid(net, pools, networks)
    ensures InsideVpc(net, networks) <==>
      exists n :: n in networks && n.allocation != "" && n.parent == "" && !n.pool && Strictly(n.net, net)
    ensures InsideAnyPool(net, pools) <==> exists q :: q in pools && Inside(q, net)
  {
    forall n | n in networks
      ensures net.Overlaps(n.net) && ChildOfManagedVpc(net, n) <==> n.parent == "" && !n.pool && Strictly(n.net, net)
    {
      OverlapsIffShare(net, n.net);
      StrictlyIff(n.net, net);
      assert n.net.Has(net.addr) && net.Has(net.addr) ==> net.Overlaps(n.net);
    }
    forall q | q in pools ensures q.Covers(net) <==> Inside(q, net) {
      CoversIffInside(q, net);
    }
  }

  ghost predicate Planned(candidates: seq<Candidate>, net: Prefix) {
    exists i :: 0 <= i < |candidates| && candidates[i].net == Some(net)
  }

  ghost predicate Malformed(candidates: seq<Candidate>) {
    exists i :: 0 <= i < |candidates| && candidates[i].net.None?
  }

  /** Each canonical CIDR of the table once, in order of first appearance, with its rows. */
  method GroupCandidates(candidates: seq<Candidate>)
    returns (order: seq<Prefix>, groups: map<Prefix, seq<int>>, findings: seq<Finding>)
    ensures groups.Keys == set n | n in order
    ensures forall i, j :: 0 <= i < j < |order| ==> order[i] != order[j]
    ensures forall n :: n in order <==> Planned(candidates, n)
    ensures HasErrors(findings) <==> Malformed(candidates)
    ensures forall n :: n in groups ==> groups[n] == RowsOf(candidates, n)
    ensures forall f :: f in findings ==> f.net.None?
  {
    order, groups, findings := [], map[], [];
    for i := 0 to |candidates|
      invariant groups.Keys == set n | n in order
      invariant forall j, k :: 0 <= j < k < |order| ==> order[j] != order[k]
      invariant forall n :: n in order <==> Planned(candidates[..i], n)
      invariant HasErrors(findings) <==> Malformed(candidates[..i])
      invariant forall n :: n in groups ==> groups[n] == RowsOf(candidates[..i], n)
      invariant forall n :: n !in groups ==> RowsOf(candidates[..i], n) == []
      invariant forall f :: f in findings ==> f.net.None?
    {
      var c := candidates[i];
      PlannedSnoc(candidates, i);
      assert candidates[..i + 1][..i] == candidates[..i];
      if c.net.None? {
        var f := Finding(InvalidCidr, None, [c.row]);
        FindingsSnoc(findings, f);
        findings := findings + [f];
      } else {
        var n := c.net.value;
        if n !in groups {
          groups := groups[n := []];
          order := order + [n];
        }
        groups := groups[n := groups[n] + [c.row]];
      }
    }
    assert candidates[..|candidates|] == candidates;
  }

  lemma PlannedSnoc(candidates: seq<Candidate>, i: nat)
    requires i < |candidates|
    ensures forall n :: Planned(candidates[..i + 1], n) <==> Planned(candidates[..i], n) || candidates[i].net == Some(n)
    ensures Malformed(candidates[..i + 1]) <==> Malformed(candidates[..i]) || candidates[i].net.None?
  {
    var s, t := candidates[..i], candidates[..i + 1];
    assert t == s + [candidates[i]];
    forall n ensures Planned(t, n) <==> Planned(s, n) || candidates[i].net == Some(n) {
      if Planned(s, n) {
        var k :| 0 <= k < |s| && s[k].net == Some(n);
        assert t[k].net == Some(n);
      }
      assert t[i] == candidates[i];
    }
    if Malformed(s) {
      var k :| 0 <= k < |s| && s[k].net.None?;
      assert t[k].net.None?;
    }
    assert t[i] == candidates[i];
  }

  lemma FindingsSnoc(findings: seq<Finding>, f: Finding)
    ensures HasErrors(findings + [f]) <==> HasErrors(findings) || f.rule.Error()
  {
    assert f in findings + [f];
  }

  /** What the rules say about one network, in the order they are asked. */
  function RulesOn(net: Prefix, rows: seq<int>, pools: seq<Prefix>, networks: seq<Network>): seq<Rule> {
    (if |rows| > 1 then [DuplicateCidr] else []) +
    if Refusal(net, pools, networks).Some? then [Refusal(net, pools, networks).value]
    else
      (if InsideVpc(net, networks) then [InsideManagedVpc] else []) +
      if Already(net, networks) then [AlreadyUnmanaged] else if !InsideAnyPool(net, pools) then [OutsidePool] else []
  }

  function FindingsOn(net: Prefix, rows: seq<int>, rules: seq<Rule>): seq<Finding> {
    seq(|rules|, i requires 0 <= i < |rules| => Finding(rules[i], Some(net), rows))
  }

  lemma FindingsOnMean(net: Prefix, rows: seq<int>, rules: seq<Rule>)
    ensures HasErrors(FindingsOn(net, rows, rules)) <==> exists r :: r in rules && r.Error()
    ensures forall rule :: Found(FindingsOn(net, rows, rules), rule, net) <==> rule in rules
    ensures forall f :: f in FindingsOn(net, rows, rules) ==> f.net == Some(net)
  {
    var fs := FindingsOn(net, rows, rules);
    forall rule | rule in rules ensures Found(fs, rule, net) && (rule.Error() ==> HasErrors(fs)) {
      var i :| 0 <= i < |rules| && rules[i] == rule;
      assert fs[i] in fs;
    }
  }

  lemma RulesOnMean(net: Prefix, rows: seq<int>, pools: seq<Prefix>, networks: seq<Network>)
    ensures forall rule :: rule in RulesOn(net, rows, pools, networks) <==> Applies(rule, net, rows, pools, networks)
    ensures (exists r :: r in RulesOn(net, rows, pools, networks) && r.Error()) <==> Refusal(net, pools, networks).Some?
  {
    var refusal := Refusal(net, pools, networks);
    assert refusal.Some? ==> refusal.value in RulesOn(net, rows, pools, networks) && refusal.value.Error();
  }

  /** What one group of rows leads to. */
  method PlanGroup(net: Prefix, rows: seq<int>, pools: seq<Prefix>, networks: seq<Network>)
    returns (write: bool, findings: seq<Finding>)
    ensures write <==> Writes(net, pools, networks)
    ensures HasErrors(findings) <==> Refusal(net, pools, networks).Some?
    ensures forall f :: f in findings ==> f.net == Some(net)
    ensures forall rule :: Found(findings, rule, net) <==> Applies(rule, net, rows, pools, networks)
  {
    ghost var rules := RulesOn(net, rows, pools, networks);
    FindingsOnMean(net, rows, rules);
    RulesOnMean(net, rows, pools, networks);
    findings := if |rows| > 1 then [Finding(DuplicateCidr, Some(net), rows)] else [];
    var refusal := Refusal(net, pools, networks);
    if refusal.Some? {
      findings := findings + [Finding(refusal.value, Some(net), rows)];
      assert findings == FindingsOn(net, rows, rules);
      return false, findings;
    }
    if InsideVpc(net, networks) {
      findings := findings + [Finding(InsideManagedVpc, Some(net), rows)];
    }
    if Already(net, networks) {
      findings := findings + [Finding(AlreadyUnmanaged, Some(net), rows)];
      assert findings == FindingsOn(net, rows, rules);
      return false, findings;
    }
    if !InsideAnyPool(net, pools) {
      findings := findings + [Finding(OutsidePool, Some(net), rows)];
    }
    assert findings == FindingsOn(net, rows, rules);
    write := true;
  }

  /** A plan without errors: every row is canonical and refused by no rule. */
  ghost predicate Accepted(candidates: seq<Candidate>, pools: seq<Prefix>, networks: seq<Network>) {
    !Malformed(candidates) && forall n :: Planned(candidates, n) ==> Refusal(n, pools, networks).None?
  }

  /** planPrefixCandidates: each network to write once, and an error exactly when something is refused. */
  method Plan(candidates: seq<Candidate>, pools: seq<Prefix>, networks: seq<Network>)
    returns (writes: seq<Prefix>, findings: seq<Finding>)
    ensures forall i, j :: 0 <= i < j < |writes| ==> writes[i] != writes[j]
    ensures forall n :: n in writes <==> Planned(candidates, n) && Writes(n, pools, networks)
    ensures !HasErrors(findings) <==> Accepted(candidates, pools, networks)
    ensures forall n, rule :: Found(findings, rule, n) <==>
      Planned(candidates, n) && Applies(rule, n, RowsOf(candidates, n), pools, networks)
  {
    var order, groups;
    order, groups, findings := GroupCandidates(candidates);
    writes := [];
    for i := 0 to |order|
      invariant forall j, k :: 0 <= j < k < |writes| ==> writes[j] != writes[k]
      invariant forall n :: n in writes <==> n in order[..i] && Writes(n, pools, networks)
      invariant HasErrors(findings) <==> Malformed(candidates) || exists j :: 0 <= j < i && Refusal(order[j], pools, networks).Some?
      invariant FoundUpTo(findings, order[..i], candidates, pools, networks)
    {
      assert order[..i + 1] == order[..i] + [order[i]];
      assert order[i] in order;
      var write, more := PlanGroup(order[i], groups[order[i]], pools, networks);
      HasErrorsConcat(findings, more);
      FoundStep(findings, more, order[..i], order[i], candidates, pools, networks);
      findings := findings + more;
      if write {
        writes := writes + [order[i]];
      }
    }
    assert order[..|order|] == order;
    assert (exists j :: 0 <= j < |order| && Refusal(order[j], pools, networks).Some?) <==>
      exists n :: n in order && Refusal(n, pools, networks).Some?;
  }

  /** The findings so far are exactly what the rules say about the networks so far. */
  ghost predicate FoundUpTo(
    findings: seq<Finding>, nets: seq<Prefix>, candidates: seq<Candidate>, pools: seq<Prefix>, networks: seq<Network>)
  {
    forall n, rule :: Found(findings, rule, n) <==> n in nets && Applies(rule, n, RowsOf(candidates, n), pools, networks)
  }

  lemma FoundStep(
    findings: seq<Finding>, more: seq<Finding>, nets: seq<Prefix>, net: Prefix, candidates: seq<Candidate>, pools: seq<Prefix>,
    networks: seq<Network>)
    requires FoundUpTo(findings, nets, candidates, pools, networks) && net !in nets
    requires forall f :: f in more ==> f.net == Some(net)
    requires forall rule :: Found(more, rule, net) <==> Applies(rule, net, RowsOf(candidates, net), pools, networks)
    ensures FoundUpTo(findings + more, nets + [net], candidates, pools, networks)
  {
    forall n, rule
      ensures Found(findings + more, rule, n) <==>
        n in nets + [net] && Applies(rule, n, RowsOf(candidates, n), pools, networks)
    {
      FoundConcat(findings, more, rule, n);
    }
  }

  lemma HasErrorsConcat(f: seq<Finding>, g: seq<Finding>)
    ensures HasErrors(f + g) <==> HasErrors(f) || HasErrors(g)
  {
    if HasErrors(f) {
      var x :| x in f && x.rule.Error();
      assert x in f + g;
    }
    if HasErrors(g) {
      var x :| x in g && x.rule.Error();
      assert x in f + g;
    }
  }

  // ----- plan, apply, plan again -----

  /** A listing of the prefixes of one VRF, each once. */
  ghost predicate ListingOf(listing: seq<Listed>, c: Contents, vrf: nat) {
    && (forall i :: 0 <= i < |listing| ==> InVrf(c, vrf, listing[i].id) && c[listing[i].id] == listing[i].content)
    && (forall i, j :: 0 <= i < j < |listing| ==> listing[i].id != listing[j].id)
    && (forall id :: InVrf(c, vrf, id) ==> exists i :: 0 <= i < |listing| && listing[i].id == id)
  }

  predicate InVrf(c: Contents, vrf: nat, id: nat) {
    id in c && c[id].vrf == vrf
  }

  ghost predicate Only(listing: seq<Listed>, q: Prefix, i: nat) {
    i < |listing| && listing[i].content.net == q && forall j :: 0 <= j < |listing| && j != i ==> listing[j].content.net != q
  }

  lemma {:induction false} MatchesIff(listing: seq<Listed>, q: Prefix)
    ensures Matches(listing, q) == 0 <==> forall i :: 0 <= i < |listing| ==> listing[i].content.net != q
    ensures Matches(listing, q) == 1 <==> exists i :: Only(listing, q, i)
    decreases |listing|
  {
    if listing != [] {
      var init, k := listing[..|listing| - 1], |listing| - 1;
      MatchesIff(init, q);
      if listing[k].content.net == q {
        if Matches(init, q) == 0 {
          assert Only(listing, q, k);
        }
        forall i | Only(listing, q, i) ensures Matches(init, q) == 0 {
          assert i == k;
        }
      } else {
        forall i ensures Only(listing, q, i) <==> Only(init, q, i) {
        }
      }
    }
  }

  lemma OnlyIsAlone(listing: seq<Listed>, c: Contents, vrf: nat, q: Prefix, i: nat)
    requires ListingOf(listing, c, vrf) && Only(listing, q, i)
    ensures Alone(c, Place(q, vrf), listing[i].id)
  {
    forall j | HoldsAt(c, Place(q, vrf), j) ensures j == listing[i].id {
      assert InVrf(c, vrf, j);
      var k :| 0 <= k < |listing| && listing[k].id == j;
    }
    assert InVrf(c, vrf, listing[i].id);
  }

  lemma AloneIsOnly(listing: seq<Listed>, c: Contents, vrf: nat, q: Prefix, id: nat)
    requires ListingOf(listing, c, vrf) && Alone(c, Place(q, vrf), id)
    ensures exists i :: Only(listing, q, i)
  {
    assert InVrf(c, vrf, id);
    var i :| 0 <= i < |listing| && listing[i].id == id;
    forall j | 0 <= j < |listing| && j != i ensures listing[j].content.net != q {
      assert HoldsAt(c, Place(q, vrf), listing[j].id) <==> listing[j].content.net == q;
    }
    assert Only(listing, q, i);
  }

  /** A pool is matched once exactly when one prefix stands alone at its place. */
  lemma MatchedIff(listing: seq<Listed>, c: Contents, vrf: nat, q: Prefix)
    requires ListingOf(listing, c, vrf)
    ensures Matches(listing, q) == 1 <==> exists id :: Alone(c, Place(q, vrf), id)
  {
    MatchesIff(listing, q);
    if i: nat :| Only(listing, q, i) {
      OnlyIsAlone(listing, c, vrf, q, i);
    }
    if id: nat :| Alone(c, Place(q, vrf), id) {
      AloneIsOnly(listing, c, vrf, q, id);
    }
  }

  /** No two prefixes of the VRF share a network. */
  ghost predicate UniqueIn(c: Contents, vrf: nat) {
    forall i, j :: InVrf(c, vrf, i) && InVrf(c, vrf, j) && c[i].net == c[j].net ==> i == j
  }

  lemma DistinctIff(listing: seq<Listed>, c: Contents, vrf: nat)
    requires ListingOf(listing, c, vrf)
    ensures DistinctNets(listing) <==> UniqueIn(c, vrf)
  {
    if DistinctNets(listing) {
      forall i, j | InVrf(c, vrf, i) && InVrf(c, vrf, j) && c[i].net == c[j].net ensures i == j {
        var k :| 0 <= k < |listing| && listing[k].id == i;
        var l :| 0 <= l < |listing| && listing[l].id == j;
      }
    }
    if UniqueIn(c, vrf) {
      forall i, j | 0 <= i < j < |listing| ensures listing[i].content.net != listing[j].content.net {
        assert InVrf(c, vrf, listing[i].id) && InVrf(c, vrf, listing[j].id);
      }
    }
  }

  ghost predicate SnapshotSucceeds(c: Contents, vrf: nat, pools: seq<Prefix>, requireUnique: bool) {
    (requireUnique ==> UniqueIn(c, vrf)) && forall q :: q in pools ==> exists id :: Alone(c, Place(q, vrf), id)
  }

  /** Snapshot's success, said of the inventory rather than of the pages it was read from. */
  lemma SnapshotIff(listing: seq<Listed>, c: Contents, vrf: nat, pools: seq<Prefix>, requireUnique: bool)
    requires ListingOf(listing, c, vrf)
    ensures SnapshotSucceeds(c, vrf, pools, requireUnique) <==>
      (requireUnique ==> DistinctNets(listing)) && forall q :: q in pools ==> Matches(listing, q) == 1
  {
    DistinctIff(listing, c, vrf);
    forall q ensures Matches(listing, q) == 1 <==> exists id :: Alone(c, Place(q, vrf), id) {
      MatchedIff(listing, c, vrf, q);
    }
  }

  lemma ListedNetwork(listing: seq<Listed>, c: Contents, vrf: nat, pools: seq<Prefix>, id: nat)
    requires ListingOf(listing, c, vrf) && InVrf(c, vrf, id) && Visible(c[id], pools)
    ensures NetworkOf(c[id], pools) in Networks(listing, pools)
  {
    var i :| 0 <= i < |listing| && listing[i].id == id;
    InNetworks(listing, pools, NetworkOf(listing[i].content, pools));
  }

  /** A prefix at a place that is no pool and no ancestor shows up, managed or not. */
  lemma HolderShows(
    listing: seq<Listed>, c: Contents, vrf: nat, others: seq<Network>, pools: seq<Prefix>, net: Prefix, id: nat)
    requires ListingOf(listing, c, vrf) && HoldsAt(c, Place(net, vrf), id)
    requires !IsPool(net, pools) && !IsAncestor(net, pools)
    ensures Managed(net, Networks(listing, pools) + others) || Already(net, Networks(listing, pools) + others)
  {
    ListedNetwork(listing, c, vrf, pools, id);
    var n := NetworkOf(c[id], pools);
    assert n in Networks(listing, pools) + others;
    assert net.Overlaps(net);
  }

  /** The space of a planned write is free: nothing holds it, so EnsureOccupancy creates. */
  lemma PlannedIsVacant(
    listing: seq<Listed>, c: Contents, vrf: nat, others: seq<Network>, pools: seq<Prefix>, net: Prefix)
    requires ListingOf(listing, c, vrf) && Writes(net, pools, Networks(listing, pools) + others)
    ensures NoneHolds(c, Place(net, vrf))
  {
    if id: nat :| HoldsAt(c, Place(net, vrf), id) {
      HolderShows(listing, c, vrf, others, pools, net, id);
      assert false;
    }
  }

  /** What applying a plan does to the inventory: one new unclaimed prefix for each network. */
  ghost predicate Applied(c: Contents, d: Contents, nets: seq<Prefix>, vrf: nat) {
    && (forall id :: id in c ==> id in d && d[id] == c[id])
    && (forall id :: IsNew(c, d, id) ==> d[id].net in nets && d[id].vrf == vrf && d[id].Marker() == "")
    && (forall n :: n in nets ==> Fresh(c, d, n))
    && (forall i, j :: IsNew(c, d, i) && IsNew(c, d, j) && d[i].net == d[j].net ==> i == j)
  }

  ghost predicate Fresh(c: Contents, d: Contents, net: Prefix) {
    exists id :: IsNew(c, d, id) && d[id].net == net
  }

  predicate IsNew(c: Contents, d: Contents, id: nat) {
    id in d && id !in c
  }

  /** Applying a plan never takes the snapshot down. */
  lemma SnapshotSurvives(
    c: Contents, d: Contents, nets: seq<Prefix>, vrf: nat, pools: seq<Prefix>, requireUnique: bool)
    requires SnapshotSucceeds(c, vrf, pools, requireUnique) && Applied(c, d, nets, vrf)
    requires forall n :: n in nets ==> NoneHolds(c, Place(n, vrf)) && !IsPool(n, pools)
    ensures SnapshotSucceeds(d, vrf, pools, requireUnique)
  {
    if requireUnique {
      forall i, j | InVrf(d, vrf, i) && InVrf(d, vrf, j) && d[i].net == d[j].net ensures i == j {
        assert i in c && j !in c ==> HoldsAt(c, Place(d[j].net, vrf), i) && IsNew(c, d, j);
        assert j in c && i !in c ==> HoldsAt(c, Place(d[i].net, vrf), j) && IsNew(c, d, i);
        assert i in c && j in c ==> InVrf(c, vrf, i) && InVrf(c, vrf, j);
        assert i !in c && j !in c ==> IsNew(c, d, i) && IsNew(c, d, j);
      }
    }
    forall q | q in pools ensures exists id :: Alone(d, Place(q, vrf), id) {
      var id :| Alone(c, Place(q, vrf), id);
      forall j | HoldsAt(d, Place(q, vrf), j) ensures j == id {
        assert j in c ==> HoldsAt(c, Place(q, vrf), j);
        assert j !in c ==> IsNew(c, d, j);
      }
      assert Alone(d, Place(q, vrf), id);
    }
  }

  /** Applying a plan brings in nothing managed. */
  lemma ManagedStays(
    before: seq<Listed>, after: seq<Listed>, c: Contents, d: Contents, nets: seq<Prefix>, vrf: nat,
    others: seq<Network>, pools: seq<Prefix>, net: Prefix)
    requires ListingOf(before, c, vrf) && ListingOf(after, d, vrf) && Applied(c, d, nets, vrf)
    requires Managed(net, Networks(after, pools) + others)
    ensures Managed(net, Networks(before, pools) + others)
  {
    var n :| n in Networks(after, pools) + others && ClashesWith(net, n);
    if n !in others {
      InNetworks(after, pools, n);
      var i :| 0 <= i < |after| && Visible(after[i].content, pools) && NetworkOf(after[i].content, pools) == n;
      var id := after[i].id;
      assert InVrf(d, vrf, id) && !IsNew(c, d, id);
      ListedNetwork(before, c, vrf, pools, id);
    }
    assert n in Networks(before, pools) + others;
  }

  /** What was occupied stays occupied, and what was written now is. */
  lemma AlreadyGrows(
    before: seq<Listed>, after: seq<Listed>, c: Contents, d: Contents, nets: seq<Prefix>, vrf: nat,
    others: seq<Network>, pools: seq<Prefix>, net: Prefix)
    requires ListingOf(before, c, vrf) && ListingOf(after, d, vrf) && Applied(c, d, nets, vrf)
    requires !IsPool(net, pools) && !IsAncestor(net, pools)
    requires Already(net, Networks(before, pools) + others) || net in nets
    ensures Already(net, Networks(after, pools) + others)
  {
    if net in nets {
      var id :| IsNew(c, d, id) && d[id].net == net;
      assert InVrf(d, vrf, id);
      ListedNetwork(after, d, vrf, pools, id);
      assert NetworkOf(d[id], pools) in Networks(after, pools) + others;
    } else {
      var n :| n in Networks(before, pools) + others && n.allocation == "" && !n.pool && n.net == net;
      if n !in others {
        InNetworks(before, pools, n);
        var i :| 0 <= i < |before| && Visible(before[i].content, pools) && NetworkOf(before[i].content, pools) == n;
        assert InVrf(c, vrf, before[i].id) && InVrf(d, vrf, before[i].id);
        ListedNetwork(after, d, vrf, pools, before[i].id);
      }
      assert n in Networks(after, pools) + others;
    }
  }

  /** Planning the same table again accepts it and writes nothing. */
  lemma ReplanIsEmpty(
    before: seq<Listed>, after: seq<Listed>, c: Contents, d: Contents, nets: seq<Prefix>, vrf: nat,
    others: seq<Network>, pools: seq<Prefix>, candidates: seq<Candidate>)
    requires ListingOf(before, c, vrf) && ListingOf(after, d, vrf) && Applied(c, d, nets, vrf)
    requires Accepted(candidates, pools, Networks(before, pools) + others)
    requires forall n :: n in nets <==> Planned(candidates, n) && Writes(n, pools, Networks(before, pools) + others)
    ensures Accepted(candidates, pools, Networks(after, pools) + others)
    ensures forall n :: Planned(candidates, n) ==> !Writes(n, pools, Networks(after, pools) + others)
  {
    forall n | Planned(candidates, n)
      ensures Refusal(n, pools, Networks(after, pools) + others).None? && Already(n, Networks(after, pools) + others)
    {
      assert Refusal(n, pools, Networks(before, pools) + others).None?;
      if Managed(n, Networks(after, pools) + others) {
        ManagedStays(before, after, c, d, nets, vrf, others, pools, n);
        assert false;
      }
      AlreadyGrows(before, after, c, d, nets, vrf, others, pools, n);
    }
  }

  // ----- the whole import, undisturbed -----

  /** The listed pools are the domain's. */
  ghost predicate PoolsOf(cfg: Settings, domain: string, pools: seq<Prefix>) {
    forall q :: q in pools <==> exists id :: PoolOf(cfg, domain, id) && cfg.pools[id].net == Some(q)
  }

  lemma PoolTouched(cfg: Settings, domain: string, pools: seq<Prefix>, net: Prefix)
    requires PoolsOf(cfg, domain, pools)
    ensures TouchesPool(cfg, domain, net) ==> IsPool(net, pools) || IsAncestor(net, pools)
  {
    if id :| id in cfg.pools && cfg.pools[id].domain == domain && cfg.pools[id].net.Some? && Swallows(net, cfg.pools[id].net.value) {
      assert PoolOf(cfg, domain, id);
    }
  }

  /** Everything EnsureOccupancy asks of the configuration, and of the rows a table makes of its networks. */
  ghost predicate Ready(cfg: Settings, domain: string, describe: Prefix -> Row) {
    && domain != "" && domain in cfg.domains && cfg.domains[domain].vrf != 0
    && PoolsAgree(cfg, domain, cfg.domains[domain].vrf)
    && forall n :: describe(n).cidr == Canonical(n) && !RowRefused(describe(n))
  }

  lemma AppliedStep(c: Contents, d: Contents, e: Contents, nets: seq<Prefix>, vrf: nat, id: nat, s: Stored)
    requires Applied(c, d, nets, vrf) && Added(d, e, id, s) && s.net !in nets
    requires s.vrf == vrf && s.Marker() == ""
    ensures Applied(c, e, nets + [s.net], vrf)
  {
    assert id !in c;
    assert IsNew(c, e, id);
    NewOnes(c, d, e, nets, vrf, id, s);
    forall n | n in nets + [s.net] ensures Fresh(c, e, n) {
      if n in nets {
        FreshStays(c, d, e, id, s, n);
      }
    }
  }

  lemma NewOnes(c: Contents, d: Contents, e: Contents, nets: seq<Prefix>, vrf: nat, id: nat, s: Stored)
    requires Applied(c, d, nets, vrf) && Added(d, e, id, s)
    ensures forall k :: IsNew(c, e, k) && k != id ==> IsNew(c, d, k) && e[k] == d[k] && e[k].net in nets && e[k].vrf == vrf && e[k].Marker() == ""
  {
    forall k | IsNew(c, e, k) && k != id ensures IsNew(c, d, k) && e[k] == d[k] && e[k].net in nets && e[k].vrf == vrf && e[k].Marker() == "" {
      assert IsNew(c, d, k);
    }
  }

  lemma FreshStays(c: Contents, d: Contents, e: Contents, id: nat, s: Stored, net: Prefix)
    requires Fresh(c, d, net) && Added(d, e, id, s)
    ensures Fresh(c, e, net)
  {
    var k :| IsNew(c, d, k) && d[k].net == net;
    assert IsNew(c, e, k) && e[k].net == net;
  }

  lemma EmptyWhen(nets: seq<Prefix>)
    ensures nets == [] <==> forall n :: n !in nets
  {
    assert nets != [] ==> nets[0] in nets;
  }

  lemma VacantStep(d: Contents, e: Contents, id: nat, s: Stored, p: Place)
    requires Added(d, e, id, s) && NoneHolds(d, p) && s.net != p.net
    ensures NoneHolds(e, p)
  {
    forall j ensures !HoldsAt(e, p, j) {
      assert !HoldsAt(d, p, j);
    }
  }

  ghost predicate VacantFrom(c: Contents, nets: seq<Prefix>, i: nat, vrf: nat) {
    forall k :: i <= k < |nets| ==> NoneHolds(c, Place(nets[k], vrf))
  }

  lemma PlanStep(c: Contents, d: Contents, e: Contents, nets: seq<Prefix>, i: nat, vrf: nat, id: nat, s: Stored)
    requires i < |nets| && s.net == nets[i] && s.vrf == vrf && s.Marker() == "" && Added(d, e, id, s)
    requires forall j :: 0 <= j < |nets| && j != i ==> nets[i] != nets[j]
    requires Applied(c, d, nets[..i], vrf) && VacantFrom(d, nets, i, vrf)
    ensures Applied(c, e, nets[..i + 1], vrf) && VacantFrom(e, nets, i + 1, vrf)
  {
    AppliedStep(c, d, e, nets[..i], vrf, id, s);
    assert nets[..i] + [nets[i]] == nets[..i + 1];
    forall k | i + 1 <= k < |nets| ensures NoneHolds(e, Place(nets[k], vrf)) {
      VacantStep(d, e, id, s, Place(nets[k], vrf));
    }
  }

  /** The next network of the plan. */
  method ApplyNext(nb: Server, cfg: Settings, domain: string, describe: Prefix -> Row, net: Prefix) returns (id: nat)
    requires nb.Valid() && nb.script == [] && Ready(cfg, domain, describe) && !TouchesPool(cfg, domain, net)
    requires NoneHolds(nb.Contents(), Place(net, cfg.domains[domain].vrf))
    modifies nb
    ensures nb.Valid() && nb.script == []
    ensures Added(old(nb.Contents()), nb.Contents(), id, Imported(describe(net), Place(net, cfg.domains[domain].vrf)))
  {
    id := ImportUndisturbed(nb, cfg, domain, describe(net));
  }

  /** Applying the plan: no planned network is refused, and each is created. */
  method ApplyPlan(nb: Server, cfg: Settings, domain: string, describe: Prefix -> Row, nets: seq<Prefix>)
    requires nb.Valid() && nb.script == [] && Ready(cfg, domain, describe)
    requires forall i, j :: 0 <= i < j < |nets| ==> nets[i] != nets[j]
    requires forall n :: n in nets ==> NoneHolds(nb.Contents(), Place(n, cfg.domains[domain].vrf)) && !TouchesPool(cfg, domain, n)
    modifies nb
    ensures nb.Valid() && nb.script == [] && Applied(old(nb.Contents()), nb.Contents(), nets, cfg.domains[domain].vrf)
  {
    ghost var c := nb.Contents();
    for i := 0 to |nets|
      invariant nb.Valid() && nb.script == []
      invariant Applied(c, nb.Contents(), nets[..i], cfg.domains[domain].vrf)
      invariant VacantFrom(nb.Contents(), nets, i, cfg.domains[domain].vrf)
    {
      assert nets[i] in nets;
      ghost var d, p := nb.Contents(), Place(nets[i], cfg.domains[domain].vrf);
      var id := ApplyNext(nb, cfg, domain, describe, nets[i]);
      ImportedIsOccupancy(describe(nets[i]), p);
      PlanStep(c, d, nb.Contents(), nets, i, p.vrf, id, Imported(describe(nets[i]), p));
    }
    assert nets[..|nets|] == nets;
  }

  /** The pages of prefixes Snapshot reads, undisturbed. */
  method ListVrf(nb: Server, vrf: nat) returns (listing: seq<Listed>)
    requires nb.Valid() && nb.script == []
    modifies nb
    ensures nb.Valid() && nb.script == [] && nb.Contents() == old(nb.Contents()) && ListingOf(listing, nb.Contents(), vrf)
  {
    var r := nb.List((s: Stored) => s.vrf == vrf);
    listing := Enumerate(r.value);
    assert forall id :: InVrf(nb.Contents(), vrf, id) <==> id in r.value;
  }

  method Enumerate(m: Contents) returns (listing: seq<Listed>)
    ensures forall i :: 0 <= i < |listing| ==> listing[i].id in m && m[listing[i].id] == listing[i].content
    ensures forall i, j :: 0 <= i < j < |listing| ==> listing[i].id != listing[j].id
    ensures forall id :: id in m ==> exists i :: 0 <= i < |listing| && listing[i].id == id
  {
    listing := [];
    var pending := m.Keys;
    while pending != {}
      invariant pending <= m.Keys
      invariant forall i :: 0 <= i < |listing| ==> listing[i].id in m && listing[i].id !in pending && m[listing[i].id] == listing[i].content
      invariant forall i, j :: 0 <= i < j < |listing| ==> listing[i].id != listing[j].id
      invariant forall id :: id in m && id !in pending ==> exists i :: 0 <= i < |listing| && listing[i].id == id
      decreases |pending|
    {
      var id :| id in pending;
      ghost var was := listing;
      listing := listing + [Listed(id, m[id])];
      pending := pending - {id};
      assert listing[|was|].id == id;
      assert forall i :: 0 <= i < |was| ==> listing[i] == was[i];
    }
  }

  /**
    Snapshot, plan, apply, snapshot, plan: when the first snapshot succeeds and
    the first plan has no errors, the second snapshot succeeds, the second plan
    has no errors, and it writes nothing.
   */
  method ImportTwice(
    nb: Server, cfg: Settings, domain: string, describe: Prefix -> Row, candidates: seq<Candidate>,
    others: seq<Network>, pools: seq<Prefix>)
    returns (first: Option<seq<Network>>, errors: bool, second: Option<seq<Network>>, errorsAgain: bool, writesAgain: seq<Prefix>)
    requires nb.Valid() && nb.script == [] && Ready(cfg, domain, describe) && PoolsOf(cfg, domain, pools)
    modifies nb
    ensures nb.Valid()
    ensures first.Some? && !errors ==> second.Some? && !errorsAgain && writesAgain == []
    ensures first.None? || errors ==> nb.Contents() == old(nb.Contents())
  {
    second, errors, errorsAgain, writesAgain := None, false, false, [];
    var vrf, unique := cfg.domains[domain].vrf, cfg.domains[domain].requireUnique;
    ghost var c := nb.Contents();
    var before := ListVrf(nb, vrf);
    first := Snapshot(before, others, pools, unique);
    if first.None? {
      return;
    }
    var writes, findings := Plan(candidates, pools, first.value);
    errors := HasErrors(findings);
    if errors {
      return;
    }
    forall n | n in writes ensures NoneHolds(c, Place(n, vrf)) && !TouchesPool(cfg, domain, n) {
      PlannedIsVacant(before, c, vrf, others, pools, n);
      PoolTouched(cfg, domain, pools, n);
    }
    ApplyPlan(nb, cfg, domain, describe, writes);
    ghost var d := nb.Contents();
    var after := ListVrf(nb, vrf);
    SnapshotIff(before, c, vrf, pools, unique);
    SnapshotSurvives(c, d, writes, vrf, pools, unique);
    SnapshotIff(after, d, vrf, pools, unique);
    second := Snapshot(after, others, pools, unique);
    ReplanIsEmpty(before, after, c, d, writes, vrf, others, pools, candidates);
    writesAgain, findings := Plan(candidates, pools, second.value);
    errorsAgain := HasErrors(findings);
    EmptyWhen(writesAgain);
  }
}
