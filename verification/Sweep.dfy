/**
  The sort-and-sweep overlap detection of internal/assess/sweep.go, proved
  equal to comparing every pair.
 */
module Sweep {
  import opened Cidr
  import opened Ordering
  import opened AssessTypes
  import opened Optional

  /** One item the sweep compares; its interval is the addresses of a canonical prefix. */
  datatype Association =
    | Observed(net: Prefix, rec: Record)
    | Fixed(net: Prefix, fx: FixedRange)
  {
    function Start(): nat { net.addr }
    function End(): nat { net.Last() }
    function Identity(): string { if Fixed? then fx.Identity() else rec.Identity() }
    function VpcKey(): string { if Fixed? then "" else rec.VpcKey() }
  }

  datatype Kind = EqualCIDR | Contains

  /** For Contains, x is the outer side; for EqualCIDR the pair is in sweep order. */
  datatype Relationship = Relationship(kind: Kind, x: Association, y: Association)

  /** Sort order: start ascending, end descending, identity ascending. */
  predicate Before(a: Association, b: Association) {
    if a.Start() != b.Start() then a.Start() < b.Start()
    else if a.End() != b.End() then a.End() > b.End()
    else StrLess(a.Identity(), b.Identity())
  }

  lemma BeforeOrders()
    ensures Orders(Before)
  {
    forall a: Association, b: Association ensures Before(a, b) ==> !Before(b, a) {
      StrOrder(a.Identity(), b.Identity());
    }
    forall a: Association, b: Association, c: Association | !Before(b, a) && !Before(c, b) ensures !Before(c, a) {
      if !StrLess(b.Identity(), a.Identity()) && !StrLess(c.Identity(), b.Identity()) {
        StrTransitive(a.Identity(), b.Identity(), c.Identity());
      }
    }
  }

  // ----- the definition: every pair -----

  /** The pairs the report is about: not two fixed ranges, not one VPC against itself. */
  predicate Comparable(a: Association, b: Association) {
    !(a.Fixed? && b.Fixed?) && !(a.Observed? && b.Observed? && a.VpcKey() == b.VpcKey())
  }

  predicate Share(a: Association, b: Association) {
    a.Start() <= b.End() && b.Start() <= a.End()
  }

  /** A relationship without its sweep order: the unordered pair, and the outer side if one contains the other. */
  datatype Relation = Relation(kind: Kind, sides: set<Association>, outer: Option<Association>)

  function Meaning(r: Relationship): Relation {
    Relation(r.kind, {r.x, r.y}, if r.kind == Contains then Some(r.x) else None)
  }

  /** What one unordered pair contributes: nothing, or exactly one relation. */
  function Compare(a: Association, b: Association): multiset<Relation> {
    if !Comparable(a, b) || !Share(a, b) then multiset{}
    else if a.net == b.net then multiset{Relation(EqualCIDR, {a, b}, None)}
    else if a.net.bits < b.net.bits then multiset{Relation(Contains, {a, b}, Some(a))}
    else multiset{Relation(Contains, {a, b}, Some(b))}
  }

  function Meet(a: Association, b: Association): multiset<set<Association>> {
    if Share(a, b) then multiset{{a, b}} else multiset{}
  }

  ghost predicate WellFormed(s: seq<Association>) {
    forall a :: a in s ==> a.net.Valid()
  }

  /** Compare restricted to items with canonical prefixes, where it is symmetric. */
  function CompareValid(a: Association, b: Association): multiset<Relation> {
    if a.net.Valid() && b.net.Valid() then Compare(a, b) else multiset{}
  }

  lemma ShareSameMask(a: Association, b: Association)
    requires a.net.Valid() && b.net.Valid() && Share(a, b) && a.net.bits == b.net.bits
    ensures a.net == b.net
  {
    var x := if a.Start() <= b.Start() then b.Start() else a.Start();
    Laminar(a.net, b.net, x);
  }

  lemma CompareFlip(a: Association, b: Association)
    ensures CompareValid(a, b) == CompareValid(b, a) && Meet(a, b) == Meet(b, a)
  {
    assert {a, b} == {b, a};
    if a.net.Valid() && b.net.Valid() && Share(a, b) && a.net.bits == b.net.bits {
      ShareSameMask(a, b);
    }
  }

  lemma CompareSymmetric()
    ensures Symmetric(CompareValid) && Symmetric(Meet)
  {
    forall a: Association, b: Association
      ensures CompareValid(a, b) == CompareValid(b, a) && Meet(a, b) == Meet(b, a)
    {
      CompareFlip(a, b);
    }
  }

  // ----- the sweep -----

  /** The items of s still open at address t, in order. */
  ghost function Open(s: seq<Association>, t: nat): seq<Association> {
    if s == [] then []
    else Open(s[..|s| - 1], t) + if s[|s| - 1].End() >= t then [s[|s| - 1]] else []
  }

  lemma {:induction false} OpenTwice(s: seq<Association>, t: nat, u: nat)
    requires t <= u
    ensures Open(Open(s, t), u) == Open(s, u)
    decreases |s|
  {
    if s != [] {
      var init, x := s[..|s| - 1], s[|s| - 1];
      OpenTwice(init, t, u);
      if x.End() >= t {
        assert (Open(init, t) + [x])[..|Open(init, t)|] == Open(init, t);
      } else {
        assert Open(s, t) == Open(init, t) && Open(s, u) == Open(init, u);
      }
    }
  }

  /** Drops, in place, the open items that end before t. */
  method Compact(open: array<Association>, len: nat, t: nat) returns (kept: nat)
    requires len <= open.Length
    modifies open
    ensures kept <= len && open[..kept] == Open(old(open[..len]), t)
  {
    ghost var was := open[..len];
    kept := 0;
    for i := 0 to len
      invariant kept <= i
      invariant open[..kept] == Open(was[..i], t)
      invariant forall j :: i <= j < len ==> open[j] == was[j]
    {
      assert was[..i + 1][..i] == was[..i];
      if open[i].End() >= t {
        open[kept] := open[i];
        kept := kept + 1;
      }
    }
    assert was[..len] == was;
  }

  function Relate(s: Association, cur: Association): Relationship {
    Relationship(if s.Start() == cur.Start() && s.End() == cur.End() then EqualCIDR else Contains, s, cur)
  }

  ghost function Meanings(rels: seq<Relationship>): multiset<Relation> {
    if rels == [] then multiset{} else Meanings(rels[..|rels| - 1]) + multiset{Meaning(rels[|rels| - 1])}
  }

  ghost predicate Follows(prefix: seq<Association>, cur: Association) {
    forall a :: a in prefix ==> !Before(cur, a)
  }

  /** An earlier item that is still open contains cur; one that is not open shares nothing with it. */
  lemma OpenContains(s: Association, cur: Association)
    requires s.net.Valid() && cur.net.Valid() && !Before(cur, s)
    ensures s.End() >= cur.Start() <==> Share(s, cur)
    ensures Share(s, cur) ==> s.net.bits <= cur.net.bits && cur.End() <= s.End()
    ensures Share(s, cur) && Comparable(s, cur) ==> multiset{Meaning(Relate(s, cur))} == CompareValid(s, cur)
  {
    assert s.Start() <= cur.Start();
    if Share(s, cur) {
      if s.net.bits <= cur.net.bits {
        Laminar(s.net, cur.net, cur.Start());
      } else {
        Laminar(cur.net, s.net, cur.Start());
      }
    }
  }

  /** The relationships cur adds against the items open when it is reached. */
  ghost function Against(open: seq<Association>, cur: Association): seq<Relationship> {
    if open == [] then []
    else
      var s := open[|open| - 1];
      Against(open[..|open| - 1], cur) + if Comparable(s, cur) then [Relate(s, cur)] else []
  }

  /** The open list once every item of s has been swept. */
  ghost function OpenAfter(s: seq<Association>): seq<Association> {
    if s == [] then [] else Open(s, s[|s| - 1].Start())
  }

  /** Everything the sweep emits over a sorted list. */
  ghost function Emitted(s: seq<Association>): seq<Relationship> {
    if s == [] then []
    else
      var init, cur := s[..|s| - 1], s[|s| - 1];
      Emitted(init) + Against(Open(init, cur.Start()), cur)
  }

  /** How often the filter loop runs over a sorted list. */
  ghost function Steps(s: seq<Association>): nat {
    if s == [] then 0 else Steps(s[..|s| - 1]) + |OpenAfter(s[..|s| - 1])|
  }

  lemma OpenStep(s: seq<Association>, k: nat)
    requires Sorted(Before, s) && k < |s|
    ensures Open(OpenAfter(s[..k]), s[k].Start()) == Open(s[..k], s[k].Start())
    ensures OpenAfter(s[..k + 1]) == Open(s[..k], s[k].Start()) + [s[k]]
    ensures Emitted(s[..k + 1]) == Emitted(s[..k]) + Against(Open(s[..k], s[k].Start()), s[k])
    ensures Steps(s[..k + 1]) == Steps(s[..k]) + |OpenAfter(s[..k])|
  {
    assert s[..k + 1][..k] == s[..k] && s[..k + 1][k] == s[k];
    if k > 0 {
      assert s[..k][k - 1] == s[k - 1] && !Before(s[k], s[k - 1]);
      OpenTwice(s[..k], s[k - 1].Start(), s[k].Start());
    }
  }

  /** cur against every open item. */
  method CompareOpen(open: array<Association>, len: nat, cur: Association) returns (rels: seq<Relationship>)
    requires len <= open.Length
    ensures rels == Against(open[..len], cur)
  {
    rels := [];
    for i := 0 to len
      invariant rels == Against(open[..i], cur)
    {
      assert open[..i + 1][..i] == open[..i];
      var s := open[i];
      if s.Fixed? && cur.Fixed? {
        continue;
      }
      if s.Observed? && cur.Observed? && s.VpcKey() == cur.VpcKey() {
        continue;
      }
      if s.Start() == cur.Start() && s.End() == cur.End() {
        rels := rels + [Relationship(EqualCIDR, s, cur)];
      } else {
        rels := rels + [Relationship(Contains, s, cur)];
      }
    }
  }

  /** One item of the sweep: close what ended, compare with what is open, open the item. */
  method Visit(open: array<Association>, len: nat, cur: Association) returns (len': nat, found: seq<Relationship>)
    requires len < open.Length
    modifies open
    ensures len' <= len + 1 && open[..len'] == Open(old(open[..len]), cur.Start()) + [cur]
    ensures found == Against(Open(old(open[..len]), cur.Start()), cur)
  {
    len' := Compact(open, len, cur.Start());
    found := CompareOpen(open, len', cur);
    ghost var kept := open[..len'];
    open[len'] := cur;
    assert open[..len'] == kept;
    len' := len' + 1;
  }

  /** The pass itself, with storage for as many open items as there are items. */
  method SweepSorted(sorted: seq<Association>, open: array<Association>)
    returns (rels: seq<Relationship>, ghost steps: nat)
    requires Sorted(Before, sorted) && open.Length == |sorted|
    modifies open
    ensures rels == Emitted(sorted) && steps == Steps(sorted)
  {
    var len: nat := 0;
    rels, steps := [], 0;
    for k := 0 to |sorted|
      invariant len <= k && open[..len] == OpenAfter(sorted[..k])
      invariant rels == Emitted(sorted[..k])
      invariant steps == Steps(sorted[..k])
    {
      steps := steps + len;
      OpenStep(sorted, k);
      var found;
      len, found := Visit(open, len, sorted[k]);
      rels := rels + found;
    }
    assert sorted[..|sorted|] == sorted;
  }

  method Sweep(items: seq<Association>) returns (rels: seq<Relationship>, ghost steps: nat)
    ensures rels == Emitted(Sort(Before, items))
    ensures steps == Steps(Sort(Before, items))
  {
    var sorted := Sort(Before, items);
    BeforeOrders();
    SortSorts(Before, items);
    var open := new Association[|sorted|](i requires 0 <= i < |sorted| => sorted[i]);
    rels, steps := SweepSorted(sorted, open);
  }

  // ----- the sweep is the brute force -----

  lemma {:induction false} MeaningsAppend(r: seq<Relationship>, t: seq<Relationship>)
    ensures Meanings(r + t) == Meanings(r) + Meanings(t)
    decreases |t|
  {
    if t == [] {
      assert r + t == r;
    } else {
      var u, m := t[..|t| - 1], multiset{Meaning(t[|t| - 1])};
      assert (r + t)[..|r + t| - 1] == r + u && (r + t)[|r + t| - 1] == t[|t| - 1];
      calc {
        Meanings(r + t);
        Meanings(r + u) + m;
        { MeaningsAppend(r, u); }
        (Meanings(r) + Meanings(u)) + m;
        Meanings(r) + (Meanings(u) + m);
      }
    }
  }

  /** Against the open part of what precedes it, cur emits exactly its comparisons with all of it. */
  lemma {:induction false} AgainstIsWith(prefix: seq<Association>, cur: Association)
    requires WellFormed(prefix + [cur]) && Follows(prefix, cur)
    ensures Meanings(Against(Open(prefix, cur.Start()), cur)) == With(CompareValid, cur, prefix)
    ensures |With(Meet, cur, prefix)| == |Open(prefix, cur.Start())|
    decreases |prefix|
  {
    if prefix != [] {
      var init, s := prefix[..|prefix| - 1], prefix[|prefix| - 1];
      assert prefix == init + [s] && s in prefix && cur in prefix + [cur] && s in prefix + [cur];
      assert forall a :: a in init ==> a in prefix && a in prefix + [cur];
      AgainstIsWith(init, cur);
      WithAppend(CompareValid, cur, init, s);
      WithAppend(Meet, cur, init, s);
      OpenContains(s, cur);
      CompareFlip(s, cur);
      var open := Open(init, cur.Start());
      if s.End() >= cur.Start() {
        assert (open + [s])[..|open|] == open;
        if Comparable(s, cur) {
          MeaningsAppend(Against(open, cur), [Relate(s, cur)]);
          assert Meanings([Relate(s, cur)]) == multiset{Meaning(Relate(s, cur))} by {
            assert [Relate(s, cur)][..0] == [];
          }
        } else {
          assert Against(open + [s], cur) == Against(open, cur) + [] == Against(open, cur);
        }
      } else {
        assert Open(prefix, cur.Start()) == open;
      }
    }
  }

  lemma {:induction false} EmittedIsPairs(s: seq<Association>)
    requires Sorted(Before, s) && WellFormed(s)
    ensures Meanings(Emitted(s)) == Pairs(CompareValid, s)
    decreases |s|
  {
    if s != [] {
      var init, cur := s[..|s| - 1], s[|s| - 1];
      assert s == init + [cur];
      assert forall a :: a in init ==> a in s;
      EmittedIsPairs(init);
      AgainstIsWith(init, cur);
      CompareSymmetric();
      PairsAppend(CompareValid, init, cur);
      MeaningsAppend(Emitted(init), Against(Open(init, cur.Start()), cur));
    }
  }

  /** Each step drops an item for good or meets an item that shares an address with cur. */
  lemma {:induction false} StepsBound(s: seq<Association>)
    requires Sorted(Before, s) && WellFormed(s)
    ensures Steps(s) + |OpenAfter(s)| == |s| + |Pairs(Meet, s)|
    decreases |s|
  {
    if s != [] {
      var init, cur := s[..|s| - 1], s[|s| - 1];
      assert s == init + [cur] && s[..|s|] == s;
      assert forall a :: a in init ==> a in s;
      StepsBound(init);
      OpenStep(s, |s| - 1);
      AgainstIsWith(init, cur);
      CompareSymmetric();
      PairsAppend(Meet, init, cur);
    }
  }

  lemma SortWellFormed(items: seq<Association>)
    requires WellFormed(items)
    ensures WellFormed(Sort(Before, items)) && Sorted(Before, Sort(Before, items))
  {
    BeforeOrders();
    SortSorts(Before, items);
    forall a | a in Sort(Before, items) ensures a.net.Valid() {
      InMultiset(Sort(Before, items), a);
      InMultiset(items, a);
    }
  }

  /**
    The sweep emits exactly one relationship for each unordered pair of items
    that share an address and are comparable, of the right kind and with the
    containing side first, and no other; and its filter runs at most once per
    item and once per intersecting pair.
   */
  lemma SweepIsBruteForce(items: seq<Association>)
    requires WellFormed(items)
    ensures Meanings(Emitted(Sort(Before, items))) == Pairs(CompareValid, items)
    ensures Steps(Sort(Before, items)) <= |items| + |Pairs(Meet, items)|
  {
    var s := Sort(Before, items);
    SortWellFormed(items);
    EmittedIsPairs(s);
    StepsBound(s);
    CompareSymmetric();
    PairsPermuted(CompareValid, s, items);
    PairsPermuted(Meet, s, items);
  }

  /** Without ties in interval and identity, the emitted list does not depend on the input order. */
  lemma SweepOrderIndependent(items: seq<Association>, shuffled: seq<Association>)
    requires multiset(items) == multiset(shuffled)
    requires forall a, b :: a in items && b in items && a.net == b.net && a.Identity() == b.Identity() ==> a == b
    requires WellFormed(items)
    ensures Emitted(Sort(Before, items)) == Emitted(Sort(Before, shuffled))
  {
    var s, t := Sort(Before, items), Sort(Before, shuffled);
    BeforeOrders();
    SortSorts(Before, items);
    SortSorts(Before, shuffled);
    forall a, b | a in s && b in s && !Before(a, b) && !Before(b, a) ensures a == b {
      InMultiset(s, a);
      InMultiset(s, b);
      InMultiset(items, a);
      InMultiset(items, b);
      StrOrder(a.Identity(), b.Identity());
      SameInterval(a.net, b.net);
    }
    SortedUnique(Before, s, t);
  }

  lemma SameInterval(p: Prefix, q: Prefix)
    requires p.Valid() && q.Valid() && p.addr == q.addr && p.Last() == q.Last()
    ensures p == q
  {
    if p.bits < q.bits { Laminar(p, q, p.addr); }
    if q.bits < p.bits { Laminar(q, p, p.addr); }
  }
}
