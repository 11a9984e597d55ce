/**
  What a conflict id identifies (internal/assess/identity.go): the kind and the
  unordered pair of resource identities. When that tells the conflicts of a
  report apart, and a report in which it does not.
 */
module ConflictIds {
  import opened Cidr
  import opened Ordering
  import opened AssessTypes
  import opened Optional
  import opened Sweep
  import opened Associations
  import opened Assessment

  ghost predicate Injective(digest: Digest) {
    forall k, a, b, l, c, d :: digest(k, a, b) == digest(l, c, d) ==> k == l && a == c && b == d
  }

  function NameOf(a: Association): string {
    a.Identity()
  }

  /** What an identifier is made from: the kind, and the two identities in either order. */
  datatype Key = Key(kind: Kind, names: set<string>)

  function RelationshipKey(r: Relationship): Key {
    Key(r.kind, {NameOf(r.x), NameOf(r.y)})
  }

  /** Relationships with one key get one identifier. */
  lemma SameKeySameId(digest: Digest, r: Relationship, q: Relationship)
    requires RelationshipKey(r) == RelationshipKey(q)
    ensures ConflictOf(digest, r).id == ConflictOf(digest, q).id
  {
    var names := {NameOf(r.x), NameOf(r.y)};
    assert NameOf(q.x) in names && NameOf(q.y) in names;
    assert NameOf(r.x) in {NameOf(q.x), NameOf(q.y)} && NameOf(r.y) in {NameOf(q.x), NameOf(q.y)};
    ConflictIdSymmetric(digest, r.kind, NameOf(r.x), NameOf(r.y));
  }

  /** For a digest that does not collide, an identifier names exactly one key. */
  lemma IdsAgreeIff(digest: Digest, r: Relationship, q: Relationship)
    requires Injective(digest)
    ensures ConflictOf(digest, r).id == ConflictOf(digest, q).id <==> RelationshipKey(r) == RelationshipKey(q)
  {
    if RelationshipKey(r) == RelationshipKey(q) {
      SameKeySameId(digest, r, q);
    }
  }

  // ----- which relationships share a key -----

  function MeaningKey(p: Relation): Key {
    Key(p.kind, set a | a in p.sides :: NameOf(a))
  }

  ghost function MeaningList(rels: seq<Relationship>): seq<Relation> {
    seq(|rels|, i requires 0 <= i < |rels| => Meaning(rels[i]))
  }

  lemma {:induction false} MeaningsListed(rels: seq<Relationship>)
    ensures Meanings(rels) == multiset(MeaningList(rels))
    decreases |rels|
  {
    if rels != [] {
      var init, r := rels[..|rels| - 1], rels[|rels| - 1];
      MeaningsListed(init);
      assert MeaningList(rels) == MeaningList(init) + [Meaning(r)];
    }
  }

  lemma KeysApartIff(rels: seq<Relationship>)
    ensures Apart(RelationshipKey, rels) <==> !Clash(MeaningKey, Meanings(rels))
  {
    var list := MeaningList(rels);
    MeaningsListed(rels);
    ApartIff(MeaningKey, list);
    forall i | 0 <= i < |rels| ensures MeaningKey(list[i]) == RelationshipKey(rels[i]) {
      MeaningHasKey(rels[i]);
    }
    assert Apart(MeaningKey, list) <==> Apart(RelationshipKey, rels);
  }

  lemma MeaningHasKey(r: Relationship)
    ensures MeaningKey(Meaning(r)) == RelationshipKey(r)
  {
  }

  // ----- the condition, over the items -----

  predicate Related(a: Association, b: Association) {
    Comparable(a, b) && Share(a, b)
  }

  function PairKey(a: Association, b: Association): Key {
    Key(if a.net == b.net then EqualCIDR else Contains, {NameOf(a), NameOf(b)})
  }

  predicate Alike(a: Association, b: Association, c: Association, d: Association) {
    Related(a, b) && Related(c, d) && PairKey(a, b) == PairKey(c, d)
  }

  /** Two different pairs of items overlap in one kind under the same two identities. */
  ghost predicate Confused(items: seq<Association>) {
    exists i, j, k, l :: DistinctPairs(|items|, i, j, k, l) && Alike(items[i], items[j], items[k], items[l])
  }

  lemma CompareKey(a: Association, b: Association)
    requires a.net.Valid() && b.net.Valid()
    ensures CompareValid(a, b) == multiset{} <==> !Related(a, b)
    ensures forall p :: p in CompareValid(a, b) ==> MeaningKey(p) == PairKey(a, b)
  {
    forall p | p in CompareValid(a, b) ensures MeaningKey(p) == PairKey(a, b) {
      assert p.sides == {a, b};
      assert p.kind == if a.net == b.net then EqualCIDR else Contains;
      NamesOf(a, b);
    }
  }

  lemma NamesOf(a: Association, b: Association)
    ensures (set x | x in {a, b} :: NameOf(x)) == {NameOf(a), NameOf(b)}
  {
  }

  lemma ComparesOnce()
    ensures AtMostOne(CompareValid)
  {
  }

  lemma AlikeIff(a: Association, b: Association, c: Association, d: Association)
    requires a.net.Valid() && b.net.Valid() && c.net.Valid() && d.net.Valid()
    ensures Alike(a, b, c, d) <==> Namesakes(CompareValid, MeaningKey, a, b, c, d)
  {
    CompareKey(a, b);
    CompareKey(c, d);
    if Alike(a, b, c, d) {
      var p :| p in CompareValid(a, b);
      var q :| q in CompareValid(c, d);
    }
  }

  lemma ConfusedIff(items: seq<Association>)
    requires WellFormed(items)
    ensures PairsAlike(CompareValid, MeaningKey, items) <==> Confused(items)
  {
    forall i, j, k, l | DistinctPairs(|items|, i, j, k, l)
      ensures Alike(items[i], items[j], items[k], items[l]) <==>
        Namesakes(CompareValid, MeaningKey, items[i], items[j], items[k], items[l])
    {
      AlikeIff(items[i], items[j], items[k], items[l]);
    }
  }

  /** The sweep relates two identities twice in one kind exactly when the items are confused. */
  lemma RelatedOnceIff(items: seq<Association>)
    requires WellFormed(items)
    ensures Apart(RelationshipKey, Emitted(Sort(Before, items))) <==> !Confused(items)
  {
    SweepIsBruteForce(items);
    KeysApartIff(Emitted(Sort(Before, items)));
    ComparesOnce();
    ConfusedIff(items);
    PairsClashIff(CompareValid, MeaningKey, items);
  }

  lemma NamedApartNotConfused(items: seq<Association>)
    requires Apart(NameOf, items)
    ensures !Confused(items)
  {
    forall i, j, k, l | 0 <= i < j < |items| && 0 <= k < l < |items| && Alike(items[i], items[j], items[k], items[l])
      ensures !DistinctPairs(|items|, i, j, k, l)
    {
      SameNames(items, i, j, k, l);
    }
  }

  lemma SameNames(items: seq<Association>, i: nat, j: nat, k: nat, l: nat)
    requires Apart(NameOf, items) && i < j < |items| && k < l < |items|
    requires {NameOf(items[i]), NameOf(items[j])} == {NameOf(items[k]), NameOf(items[l])}
    ensures i == k && j == l
  {
    var names := {NameOf(items[i]), NameOf(items[j])};
    assert NameOf(items[k]) in names && NameOf(items[l]) in names;
    assert forall m, n :: 0 <= m < |items| && 0 <= n < |items| && NameOf(items[m]) == NameOf(items[n]) ==> m == n;
  }

  /** An item related in one kind to two items of one identity. */
  ghost predicate Hub(items: seq<Association>, i: nat, j: nat, l: nat)
    requires i < |items| && j < |items| && l < |items|
  {
    i != j && i != l && j != l && Alike(items[i], items[j], items[i], items[l])
  }

  /** Such an item confuses the items. */
  lemma HubConfuses(items: seq<Association>, i: nat, j: nat, l: nat)
    requires i < |items| && j < |items| && l < |items| && Hub(items, i, j, l)
    ensures Confused(items)
  {
    var a, b := if i < j then i else j, if i < j then j else i;
    var c, d := if i < l then i else l, if i < l then l else i;
    assert Related(items[a], items[b]) && PairKey(items[a], items[b]) == PairKey(items[i], items[j]);
    assert Related(items[c], items[d]) && PairKey(items[c], items[d]) == PairKey(items[i], items[l]);
    assert DistinctPairs(|items|, a, b, c, d) && Alike(items[a], items[b], items[c], items[d]);
  }

  /** Two VPCs, each with both of two nested CIDRs, whose identities collide CIDR by CIDR. */
  predicate Twins(items: seq<Association>) {
    && |items| == 4 && (forall i :: 0 <= i < 4 ==> items[i].Observed?)
    && items[0].net == items[1].net && items[2].net == items[3].net && Share(items[0], items[2])
    && NameOf(items[0]) == NameOf(items[1]) && NameOf(items[2]) == NameOf(items[3]) && NameOf(items[0]) != NameOf(items[2])
    && items[0].VpcKey() == items[2].VpcKey() && items[1].VpcKey() == items[3].VpcKey() && items[0].VpcKey() != items[1].VpcKey()
  }

  lemma TwinsConfused(items: seq<Association>)
    requires Twins(items)
    ensures Confused(items)
  {
    assert Related(items[0], items[3]) && Related(items[1], items[2]);
    assert PairKey(items[0], items[3]) == PairKey(items[1], items[2]);
    assert DistinctPairs(4, 0, 3, 1, 2) && Alike(items[0], items[3], items[1], items[2]);
  }

  lemma TwinsApart(items: seq<Association>, i: nat, j: nat)
    requires Twins(items) && i < 4 && j < 4
    ensures NameOf(items[i]) == NameOf(items[j]) ==> i / 2 == j / 2
    ensures i % 2 == j % 2 ==> !Comparable(items[i], items[j])
  {
    assert i == 0 || i == 1 || i == 2 || i == 3;
    assert j == 0 || j == 1 || j == 2 || j == 3;
  }

  /** Items can be confused without such an item: the pairs that clash need have none in common. */
  lemma ConfusedWithoutHub(items: seq<Association>)
    requires Twins(items)
    ensures Confused(items) && forall i: nat, j: nat, l: nat :: i < 4 && j < 4 && l < 4 ==> !Hub(items, i, j, l)
  {
    TwinsConfused(items);
    forall i: nat, j: nat, l: nat | i < 4 && j < 4 && l < 4 ensures !Hub(items, i, j, l) {
      TwinsNoHub(items, i, j, l);
    }
  }

  lemma TwinsNoHub(items: seq<Association>, i: nat, j: nat, l: nat)
    requires Twins(items) && i < 4 && j < 4 && l < 4
    ensures !Hub(items, i, j, l)
  {
    if Hub(items, i, j, l) {
      OtherNames(NameOf(items[i]), NameOf(items[j]), NameOf(items[l]));
    }
    TwinsApart(items, j, l);
    TwinsApart(items, i, j);
    TwinsApart(items, i, l);
  }

  lemma OtherNames(a: string, b: string, c: string)
    requires {a, b} == {a, c}
    ensures b == c
  {
    assert b in {a, c} && c in {a, b};
  }

  // ----- identities tell resources apart -----

  /** No field that the identity joins with colons holds one. */
  predicate PlainRecord(r: Record) {
    Lacks(r.account, ':') && Lacks(r.region, ':') && Lacks(r.resource, ':') && Lacks(r.cidr, ':')
  }

  function Ending(r: Record): string {
    if r.association.Some? && r.association.value != "" then ":" + r.association.value else ""
  }

  lemma IdentityParts(r: Record)
    ensures r.Identity() == "aws:" + (r.account + (":" + (r.region + (":" + (r.resource + (":" + (r.cidr + Ending(r))))))))
  {
  }

  /** Two plain records with one identity are observations of one association. */
  lemma IdentityDeterminesKey(a: Record, b: Record)
    requires PlainRecord(a) && PlainRecord(b) && a.Identity() == b.Identity()
    ensures KeyOf(a) == KeyOf(b)
  {
    IdentityParts(a);
    IdentityParts(b);
    var a3, b3 := a.cidr + Ending(a), b.cidr + Ending(b);
    var a2, b2 := a.resource + (":" + a3), b.resource + (":" + b3);
    var a1, b1 := a.region + (":" + a2), b.region + (":" + b2);
    TailsAgree("aws:", a.account + (":" + a1), b.account + (":" + b1));
    FieldAgrees(':', a.account, a1, b.account, b1);
    FieldAgrees(':', a.region, a2, b.region, b2);
    FieldAgrees(':', a.resource, a3, b.resource, b3);
    SplitUnique(':', a.cidr, Ending(a), b.cidr, Ending(b));
    EndingDetermines(a, b);
  }

  lemma EndingDetermines(a: Record, b: Record)
    requires Ending(a) == Ending(b)
    ensures a.association.UnwrapOr("") == b.association.UnwrapOr("")
  {
    var u, v := a.association.UnwrapOr(""), b.association.UnwrapOr("");
    assert Ending(a) == if u != "" then ":" + u else "";
    assert Ending(b) == if v != "" then ":" + v else "";
    if u != "" && v != "" {
      TailsAgree(":", u, v);
    }
  }

  // ----- the items of an assessment -----

  lemma {:induction false} ObservedApart(parse: Parser, rows: seq<Record>)
    requires forall i, j :: 0 <= i < j < |rows| ==> rows[i].Identity() != rows[j].Identity()
    ensures Apart(NameOf, ObservedItems(parse, rows))
    ensures forall a :: a in ObservedItems(parse, rows) ==> a.Observed? && a.rec in rows
    decreases |rows|
  {
    if rows != [] {
      var init, r := rows[..|rows| - 1], rows[|rows| - 1];
      ObservedApart(parse, init);
      var items := ObservedItems(parse, init);
      if parse(r.cidr).Some? {
        var x := Observed(parse(r.cidr).value, r);
        forall i | 0 <= i < |items| ensures NameOf(items[i]) != NameOf(x) {
          assert items[i] in items;
          var j :| 0 <= j < |init| && init[j] == items[i].rec;
          assert rows[j].Identity() != r.Identity();
        }
        ApartAppend(NameOf, items, x);
      }
    }
  }

  lemma {:induction false} FixedApart(parse: Parser, rows: seq<FixedRange>)
    ensures Apart(NameOf, FixedItems(parse, rows))
    ensures forall a :: a in FixedItems(parse, rows) ==> a.Fixed? && Named(rows, a.fx.cidr)
    decreases |rows|
  {
    if rows != [] {
      var init, fx := rows[..|rows| - 1], rows[|rows| - 1];
      FixedApart(parse, init);
      var items := FixedItems(parse, init);
      forall c | Named(init, c) || c == fx.cidr ensures Named(rows, c) {
        if Named(init, c) {
          var i :| 0 <= i < |init| && init[i].cidr == c;
          assert rows[i].cidr == c;
        }
      }
      if parse(fx.cidr).Some? && !Named(init, fx.cidr) {
        var x := Fixed(parse(fx.cidr).value, fx);
        forall i | 0 <= i < |items| ensures NameOf(items[i]) != NameOf(x) {
          assert items[i] in items;
          if NameOf(items[i]) == NameOf(x) { TailsAgree("fixed:", items[i].fx.cidr, fx.cidr); }
        }
        ApartAppend(NameOf, items, x);
      }
    }
  }

  lemma ItemsApart(parse: Parser, input: Input, survivors: seq<Record>, fixed: seq<FixedRange>)
    requires IsDeduped(KeyOf, input.records, survivors)
    requires forall r :: r in input.records && r.kind == TYPE_VPC ==> PlainRecord(r)
    ensures Apart(NameOf, Items(parse, survivors, fixed))
  {
    forall i, j | 0 <= i < j < |survivors| ensures survivors[i].Identity() != survivors[j].Identity() {
      var a, b := survivors[i], survivors[j];
      SurvivorObserved(input, survivors, a);
      SurvivorObserved(input, survivors, b);
      StrOrder(KeyOf(a), KeyOf(b));
      if a.Identity() == b.Identity() { IdentityDeterminesKey(a, b); }
    }
    ObservedApart(parse, survivors);
    FixedApart(parse, Sort(FixedBefore, fixed));
    ObservedNotFixed(ObservedItems(parse, survivors), FixedItems(parse, Sort(FixedBefore, fixed)));
  }

  lemma ObservedNotFixed(s: seq<Association>, t: seq<Association>)
    requires Apart(NameOf, s) && Apart(NameOf, t)
    requires (forall a :: a in s ==> a.Observed?) && (forall a :: a in t ==> a.Fixed?)
    ensures Apart(NameOf, s + t)
  {
    forall i, j | 0 <= i < |s| && 0 <= j < |t| ensures NameOf(s[i]) != NameOf(t[j]) {
      assert s[i] in s && t[j] in t;
      IdentityParts(s[i].rec);
      assert NameOf(s[i])[0] == 'a' && NameOf(t[j])[0] == 'f';
    }
  }

  function IdOf(c: Conflict): string {
    c.id
  }

  /**
    For a digest that does not collide, the identifiers of a report tell its
    conflicts apart exactly when its items are not confused.
   */
  lemma ReportIdsDistinctIff(
    parse: Parser, digest: Digest, input: Input, fixed: seq<FixedRange>, survivors: seq<Record>, report: Report)
    requires Reports(parse, digest, input, fixed, survivors, report) && Injective(digest)
    ensures Apart(IdOf, report.conflicts) <==> !Confused(Items(parse, survivors, fixed))
  {
    var rels := Relationships(parse, survivors, fixed);
    ItemsWellFormed(parse, survivors, fixed);
    RelatedOnceIff(Items(parse, survivors, fixed));
    ConflictsApartIff(digest, rels);
    PermutedApartIff(Conflicts(digest, rels), report.conflicts);
  }

  lemma ItemsWellFormed(parse: Parser, survivors: seq<Record>, fixed: seq<FixedRange>)
    ensures WellFormed(Items(parse, survivors, fixed))
  {
    forall a | a in Items(parse, survivors, fixed) ensures a.net.Valid() {
      ItemsFrom(parse, survivors, fixed, a);
    }
  }

  lemma ConflictsApartIff(digest: Digest, rels: seq<Relationship>)
    requires Injective(digest)
    ensures Apart(IdOf, Conflicts(digest, rels)) <==> Apart(RelationshipKey, rels)
  {
    var conflicts := Conflicts(digest, rels);
    forall i, j | 0 <= i < j < |rels|
      ensures IdOf(conflicts[i]) == IdOf(conflicts[j]) <==> RelationshipKey(rels[i]) == RelationshipKey(rels[j])
    {
      IdsAgreeIff(digest, rels[i], rels[j]);
    }
  }

  lemma PermutedApartIff(s: seq<Conflict>, t: seq<Conflict>)
    requires multiset(s) == multiset(t)
    ensures Apart(IdOf, s) <==> Apart(IdOf, t)
  {
    if Apart(IdOf, s) { ApartPermuted(IdOf, s, t); }
    if Apart(IdOf, t) { ApartPermuted(IdOf, t, s); }
  }

  /** In particular when no field that an identity joins holds a colon. */
  lemma ReportIdsDistinct(
    parse: Parser, digest: Digest, input: Input, fixed: seq<FixedRange>, survivors: seq<Record>, report: Report)
    requires Reports(parse, digest, input, fixed, survivors, report) && Injective(digest)
    requires forall r :: r in input.records && r.kind == TYPE_VPC ==> PlainRecord(r)
    ensures Apart(IdOf, report.conflicts)
  {
    ItemsApart(parse, input, survivors, fixed);
    NamedApartNotConfused(Items(parse, survivors, fixed));
    ReportIdsDistinctIff(parse, digest, input, fixed, survivors, report);
  }

  // ----- a report whose identifiers do not tell its conflicts apart -----

  function VpcRow(account: string, region: string, vpc: string, cidr: string, row: int): Record {
    Record(account, region, TYPE_VPC, vpc, cidr, None, "", "", "inventory.json", row)
  }

  /** Three VPC rows with one CIDR: two that share an identity but no key, and one in a VPC of its own. */
  predicate Colliding(a: Record, b: Record, c: Record) {
    && a.kind == b.kind == c.kind == TYPE_VPC && a.cidr == b.cidr == c.cidr && ThreeKeys(KeyOf, a, b, c)
    && a.Identity() == b.Identity() && a.VpcKey() != c.VpcKey() && b.VpcKey() != c.VpcKey()
  }

  predicate ThreeKeys(key: Record -> string, a: Record, b: Record, c: Record) {
    key(a) != key(b) && key(b) != key(c) && key(a) != key(c)
  }

  /** Account 1:2 in region 3, and account 1 in region 2:3. */
  lemma ColonsJoin(vpc: string, cidr: string, i: int, j: int)
    ensures VpcRow("1:2", "3", vpc, cidr, i).Identity() == VpcRow("1", "2:3", vpc, cidr, j).Identity() ==
      "aws:1:2:3:" + vpc + ":" + cidr
    ensures VpcRow("1:2", "3", vpc, cidr, i).VpcKey() != VpcRow("1", "2:3", vpc, cidr, j).VpcKey()
  {
    var a, b := VpcRow("1:2", "3", vpc, cidr, i), VpcRow("1", "2:3", vpc, cidr, j);
    var rest := ":" + vpc + ":" + cidr;
    assert a.Identity() == "aws:1:2:3" + rest && b.Identity() == "aws:1:2:3" + rest;
    assert a.VpcKey()[1] == ':' && b.VpcKey()[1] == SEP[0];
  }

  /** Such accounts, each with a VPC of two nested CIDRs, are twins. */
  lemma ColonsTwin(vpc: string, outer: string, inner: string, p: Prefix, q: Prefix)
    requires outer != inner && p.addr <= q.addr <= p.Last()
    ensures Twins([
      Observed(p, VpcRow("1:2", "3", vpc, outer, 1)), Observed(p, VpcRow("1", "2:3", vpc, outer, 2)),
      Observed(q, VpcRow("1:2", "3", vpc, inner, 3)), Observed(q, VpcRow("1", "2:3", vpc, inner, 4))])
  {
    ColonsJoin(vpc, outer, 1, 2);
    ColonsJoin(vpc, inner, 3, 4);
    var joined := "aws:1:2:3:" + vpc + ":";
    if joined + outer == joined + inner {
      TailsAgree(joined, outer, inner);
    }
  }

  /** Account 1:2 in region 3, account 1 in region 2:3, and a third. */
  lemma ColonsCollide(vpc: string, cidr: string)
    ensures Colliding(VpcRow("1:2", "3", vpc, cidr, 1), VpcRow("1", "2:3", vpc, cidr, 2), VpcRow("9", "3", vpc, cidr, 3))
  {
    var a, b, c := VpcRow("1:2", "3", vpc, cidr, 1), VpcRow("1", "2:3", vpc, cidr, 2), VpcRow("9", "3", vpc, cidr, 3);
    ColonsJoin(vpc, cidr, 1, 2);
    assert KeyOf(a)[0] == '1' && KeyOf(b)[0] == '1' && KeyOf(c)[0] == '9' && KeyOf(a)[1] == ':' && KeyOf(b)[1] == SEP[0];
    assert a.VpcKey()[0] == '1' && b.VpcKey()[0] == '1' && c.VpcKey()[0] == '9';
  }

  /** When every row parses, each is the item at its own position. */
  lemma {:induction false} AllObserved(parse: Parser, rows: seq<Record>, i: nat)
    requires i < |rows| && forall k :: 0 <= k < |rows| ==> parse(rows[k].cidr).Some?
    ensures |ObservedItems(parse, rows)| == |rows| && ObservedItems(parse, rows)[i] == Observed(parse(rows[i].cidr).value, rows[i])
    decreases |rows|
  {
    var init, r := rows[..|rows| - 1], rows[|rows| - 1];
    assert ObservedItems(parse, rows) == ObservedItems(parse, init) + [Observed(parse(r.cidr).value, r)];
    if i < |init| {
      AllObserved(parse, init, i);
    } else if init != [] {
      AllObserved(parse, init, 0);
    }
  }

  /** No other row has its key. */
  ghost predicate Sole(key: Record -> string, records: seq<Record>, r: Record) {
    r in records && r.kind == TYPE_VPC && forall q :: q in records && key(q) == key(r) ==> q == r
  }

  lemma SoleSurvives(key: Record -> string, records: seq<Record>, survivors: seq<Record>, r: Record) returns (i: nat)
    requires IsDeduped(key, records, survivors) && Sole(key, records, r)
    ensures i < |survivors| && survivors[i] == r
  {
    i :| 0 <= i < |survivors| && key(survivors[i]) == key(r);
    GroupMembers(key, records, key(r), survivors[i]);
  }

  /** The survivors are rows, no two under one key. */
  ghost predicate Kept(key: Record -> string, records: seq<Record>, survivors: seq<Record>) {
    Apart(key, survivors) && forall i :: 0 <= i < |survivors| ==> survivors[i] in records
  }

  lemma RisingApart(key: Record -> string, survivors: seq<Record>)
    requires forall i, j :: 0 <= i < j < |survivors| ==> StrLess(key(survivors[i]), key(survivors[j]))
    ensures Apart(key, survivors)
  {
    forall i, j | 0 <= i < j < |survivors| ensures key(survivors[i]) != key(survivors[j]) {
      StrOrder(key(survivors[i]), key(survivors[j]));
    }
  }

  lemma FirstAmong(key: Record -> string, records: seq<Record>, r: Record)
    requires IsFirst(r, Group(key, records, key(r)))
    ensures r in records
  {
    GroupMembers(key, records, key(r), r);
  }

  lemma DedupedKept(key: Record -> string, records: seq<Record>, survivors: seq<Record>)
    requires IsDeduped(key, records, survivors)
    ensures Kept(key, records, survivors)
  {
    RisingApart(key, survivors);
    forall i | 0 <= i < |survivors| ensures survivors[i] in records {
      FirstAmong(key, records, survivors[i]);
    }
  }

  lemma ThirdMeetsBoth(items: seq<Association>, net: Prefix, a: Record, b: Record, c: Record, i: nat, j: nat, k: nat)
    requires i < |items| && j < |items| && k < |items| && Colliding(a, b, c)
    requires items[i] == Observed(net, a) && items[j] == Observed(net, b) && items[k] == Observed(net, c)
    ensures Confused(items)
  {
    assert Comparable(items[k], items[i]) && Comparable(items[k], items[j]);
    assert NameOf(items[i]) == NameOf(items[j]);
    assert i != j && i != k && j != k;
    assert Hub(items, k, i, j);
    HubConfuses(items, k, i, j);
  }

  /** The items of three such rows: the third meets both of the others. */
  lemma ThreeConfused(parse: Parser, survivors: seq<Record>, a: Record, b: Record, c: Record, i: nat, j: nat, k: nat)
    requires i < |survivors| && j < |survivors| && k < |survivors| && forall r :: r in survivors ==> r.cidr == a.cidr
    requires survivors[i] == a && survivors[j] == b && survivors[k] == c && Colliding(a, b, c) && parse(a.cidr).Some?
    ensures Confused(Items(parse, survivors, []))
  {
    PlacedAt(parse, survivors, i);
    PlacedAt(parse, survivors, j);
    PlacedAt(parse, survivors, k);
    ThirdMeetsBoth(Items(parse, survivors, []), parse(a.cidr).value, a, b, c, i, j, k);
  }

  lemma PlacedAt(parse: Parser, rows: seq<Record>, i: nat)
    requires i < |rows| && forall r :: r in rows ==> parse(r.cidr).Some?
    ensures i < |Items(parse, rows, [])| && Items(parse, rows, [])[i] == Observed(parse(rows[i].cidr).value, rows[i])
  {
    AllObserved(parse, rows, i);
  }

  lemma ConfusedShares(
    parse: Parser, digest: Digest, input: Input, fixed: seq<FixedRange>, survivors: seq<Record>, report: Report)
    requires Reports(parse, digest, input, fixed, survivors, report) && Confused(Items(parse, survivors, fixed))
    ensures !Apart(IdOf, report.conflicts)
  {
    var rels := Relationships(parse, survivors, fixed);
    ItemsWellFormed(parse, survivors, fixed);
    RelatedOnceIff(Items(parse, survivors, fixed));
    var i, j :| 0 <= i < j < |rels| && RelationshipKey(rels[i]) == RelationshipKey(rels[j]);
    SameKeySameId(digest, rels[i], rels[j]);
    var conflicts := Conflicts(digest, rels);
    assert IdOf(conflicts[i]) == IdOf(conflicts[j]);
    PermutedApartIff(conflicts, report.conflicts);
  }

  // ----- three rows are within the cap -----

  lemma {:induction false} FewEmitted(s: seq<Association>)
    requires |s| <= 3
    ensures |Emitted(s)| <= 3 * |s|
    decreases |s|
  {
    if s != [] {
      var init, cur := s[..|s| - 1], s[|s| - 1];
      FewEmitted(init);
      FewOpen(init, cur.Start());
      FewAgainst(Open(init, cur.Start()), cur);
    }
  }

  lemma {:induction false} FewOpen(s: seq<Association>, t: nat)
    ensures |Open(s, t)| <= |s|
    decreases |s|
  {
    if s != [] {
      FewOpen(s[..|s| - 1], t);
    }
  }

  lemma {:induction false} FewAgainst(open: seq<Association>, cur: Association)
    ensures |Against(open, cur)| <= |open|
    decreases |open|
  {
    if open != [] {
      FewAgainst(open[..|open| - 1], cur);
    }
  }

  lemma {:induction false} FewSurvivors(key: Record -> string, records: seq<Record>, survivors: seq<Record>, rows: set<Record>)
    requires Kept(key, records, survivors) && forall i :: 0 <= i < |survivors| ==> survivors[i] in rows
    ensures |survivors| <= |rows|
    decreases |survivors|
  {
    if survivors != [] {
      var init, r := survivors[..|survivors| - 1], survivors[|survivors| - 1];
      assert forall i :: 0 <= i < |init| ==> init[i] == survivors[i] && key(init[i]) != key(r);
      FewSurvivors(key, records, init, rows - {r});
    }
  }

  lemma ThreeWithin(parse: Parser, survivors: seq<Record>)
    requires |survivors| <= 3
    ensures |Relationships(parse, survivors, [])| <= 9
  {
    FewItems(parse, survivors);
    FewEmitted(Sort(Before, Items(parse, survivors, [])));
  }

  lemma {:induction false} FewItems(parse: Parser, rows: seq<Record>)
    ensures |Items(parse, rows, [])| <= |rows|
    decreases |rows|
  {
    if rows != [] {
      FewItems(parse, rows[..|rows| - 1]);
    }
  }

  lemma CollidingKept(parse: Parser, records: seq<Record>, survivors: seq<Record>, a: Record, b: Record, c: Record)
    requires Kept(KeyOf, records, survivors) && records == [a, b, c] && a.cidr == b.cidr == c.cidr
    ensures |Relationships(parse, survivors, [])| <= 9 && forall r :: r in survivors ==> r.cidr == a.cidr
  {
    assert forall r :: r in records ==> r in {a, b, c};
    FewSurvivors(KeyOf, records, survivors, {a, b, c});
    ThreeWithin(parse, survivors);
  }

  lemma AllSole(key: Record -> string, records: seq<Record>, a: Record, b: Record, c: Record)
    requires records == [a, b, c] && ThreeKeys(key, a, b, c) && a.kind == b.kind == c.kind == TYPE_VPC
    ensures Sole(key, records, a) && Sole(key, records, b) && Sole(key, records, c)
  {
  }

  lemma CollidingConfuse(parse: Parser, records: seq<Record>, survivors: seq<Record>, a: Record, b: Record, c: Record)
    requires IsDeduped(KeyOf, records, survivors) && records == [a, b, c] && Colliding(a, b, c) && parse(a.cidr).Some?
    requires forall r :: r in survivors ==> r.cidr == a.cidr
    ensures Confused(Items(parse, survivors, []))
  {
    AllSole(KeyOf, records, a, b, c);
    var i := SoleSurvives(KeyOf, records, survivors, a);
    var j := SoleSurvives(KeyOf, records, survivors, b);
    var k := SoleSurvives(KeyOf, records, survivors, c);
    ThreeConfused(parse, survivors, a, b, c, i, j, k);
  }

  lemma CollidingAssessed(parse: Parser, records: seq<Record>, survivors: seq<Record>, a: Record, b: Record, c: Record)
    requires records == [a, b, c] && Colliding(a, b, c) && parse(a.cidr).Some?
    ensures IsDeduped(KeyOf, records, survivors) ==>
      |Relationships(parse, survivors, [])| <= 9 && Confused(Items(parse, survivors, []))
  {
    if IsDeduped(KeyOf, records, survivors) {
      DedupedKept(KeyOf, records, survivors);
      CollidingKept(parse, records, survivors, a, b, c);
      CollidingConfuse(parse, records, survivors, a, b, c);
    }
  }

  lemma AllAttributable(records: seq<Record>, a: Record, b: Record, c: Record)
    requires records == [a, b, c] && Attributable(a) && Attributable(b) && Attributable(c)
    ensures !exists i :: 0 <= i < |records| && !Attributable(records[i])
  {
  }

  /**
    An input of such rows is assessed, whatever else it says, and two conflicts
    of its report have one identifier, whatever the digest.
   */
  method AssessColliding(parse: Parser, digest: Digest, input: Input, a: Record, b: Record, c: Record) returns (r: AssessResult)
    requires input.records == [a, b, c] && Colliding(a, b, c) && parse(a.cidr).Some?
    requires Attributable(a) && Attributable(b) && Attributable(c)
    ensures r.Assessed? && !Apart(IdOf, r.report.conflicts)
  {
    ghost var survivors;
    AllAttributable(input.records, a, b, c);
    r, survivors := Assess(parse, digest, input, [], 0);
    CollidingAssessed(parse, input.records, survivors, a, b, c);
    assert r.Assessed?;
    ConfusedShares(parse, digest, input, [], survivors, r.report);
  }

  /**
    Account 1:2 in region 3, account 1 in region 2:3 and a third account, each
    with a VPC at one CIDR.
   */
  method ReportIdsCollide(parse: Parser, digest: Digest, vpc: string, cidr: string) returns (r: AssessResult)
    requires parse(cidr).Some? && cidr != "" && vpc != ""
    ensures r.Assessed? && !Apart(IdOf, r.report.conflicts)
  {
    var a, b, c := VpcRow("1:2", "3", vpc, cidr, 1), VpcRow("1", "2:3", vpc, cidr, 2), VpcRow("9", "3", vpc, cidr, 3);
    ColonsCollide(vpc, cidr);
    r := AssessColliding(parse, digest, Input([a, b, c], [], [], None), a, b, c);
  }
}
