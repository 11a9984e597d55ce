/**
  The assessment told from the rows it was given (internal/assess): which VPC
  rows and fixed ranges it compares, when it reports a conflict, and what the
  conflict says.
 */
module Estate {
  import opened Cidr
  import opened Ordering
  import opened AssessTypes
  import opened Optional
  import opened Sweep
  import opened Associations
  import opened Assessment
  import ConflictIds

  // ----- rows, and the keys they are compared by -----

  /** The fields that the keys join do not hold their separator. */
  predicate Separable(r: Record) {
    && Lacks(r.account, SEP[0]) && Lacks(r.region, SEP[0]) && Lacks(r.resource, SEP[0]) && Lacks(r.cidr, SEP[0])
  }

  predicate SameVpc(a: Record, b: Record) {
    a.account == b.account && a.region == b.region && a.resource == b.resource
  }

  /** Observations of one association: one CIDR of one VPC, under one association id if any. */
  predicate SameAssociation(a: Record, b: Record) {
    SameVpc(a, b) && a.cidr == b.cidr && a.association.UnwrapOr("") == b.association.UnwrapOr("")
  }

  lemma DedupeKeyParts(r: Record)
    ensures r.DedupeKey() ==
      r.account + (SEP + (r.region + (SEP + (r.resource + (SEP + (r.cidr + (SEP + r.association.UnwrapOr(""))))))))
  {
  }

  lemma DedupeKeyIff(a: Record, b: Record)
    requires Separable(a) && Separable(b)
    ensures KeyOf(a) == KeyOf(b) <==> SameAssociation(a, b)
  {
    if KeyOf(a) == KeyOf(b) {
      DedupeKeyParts(a);
      DedupeKeyParts(b);
      var a3, b3 := a.cidr + (SEP + a.association.UnwrapOr("")), b.cidr + (SEP + b.association.UnwrapOr(""));
      var a2, b2 := a.resource + (SEP + a3), b.resource + (SEP + b3);
      var a1, b1 := a.region + (SEP + a2), b.region + (SEP + b2);
      FieldAgrees(SEP[0], a.account, a1, b.account, b1);
      FieldAgrees(SEP[0], a.region, a2, b.region, b2);
      FieldAgrees(SEP[0], a.resource, a3, b.resource, b3);
      FieldAgrees(SEP[0], a.cidr, a.association.UnwrapOr(""), b.cidr, b.association.UnwrapOr(""));
    }
  }

  /** A subject, a side and a row are joined in the same way. */
  lemma JoinIff(a: string, b: string, c: string, a': string, b': string, c': string)
    requires Lacks(a, SEP[0]) && Lacks(b, SEP[0]) && Lacks(a', SEP[0]) && Lacks(b', SEP[0])
    ensures a + SEP + b + SEP + c == a' + SEP + b' + SEP + c' <==> a == a' && b == b' && c == c'
  {
    assert a + SEP + b + SEP + c == a + (SEP + (b + (SEP + c)));
    assert a' + SEP + b' + SEP + c' == a' + (SEP + (b' + (SEP + c')));
    if a + SEP + b + SEP + c == a' + SEP + b' + SEP + c' {
      FieldAgrees(SEP[0], a, b + (SEP + c), a', b' + (SEP + c'));
      FieldAgrees(SEP[0], b, c, b', c');
    }
  }

  lemma VpcKeyIff(a: Record, b: Record)
    requires Separable(a) && Separable(b) && a.kind == b.kind == TYPE_VPC
    ensures a.VpcKey() == b.VpcKey() <==> SameVpc(a, b)
  {
    JoinIff(a.account, a.region, a.resource, b.account, b.region, b.resource);
  }

  /** Every VPC row of the input is separable. */
  ghost predicate RowsSeparable(input: Input) {
    forall r :: r in input.records && r.kind == TYPE_VPC ==> Separable(r)
  }

  // ----- the items are the rows -----

  ghost predicate VpcRow(input: Input, r: Record) {
    r in input.records && r.kind == "vpc"
  }

  lemma {:induction false} ObservedHas(parse: Parser, rows: seq<Record>, r: Record)
    requires r in rows && parse(r.cidr).Some?
    ensures Observed(parse(r.cidr).value, r) in ObservedItems(parse, rows)
    decreases |rows|
  {
    var init := rows[..|rows| - 1];
    assert rows == init + [rows[|rows| - 1]];
    if r in init {
      ObservedHas(parse, init, r);
    }
  }

  lemma {:induction false} FixedHas(parse: Parser, rows: seq<FixedRange>, f: FixedRange)
    requires f in rows && parse(f.cidr).Some?
    ensures exists a :: a in FixedItems(parse, rows) && a.Fixed? && a.fx.cidr == f.cidr
    decreases |rows|
  {
    var init, last := rows[..|rows| - 1], rows[|rows| - 1];
    assert rows == init + [last];
    if f in init {
      FixedHas(parse, init, f);
      var a :| a in FixedItems(parse, init) && a.Fixed? && a.fx.cidr == f.cidr;
      assert a in FixedItems(parse, rows);
    } else if Named(init, f.cidr) {
      var i :| 0 <= i < |init| && init[i].cidr == f.cidr;
      FixedHas(parse, init, init[i]);
      var a :| a in FixedItems(parse, init) && a.Fixed? && a.fx.cidr == init[i].cidr;
      assert a in FixedItems(parse, rows);
    } else {
      assert Fixed(parse(f.cidr).value, f) in FixedItems(parse, rows);
    }
  }

  /** The item tells of this row: the same association at the network its CIDR parses to. */
  predicate ItemOf(parse: Parser, a: Association, r: Record) {
    a.Observed? && SameAssociation(a.rec, r) && a.rec.kind == TYPE_VPC && parse(r.cidr) == Some(a.net)
  }

  predicate ItemOfFixed(parse: Parser, a: Association, f: FixedRange) {
    a.Fixed? && a.fx.cidr == f.cidr && parse(f.cidr) == Some(a.net)
  }

  /** Every VPC row whose CIDR parses has its item, and so has every such fixed range. */
  lemma RowHasItem(parse: Parser, input: Input, survivors: seq<Record>, fixed: seq<FixedRange>, r: Record)
    requires IsDeduped(KeyOf, input.records, survivors) && RowsSeparable(input) && VpcRow(input, r) && parse(r.cidr).Some?
    ensures exists a :: a in Items(parse, survivors, fixed) && ItemOf(parse, a, r)
  {
    var i :| 0 <= i < |survivors| && KeyOf(survivors[i]) == KeyOf(r);
    SurvivorObserved(input, survivors, survivors[i]);
    DedupeKeyIff(survivors[i], r);
    ObservedHas(parse, survivors, survivors[i]);
    assert ItemOf(parse, Observed(parse(r.cidr).value, survivors[i]), r);
  }

  lemma FixedHasItem(parse: Parser, survivors: seq<Record>, fixed: seq<FixedRange>, f: FixedRange)
    requires f in fixed && parse(f.cidr).Some?
    ensures exists a :: a in Items(parse, survivors, fixed) && ItemOfFixed(parse, a, f)
  {
    var sorted := Sort(FixedBefore, fixed);
    InMultiset(sorted, f);
    InMultiset(fixed, f);
    FixedHas(parse, sorted, f);
    var a :| a in FixedItems(parse, sorted) && a.Fixed? && a.fx.cidr == f.cidr;
    FixedItemsFrom(parse, sorted, a);
    assert a in Items(parse, survivors, fixed) && ItemOfFixed(parse, a, f);
  }

  /** Every item comes from a VPC row of the input, or from the fixed table. */
  lemma ItemHasRow(parse: Parser, input: Input, survivors: seq<Record>, fixed: seq<FixedRange>, a: Association)
    requires IsDeduped(KeyOf, input.records, survivors) && a in Items(parse, survivors, fixed)
    ensures a.Observed? ==> VpcRow(input, a.rec) && ItemOf(parse, a, a.rec)
    ensures a.Fixed? ==> a.fx in fixed && ItemOfFixed(parse, a, a.fx)
    ensures a.net.Valid()
  {
    ItemsFrom(parse, survivors, fixed, a);
    if a.Observed? {
      SurvivorObserved(input, survivors, a.rec);
    }
  }

  /** No two items are observations of one association. */
  lemma ItemsDistinct(parse: Parser, input: Input, survivors: seq<Record>, i: nat, j: nat)
    requires IsDeduped(KeyOf, input.records, survivors) && RowsSeparable(input) && i < j < |ObservedItems(parse, survivors)|
    ensures var items := ObservedItems(parse, survivors);
      items[i].Observed? && items[j].Observed? && !SameAssociation(items[i].rec, items[j].rec)
  {
    ConflictIds.DedupedKept(KeyOf, input.records, survivors);
    forall r | r in survivors ensures Separable(r) {
      SurvivorObserved(input, survivors, r);
    }
    KeptDistinct(parse, survivors, i, j);
  }

  lemma KeptDistinct(parse: Parser, survivors: seq<Record>, i: nat, j: nat)
    requires Apart(KeyOf, survivors) && (forall r :: r in survivors ==> Separable(r)) && i < j < |ObservedItems(parse, survivors)|
    ensures var items := ObservedItems(parse, survivors);
      items[i].Observed? && items[j].Observed? && !SameAssociation(items[i].rec, items[j].rec)
  {
    var items := ObservedItems(parse, survivors);
    DistinctItems(parse, KeyOf, survivors, i, j);
    ObservedItemsFrom(parse, survivors, items[i]);
    ObservedItemsFrom(parse, survivors, items[j]);
    DedupeKeyIff(items[i].rec, items[j].rec);
  }

  lemma {:induction false} DistinctItems(parse: Parser, key: Record -> string, rows: seq<Record>, i: nat, j: nat)
    requires Apart(key, rows) && i < j < |ObservedItems(parse, rows)|
    ensures var items := ObservedItems(parse, rows);
      items[i].Observed? && items[j].Observed? && key(items[i].rec) != key(items[j].rec)
    decreases |rows|
  {
    var init, r := rows[..|rows| - 1], rows[|rows| - 1];
    var few := ObservedItems(parse, init);
    assert forall k :: 0 <= k < |init| ==> init[k] == rows[k] && key(rows[k]) != key(r);
    if j < |few| {
      DistinctItems(parse, key, init, i, j);
    } else {
      assert few[i] in few;
      ObservedItemsFrom(parse, init, few[i]);
      var k :| 0 <= k < |init| && init[k] == few[i].rec;
    }
  }

  /** The row that stands for an association is its earliest: by source file, then by source row. */
  lemma SurvivorEarliest(input: Input, survivors: seq<Record>, i: nat, r: Record)
    requires IsDeduped(KeyOf, input.records, survivors) && i < |survivors| && VpcRow(input, r) && KeyOf(r) == KeyOf(survivors[i])
    ensures !StrLess(r.sourceFile, survivors[i].sourceFile)
    ensures r.sourceFile == survivors[i].sourceFile ==> survivors[i].sourceRow <= r.sourceRow
  {
    GroupMembers(KeyOf, input.records, KeyOf(r), r);
    assert IsFirst(survivors[i], Group(KeyOf, input.records, KeyOf(survivors[i])));
    assert !SourceLess(r, survivors[i]);
    StrOrder(r.sourceFile, survivors[i].sourceFile);
  }

  /** A note is made of every row that stands for an association, and of every fixed row, whose CIDR does not parse. */
  lemma {:induction false} RecordNotesIff(parse: Parser, rows: seq<Record>, n: Note)
    ensures n in RecordNotes(parse, rows) <==>
      exists r :: r in rows && parse(r.cidr).None? && n == Note(r.sourceFile, r.sourceRow)
    decreases |rows|
  {
    if rows != [] {
      var init, last := rows[..|rows| - 1], rows[|rows| - 1];
      RecordNotesIff(parse, init, n);
      assert rows == init + [last];
      if n in RecordNotes(parse, init) {
        var r :| r in init && parse(r.cidr).None? && n == Note(r.sourceFile, r.sourceRow);
        assert r in rows;
      }
    }
  }

  lemma {:induction false} FixedNotesIff(parse: Parser, rows: seq<FixedRange>, n: Note)
    ensures n in FixedNotes(parse, rows) <==>
      exists f :: f in rows && parse(f.cidr).None? && n == Note(f.sourceFile, f.sourceRow)
    decreases |rows|
  {
    if rows != [] {
      var init, last := rows[..|rows| - 1], rows[|rows| - 1];
      FixedNotesIff(parse, init, n);
      assert rows == init + [last];
      if n in FixedNotes(parse, init) {
        var f :| f in init && parse(f.cidr).None? && n == Note(f.sourceFile, f.sourceRow);
        assert f in rows;
      }
    }
  }

  // ----- when there is no conflict -----

  /** No two VPC rows of different VPCs, and no VPC row and fixed range, share an address. */
  ghost predicate RowsClear(parse: Parser, input: Input) {
    forall r, q :: VpcRow(input, r) && VpcRow(input, q) && !SameVpc(r, q) && parse(r.cidr).Some? && parse(q.cidr).Some? ==>
      !Meets(parse(r.cidr).value, parse(q.cidr).value)
  }

  ghost predicate FixedClear(parse: Parser, input: Input, fixed: seq<FixedRange>) {
    forall r, f :: VpcRow(input, r) && f in fixed && parse(r.cidr).Some? && parse(f.cidr).Some? ==>
      !Meets(parse(r.cidr).value, parse(f.cidr).value)
  }

  lemma ShareIff(a: Association, b: Association)
    ensures Share(a, b) <==> Meets(a.net, b.net)
  {
    if Share(a, b) {
      var x := if a.Start() <= b.Start() then b.Start() else a.Start();
      assert a.net.Has(x) && b.net.Has(x);
    }
  }

  lemma ComparableIff(a: Association, b: Association)
    requires a.Observed? ==> Separable(a.rec) && a.rec.kind == TYPE_VPC
    requires b.Observed? ==> Separable(b.rec) && b.rec.kind == TYPE_VPC
    ensures Comparable(a, b) <==> (a.Observed? || b.Observed?) && (a.Observed? && b.Observed? ==> !SameVpc(a.rec, b.rec))
  {
    if a.Observed? && b.Observed? {
      VpcKeyIff(a.rec, b.rec);
    }
  }

  lemma FreePair(items: seq<Association>, a: Association, b: Association)
    requires OverlapFree(items) && a in items && b in items && a != b && Comparable(a, b)
    ensures !Share(a, b)
  {
    var i :| 0 <= i < |items| && items[i] == a;
    var j :| 0 <= j < |items| && items[j] == b;
    assert if i < j then Comparable(items[i], items[j]) else Comparable(items[j], items[i]);
  }

  lemma ItemFacts(parse: Parser, input: Input, survivors: seq<Record>, fixed: seq<FixedRange>, a: Association)
    requires IsDeduped(KeyOf, input.records, survivors) && RowsSeparable(input) && a in Items(parse, survivors, fixed)
    ensures a.Observed? ==> Separable(a.rec) && a.rec.kind == TYPE_VPC && VpcRow(input, a.rec) && parse(a.rec.cidr) == Some(a.net)
    ensures a.Fixed? ==> a.fx in fixed && parse(a.fx.cidr) == Some(a.net)
  {
    ItemHasRow(parse, input, survivors, fixed, a);
  }

  lemma FreeRows(
    parse: Parser, input: Input, survivors: seq<Record>, fixed: seq<FixedRange>, r: Record, q: Record)
    requires IsDeduped(KeyOf, input.records, survivors) && RowsSeparable(input) && OverlapFree(Items(parse, survivors, fixed))
    requires VpcRow(input, r) && VpcRow(input, q) && !SameVpc(r, q) && parse(r.cidr).Some? && parse(q.cidr).Some?
    ensures !Meets(parse(r.cidr).value, parse(q.cidr).value)
  {
    RowHasItem(parse, input, survivors, fixed, r);
    RowHasItem(parse, input, survivors, fixed, q);
    var a :| a in Items(parse, survivors, fixed) && ItemOf(parse, a, r);
    var b :| b in Items(parse, survivors, fixed) && ItemOf(parse, b, q);
    ItemFacts(parse, input, survivors, fixed, a);
    ItemFacts(parse, input, survivors, fixed, b);
    ComparableIff(a, b);
    FreePair(Items(parse, survivors, fixed), a, b);
    ShareIff(a, b);
  }

  lemma FreeFixed(
    parse: Parser, input: Input, survivors: seq<Record>, fixed: seq<FixedRange>, r: Record, f: FixedRange)
    requires IsDeduped(KeyOf, input.records, survivors) && RowsSeparable(input) && OverlapFree(Items(parse, survivors, fixed))
    requires VpcRow(input, r) && f in fixed && parse(r.cidr).Some? && parse(f.cidr).Some?
    ensures !Meets(parse(r.cidr).value, parse(f.cidr).value)
  {
    RowHasItem(parse, input, survivors, fixed, r);
    FixedHasItem(parse, survivors, fixed, f);
    var a :| a in Items(parse, survivors, fixed) && ItemOf(parse, a, r);
    var b :| b in Items(parse, survivors, fixed) && ItemOfFixed(parse, b, f);
    ItemFacts(parse, input, survivors, fixed, a);
    FreePair(Items(parse, survivors, fixed), a, b);
    ShareIff(a, b);
  }

  lemma ClearPair(
    parse: Parser, input: Input, survivors: seq<Record>, fixed: seq<FixedRange>, a: Association, b: Association)
    requires IsDeduped(KeyOf, input.records, survivors) && RowsSeparable(input)
    requires RowsClear(parse, input) && FixedClear(parse, input, fixed)
    requires a in Items(parse, survivors, fixed) && b in Items(parse, survivors, fixed) && Comparable(a, b)
    ensures !Share(a, b)
  {
    ItemFacts(parse, input, survivors, fixed, a);
    ItemFacts(parse, input, survivors, fixed, b);
    ComparableIff(a, b);
    ShareIff(a, b);
    ShareIff(b, a);
  }

  lemma ClearIff(parse: Parser, input: Input, survivors: seq<Record>, fixed: seq<FixedRange>)
    requires IsDeduped(KeyOf, input.records, survivors) && RowsSeparable(input)
    ensures OverlapFree(Items(parse, survivors, fixed)) <==> RowsClear(parse, input) && FixedClear(parse, input, fixed)
  {
    var items := Items(parse, survivors, fixed);
    if OverlapFree(items) {
      forall r, q | VpcRow(input, r) && VpcRow(input, q) && !SameVpc(r, q) && parse(r.cidr).Some? && parse(q.cidr).Some?
        ensures !Meets(parse(r.cidr).value, parse(q.cidr).value)
      {
        FreeRows(parse, input, survivors, fixed, r, q);
      }
      forall r, f | VpcRow(input, r) && f in fixed && parse(r.cidr).Some? && parse(f.cidr).Some?
        ensures !Meets(parse(r.cidr).value, parse(f.cidr).value)
      {
        FreeFixed(parse, input, survivors, fixed, r, f);
      }
    }
    if RowsClear(parse, input) && FixedClear(parse, input, fixed) {
      forall i, j | 0 <= i < j < |items| && Comparable(items[i], items[j]) ensures !Share(items[i], items[j]) {
        ClearPair(parse, input, survivors, fixed, items[i], items[j]);
      }
    }
  }

  // ----- what a conflict says -----

  /** The side is this item, as a reader finds it. */
  predicate Shows(s: Side, a: Association, position: Position) {
    s.position == position && s.identity == a.Identity() &&
    match a
    case Observed(_, r) =>
      && !s.fixed && s.account == r.account && s.region == r.region && s.vpc == r.resource && s.cidr == r.cidr
      && s.sourceFile == r.sourceFile && s.sourceRow == r.sourceRow
    case Fixed(_, f) =>
      && s.fixed && s.account == "" && s.region == "" && s.vpc == "" && s.cidr == f.cidr
      && s.sourceFile == f.sourceFile && s.sourceRow == f.sourceRow
  }

  /** The conflict is between a and b, and a holds every address of b: which one is outer, and what they share. */
  predicate Tells(parse: Parser, c: Conflict, a: Association, b: Association) {
    && |c.sides| == 2 && (c.fixed <==> a.Fixed? || b.Fixed?)
    && (c.kind == EqualCIDR <==> a.net == b.net) && parse(c.intersection) == Some(b.net)
    && var outer, inner := if a.net == b.net then Unplaced else Outer, if a.net == b.net then Unplaced else Inner;
       || (Shows(c.sides[0], a, outer) && Shows(c.sides[1], b, inner))
       || (Shows(c.sides[1], a, outer) && Shows(c.sides[0], b, inner))
  }

  /** One of the two networks holds all of the other; the conflict tells of them in that order. */
  ghost predicate TellsOf(parse: Parser, c: Conflict, a: Association, b: Association) {
    (Inside(a.net, b.net) && Tells(parse, c, a, b)) || (Inside(b.net, a.net) && Tells(parse, c, b, a))
  }

  lemma ConflictTells(parse: Parser, digest: Digest, r: Relationship)
    requires r.kind == EqualCIDR <==> r.x.net == r.y.net
    requires parse(CidrOf(r.y)) == Some(r.y.net)
    ensures Tells(parse, ConflictOf(digest, r), r.x, r.y)
  {
  }

  ghost predicate NetsParse(parse: Parser, items: seq<Association>) {
    forall a :: a in items ==> a.net.Valid() && parse(CidrOf(a)) == Some(a.net)
  }

  lemma WiderHolds(a: Association, b: Association)
    requires a.net.Valid() && b.net.Valid() && Share(a, b) && a.net.bits <= b.net.bits
    ensures Inside(a.net, b.net)
  {
    ShareIff(a, b);
    var x :| a.net.Has(x) && b.net.Has(x);
    Laminar(a.net, b.net, x);
  }

  /** An emitted relationship is between two overlapping items, the holding one first. */
  lemma RelationshipHolds(items: seq<Association>, r: Relationship)
    requires WellFormed(items) && r in Emitted(Sort(Before, items))
    ensures r.x in items && r.y in items && Comparable(r.x, r.y) && Inside(r.x.net, r.y.net)
    ensures r.kind == EqualCIDR <==> r.x.net == r.y.net
  {
    var rels := Emitted(Sort(Before, items));
    SweepIsBruteForce(items);
    ConflictIds.ComparesOnce();
    MeaningIn(rels, r);
    PairsCount(CompareValid, items, Meaning(r));
    var i, j :| PairAt(CompareValid, items, Meaning(r), i, j);
    PairMeans(items[i], items[j], r);
  }

  lemma {:induction false} MeaningIn(rels: seq<Relationship>, r: Relationship)
    requires r in rels
    ensures Meaning(r) in Meanings(rels)
    decreases |rels|
  {
    var init := rels[..|rels| - 1];
    assert rels == init + [rels[|rels| - 1]];
    if r in init {
      MeaningIn(init, r);
    }
  }

  lemma PairMeans(a: Association, b: Association, r: Relationship)
    requires a.net.Valid() && b.net.Valid() && Meaning(r) in CompareValid(a, b)
    ensures (r.x == a && r.y == b) || (r.x == b && r.y == a)
    ensures Comparable(r.x, r.y) && Inside(r.x.net, r.y.net) && (r.kind == EqualCIDR <==> r.x.net == r.y.net)
  {
    assert {r.x, r.y} == {a, b};
    assert r.x in {a, b} && r.y in {a, b} && a in {r.x, r.y} && b in {r.x, r.y};
    if a.net.bits <= b.net.bits { WiderHolds(a, b); }
    if b.net.bits <= a.net.bits { WiderHolds(b, a); }
    if a.net.bits == b.net.bits { ShareSameMask(a, b); }
  }

  lemma {:induction false} MeaningOf(rels: seq<Relationship>, m: Relation)
    requires m in Meanings(rels)
    ensures exists r :: r in rels && Meaning(r) == m
    decreases |rels|
  {
    var init, last := rels[..|rels| - 1], rels[|rels| - 1];
    if m in Meanings(init) {
      MeaningOf(init, m);
      var r :| r in init && Meaning(r) == m;
      assert r in rels;
    } else {
      assert last in rels;
    }
  }

  predicate Between(r: Relationship, a: Association, b: Association) {
    (r.x == a && r.y == b) || (r.x == b && r.y == a)
  }

  /** Two comparable items that share an address are related. */
  lemma PairRelated(items: seq<Association>, i: nat, j: nat) returns (r: Relationship)
    requires WellFormed(items) && i < j < |items| && Comparable(items[i], items[j]) && Share(items[i], items[j])
    ensures r in Emitted(Sort(Before, items)) && Between(r, items[i], items[j])
  {
    assert items[i] in items && items[j] in items;
    var m := RelationOf(items[i], items[j]);
    r := PairEmitted(items, i, j, m);
    PairMeans(items[i], items[j], r);
  }

  lemma RelationOf(a: Association, b: Association) returns (m: Relation)
    requires a.net.Valid() && b.net.Valid() && Comparable(a, b) && Share(a, b)
    ensures m in CompareValid(a, b)
  {
    m := if a.net == b.net then Relation(EqualCIDR, {a, b}, None)
         else Relation(Contains, {a, b}, Some(if a.net.bits < b.net.bits then a else b));
  }

  lemma PairEmitted(items: seq<Association>, i: nat, j: nat, m: Relation) returns (r: Relationship)
    requires WellFormed(items) && i < j < |items| && m in CompareValid(items[i], items[j])
    ensures r in Emitted(Sort(Before, items)) && Meaning(r) == m
  {
    SweepIsBruteForce(items);
    ConflictIds.ComparesOnce();
    assert PairAt(CompareValid, items, m, i, j);
    PairsCount(CompareValid, items, m);
    MeaningOf(Emitted(Sort(Before, items)), m);
    r :| r in Emitted(Sort(Before, items)) && Meaning(r) == m;
  }

  lemma ItemsRelated(items: seq<Association>, a: Association, b: Association) returns (r: Relationship)
    requires WellFormed(items) && a in items && b in items && a != b && Comparable(a, b) && Share(a, b)
    ensures r in Emitted(Sort(Before, items)) && Between(r, a, b)
  {
    var i :| 0 <= i < |items| && items[i] == a;
    var j :| 0 <= j < |items| && items[j] == b;
    if i < j {
      r := PairRelated(items, i, j);
    } else {
      r := PairRelated(items, j, i);
    }
  }

  // ----- the report, told from the rows -----

  ghost predicate IsItem(parse: Parser, input: Input, fixed: seq<FixedRange>, a: Association) {
    if a.Observed? then VpcRow(input, a.rec) && parse(a.rec.cidr) == Some(a.net)
    else a.fx in fixed && parse(a.fx.cidr) == Some(a.net)
  }

  /** What may conflict: a VPC with another, or with a fixed range, on some address. */
  ghost predicate Conflicting(a: Association, b: Association) {
    && (a.Observed? || b.Observed?) && (a.Observed? && b.Observed? ==> !SameVpc(a.rec, b.rec)) && Meets(a.net, b.net)
  }

  lemma ItemsParse(parse: Parser, input: Input, survivors: seq<Record>, fixed: seq<FixedRange>)
    requires IsDeduped(KeyOf, input.records, survivors)
    ensures WellFormed(Items(parse, survivors, fixed)) && NetsParse(parse, Items(parse, survivors, fixed))
  {
    forall a | a in Items(parse, survivors, fixed) ensures a.net.Valid() && parse(CidrOf(a)) == Some(a.net) {
      ItemHasRow(parse, input, survivors, fixed, a);
    }
  }

  /** The report is free of conflicts exactly when no two rows of different VPCs, and no row and fixed range, share an address. */
  lemma ReportClearIff(
    parse: Parser, digest: Digest, input: Input, fixed: seq<FixedRange>, survivors: seq<Record>, report: Report)
    requires Reports(parse, digest, input, fixed, survivors, report) && RowsSeparable(input)
    ensures report.conflicts == [] <==> RowsClear(parse, input) && FixedClear(parse, input, fixed)
  {
    NoConflictsIff(parse, digest, input, fixed, survivors, report);
    ClearIff(parse, input, survivors, fixed);
  }

  ghost predicate Told(parse: Parser, report: Report, a: Association, b: Association) {
    exists c :: c in report.conflicts && TellsOf(parse, c, a, b)
  }

  lemma RelationTold(parse: Parser, digest: Digest, items: seq<Association>, rels: seq<Relationship>, report: Report, r: Relationship)
    requires WellFormed(items) && NetsParse(parse, items) && rels == Emitted(Sort(Before, items)) && r in rels
    requires multiset(report.conflicts) == multiset(Conflicts(digest, rels))
    ensures ConflictOf(digest, r) in report.conflicts && TellsOf(parse, ConflictOf(digest, r), r.x, r.y)
  {
    RelationshipHolds(items, r);
    ConflictTells(parse, digest, r);
    var k :| 0 <= k < |rels| && rels[k] == r;
    var conflicts := Conflicts(digest, rels);
    assert conflicts[k] in conflicts;
    InMultiset(conflicts, ConflictOf(digest, r));
    InMultiset(report.conflicts, ConflictOf(digest, r));
  }

  lemma PairTold(
    parse: Parser, digest: Digest, items: seq<Association>, rels: seq<Relationship>, report: Report, a: Association, b: Association)
    requires WellFormed(items) && NetsParse(parse, items) && rels == Emitted(Sort(Before, items))
    requires multiset(report.conflicts) == multiset(Conflicts(digest, rels))
    requires a in items && b in items && a != b && Comparable(a, b) && Share(a, b)
    ensures Told(parse, report, a, b)
  {
    var r := ItemsRelated(items, a, b);
    RelationTold(parse, digest, items, rels, report, r);
    var c := ConflictOf(digest, r);
    assert TellsOf(parse, c, r.x, r.y) <==> TellsOf(parse, c, r.y, r.x);
    assert TellsOf(parse, c, a, b);
  }

  /** Two rows of different VPCs that share an address are the sides of a reported conflict. */
  lemma RowsTold(
    parse: Parser, digest: Digest, input: Input, fixed: seq<FixedRange>, survivors: seq<Record>, report: Report, r: Record, q: Record)
    requires Reports(parse, digest, input, fixed, survivors, report) && RowsSeparable(input)
    requires VpcRow(input, r) && VpcRow(input, q) && !SameVpc(r, q) && parse(r.cidr).Some? && parse(q.cidr).Some?
    requires Meets(parse(r.cidr).value, parse(q.cidr).value)
    ensures exists a, b :: ItemOf(parse, a, r) && ItemOf(parse, b, q) && Told(parse, report, a, b)
  {
    var items := Items(parse, survivors, fixed);
    RowHasItem(parse, input, survivors, fixed, r);
    RowHasItem(parse, input, survivors, fixed, q);
    var a :| a in items && ItemOf(parse, a, r);
    var b :| b in items && ItemOf(parse, b, q);
    ItemFacts(parse, input, survivors, fixed, a);
    ItemFacts(parse, input, survivors, fixed, b);
    ComparableIff(a, b);
    ShareIff(a, b);
    ItemsParse(parse, input, survivors, fixed);
    PairTold(parse, digest, items, Relationships(parse, survivors, fixed), report, a, b);
  }

  /** And so are a row and a fixed range. */
  lemma FixedTold(
    parse: Parser, digest: Digest, input: Input, fixed: seq<FixedRange>, survivors: seq<Record>, report: Report, r: Record, f: FixedRange)
    requires Reports(parse, digest, input, fixed, survivors, report) && RowsSeparable(input)
    requires VpcRow(input, r) && f in fixed && parse(r.cidr).Some? && parse(f.cidr).Some?
    requires Meets(parse(r.cidr).value, parse(f.cidr).value)
    ensures exists a, b :: ItemOf(parse, a, r) && ItemOfFixed(parse, b, f) && Told(parse, report, a, b)
  {
    var items := Items(parse, survivors, fixed);
    RowHasItem(parse, input, survivors, fixed, r);
    FixedHasItem(parse, survivors, fixed, f);
    var a :| a in items && ItemOf(parse, a, r);
    var b :| b in items && ItemOfFixed(parse, b, f);
    ShareIff(a, b);
    ItemsParse(parse, input, survivors, fixed);
    PairTold(parse, digest, items, Relationships(parse, survivors, fixed), report, a, b);
  }

  /** Every reported conflict tells of two such rows, or of a row and a fixed range, that do share an address. */
  lemma ConflictTold(
    parse: Parser, digest: Digest, input: Input, fixed: seq<FixedRange>, survivors: seq<Record>, report: Report, c: Conflict)
    requires Reports(parse, digest, input, fixed, survivors, report) && RowsSeparable(input) && c in report.conflicts
    ensures exists a, b ::
      IsItem(parse, input, fixed, a) && IsItem(parse, input, fixed, b) && Conflicting(a, b) && TellsOf(parse, c, a, b)
  {
    var items, rels := Items(parse, survivors, fixed), Relationships(parse, survivors, fixed);
    var r := ConflictAt(digest, rels, report.conflicts, c);
    ItemsParse(parse, input, survivors, fixed);
    RelationTold(parse, digest, items, rels, report, r);
    RelationshipHolds(items, r);
    ItemFacts(parse, input, survivors, fixed, r.x);
    ItemFacts(parse, input, survivors, fixed, r.y);
    ComparableIff(r.x, r.y);
    assert r.x.net.Has(r.y.net.addr) && r.y.net.Has(r.y.net.addr);
    assert IsItem(parse, input, fixed, r.x) && IsItem(parse, input, fixed, r.y) && Conflicting(r.x, r.y);
  }

  /** Everything the report says about the estate, said of the rows and ranges alone. */
  ghost predicate EstateReported(parse: Parser, input: Input, fixed: seq<FixedRange>, report: Report) {
    && (report.conflicts == [] <==> RowsClear(parse, input) && FixedClear(parse, input, fixed))
    && (forall c :: c in report.conflicts ==> ConflictGrounded(parse, input, fixed, c))
    && (forall r, q :: RowsClash(parse, input, r, q) ==> exists a, b :: ItemOf(parse, a, r) && ItemOf(parse, b, q) && Told(parse, report, a, b))
  }

  ghost predicate RowsClash(parse: Parser, input: Input, r: Record, q: Record) {
    && VpcRow(input, r) && VpcRow(input, q) && !SameVpc(r, q) && parse(r.cidr).Some? && parse(q.cidr).Some?
    && Meets(parse(r.cidr).value, parse(q.cidr).value)
  }

  ghost predicate ConflictGrounded(parse: Parser, input: Input, fixed: seq<FixedRange>, c: Conflict) {
    exists a, b ::
      IsItem(parse, input, fixed, a) && IsItem(parse, input, fixed, b) && Conflicting(a, b) && TellsOf(parse, c, a, b)
  }

  lemma ReportsEstate(
    parse: Parser, digest: Digest, input: Input, fixed: seq<FixedRange>, survivors: seq<Record>, report: Report)
    requires Reports(parse, digest, input, fixed, survivors, report) && RowsSeparable(input)
    ensures EstateReported(parse, input, fixed, report)
  {
    ReportClearIff(parse, digest, input, fixed, survivors, report);
    forall c | c in report.conflicts ensures ConflictGrounded(parse, input, fixed, c) {
      ConflictTold(parse, digest, input, fixed, survivors, report, c);
    }
    forall r, q | RowsClash(parse, input, r, q)
      ensures exists a, b :: ItemOf(parse, a, r) && ItemOf(parse, b, q) && Told(parse, report, a, b)
    {
      RowsTold(parse, digest, input, fixed, survivors, report, r, q);
    }
  }

  /** The assessment, judged by its rows. */
  method AssessEstate(parse: Parser, digest: Digest, input: Input, fixed: seq<FixedRange>, maxRelationships: int)
    returns (r: AssessResult)
    ensures r.Assessed? && RowsSeparable(input) ==> EstateReported(parse, input, fixed, r.report)
  {
    ghost var survivors;
    r, survivors := Assess(parse, digest, input, fixed, maxRelationships);
    if r.Assessed? && RowsSeparable(input) {
      ReportsEstate(parse, digest, input, fixed, survivors, r.report);
    }
  }
}
