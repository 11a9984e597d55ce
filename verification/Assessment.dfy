/**
  The overlap assessment end to end (internal/assess/assess.go and
  conflict.go): from the inventory rows to the reported conflicts.
 */
module Assessment {
  import opened Cidr
  import opened Ordering
  import opened AssessTypes
  import opened Optional
  import opened Sweep
  import opened Associations
  import opened Coverage

  const DEFAULT_MAX_RELATIONSHIPS: nat := 100_000

  datatype Position = Outer | Inner | Unplaced

  /** One resource of a conflict. account, region and vpc are empty for a fixed range. */
  datatype Side = Side(
    identity: string, account: string, region: string, vpc: string, cidr: string, position: Position, fixed: bool,
    sourceFile: string, sourceRow: int)

  datatype Conflict = Conflict(id: string, kind: Kind, intersection: string, fixed: bool, sides: seq<Side>)

  /** The digest that names a relationship, over its kind and the two identities in byte order. */
  type Digest = (Kind, string, string) -> string

  function ConflictId(digest: Digest, kind: Kind, a: string, b: string): string {
    if StrLess(b, a) then digest(kind, b, a) else digest(kind, a, b)
  }

  lemma ConflictIdSymmetric(digest: Digest, kind: Kind, a: string, b: string)
    ensures ConflictId(digest, kind, a, b) == ConflictId(digest, kind, b, a)
  {
    StrOrder(a, b);
  }

  function PositionFor(kind: Kind, outer: bool): Position {
    if kind != Contains then Unplaced else if outer then Outer else Inner
  }

  function SideFrom(a: Association, position: Position): Side {
    match a
    case Fixed(_, fx) => Side(a.Identity(), "", "", "", fx.cidr, position, true, fx.sourceFile, fx.sourceRow)
    case Observed(_, r) =>
      Side(r.Identity(), r.account, r.region, r.resource, r.cidr, position, false, r.sourceFile, r.sourceRow)
  }

  function CidrOf(a: Association): string {
    if a.Fixed? then a.fx.cidr else a.rec.cidr
  }

  function ConflictOf(digest: Digest, r: Relationship): Conflict {
    var x, y := SideFrom(r.x, PositionFor(r.kind, true)), SideFrom(r.y, PositionFor(r.kind, false));
    Conflict(
      ConflictId(digest, r.kind, r.x.Identity(), r.y.Identity()), r.kind, CidrOf(r.y), r.x.Fixed? || r.y.Fixed?,
      if StrLess(y.identity, x.identity) then [y, x] else [x, y])
  }

  function Conflicts(digest: Digest, rels: seq<Relationship>): seq<Conflict> {
    seq(|rels|, i requires 0 <= i < |rels| => ConflictOf(digest, rels[i]))
  }

  method BuildConflicts(digest: Digest, rels: seq<Relationship>) returns (conflicts: seq<Conflict>)
    ensures conflicts == Conflicts(digest, rels)
  {
    conflicts := [];
    for i := 0 to |rels|
      invariant |conflicts| == i && forall k :: 0 <= k < i ==> conflicts[k] == ConflictOf(digest, rels[k])
    {
      conflicts := conflicts + [ConflictOf(digest, rels[i])];
    }
  }

  function KindLess(a: Kind, b: Kind): bool {
    a == Contains && b == EqualCIDR
  }

  /** Report order: kind, first identity, second identity, id. */
  predicate ConflictLess(a: Conflict, b: Conflict) {
    if a.kind != b.kind then KindLess(a.kind, b.kind)
    else if NameAt(a, 0) != NameAt(b, 0) then StrLess(NameAt(a, 0), NameAt(b, 0))
    else if NameAt(a, 1) != NameAt(b, 1) then StrLess(NameAt(a, 1), NameAt(b, 1))
    else StrLess(a.id, b.id)
  }

  function NameAt(c: Conflict, k: nat): string {
    if k < |c.sides| then c.sides[k].identity else ""
  }

  lemma ConflictTransitive(a: Conflict, b: Conflict, c: Conflict)
    requires !ConflictLess(b, a) && !ConflictLess(c, b)
    ensures !ConflictLess(c, a)
  {
    StrStep(NameAt(a, 0), NameAt(b, 0), NameAt(c, 0));
    if NameAt(a, 0) == NameAt(b, 0) == NameAt(c, 0) {
      StrStep(NameAt(a, 1), NameAt(b, 1), NameAt(c, 1));
      StrStep(a.id, b.id, c.id);
    }
  }

  lemma ConflictOrders()
    ensures Orders(ConflictLess)
  {
    forall a: Conflict, b: Conflict ensures ConflictLess(a, b) ==> !ConflictLess(b, a) {
      StrOrder(NameAt(a, 0), NameAt(b, 0));
      StrOrder(NameAt(a, 1), NameAt(b, 1));
      StrOrder(a.id, b.id);
    }
    forall a: Conflict, b: Conflict, c: Conflict | !ConflictLess(b, a) && !ConflictLess(c, b) ensures !ConflictLess(c, a) {
      ConflictTransitive(a, b, c);
    }
  }

  /** The report lists containments before equal CIDRs, and each kind by first identity, second identity and id. */
  ghost predicate InOrder(a: Conflict, b: Conflict) {
    && (a.kind != b.kind ==> a.kind == Contains)
    && (a.kind == b.kind ==> !StrLess(NameAt(b, 0), NameAt(a, 0)))
    && (a.kind == b.kind && NameAt(a, 0) == NameAt(b, 0) ==> !StrLess(NameAt(b, 1), NameAt(a, 1)))
    && (a.kind == b.kind && NameAt(a, 0) == NameAt(b, 0) && NameAt(a, 1) == NameAt(b, 1) ==> !StrLess(b.id, a.id))
  }

  ghost predicate AllInOrder(conflicts: seq<Conflict>) {
    forall i, j :: 0 <= i < j < |conflicts| ==> InOrder(conflicts[i], conflicts[j])
  }

  lemma SortOrders(conflicts: seq<Conflict>)
    ensures AllInOrder(Sort(ConflictLess, conflicts))
  {
    forall i, j | 0 <= i < j < |conflicts|
      ensures InOrder(Sort(ConflictLess, conflicts)[i], Sort(ConflictLess, conflicts)[j])
    {
      SortedInOrder(conflicts, i, j);
    }
  }

  lemma SortedInOrder(conflicts: seq<Conflict>, i: nat, j: nat)
    requires i < j < |conflicts|
    ensures InOrder(Sort(ConflictLess, conflicts)[i], Sort(ConflictLess, conflicts)[j])
  {
    ConflictOrders();
    SortSorts(ConflictLess, conflicts);
    var sorted := Sort(ConflictLess, conflicts);
    assert !ConflictLess(sorted[j], sorted[i]);
    StrOrder(NameAt(sorted[i], 0), NameAt(sorted[j], 0));
    StrOrder(NameAt(sorted[i], 1), NameAt(sorted[j], 1));
  }

  datatype Report = Report(coverage: Coverage, conflicts: seq<Conflict>, duplicates: nat, notes: seq<Note>)

  datatype AssessError = MissingField(sourceFile: string, sourceRow: int) | TooManyRelationships(count: nat, max: nat)

  datatype AssessResult = Assessed(report: Report) | Refused(error: AssessError)

  predicate Attributable(r: Record) {
    r.cidr != "" && r.account != "" && r.region != "" && r.kind != "" && r.resource != ""
  }

  lemma AttributableIff(r: Record)
    ensures Attributable(r) <==> "" !in [r.cidr, r.account, r.region, r.kind, r.resource]
  {
  }

  method Validate(input: Input) returns (e: Option<AssessError>)
    ensures e.None? <==> forall i :: 0 <= i < |input.records| ==> Attributable(input.records[i])
    ensures e.Some? ==> e.value.MissingField?
  {
    for i := 0 to |input.records|
      invariant forall k :: 0 <= k < i ==> Attributable(input.records[k])
    {
      if !Attributable(input.records[i]) {
        return Some(MissingField(input.records[i].sourceFile, input.records[i].sourceRow));
      }
    }
    return None;
  }

  /** The relationships the sweep finds among the survivors and the fixed table. */
  ghost function Relationships(parse: Parser, survivors: seq<Record>, fixed: seq<FixedRange>): seq<Relationship> {
    Emitted(Sort(Before, Items(parse, survivors, fixed)))
  }

  /** What a report says about its input: exact coverage, and one conflict per relationship. */
  ghost predicate Reports(parse: Parser, digest: Digest, input: Input, fixed: seq<FixedRange>, survivors: seq<Record>, report: Report) {
    && IsDeduped(KeyOf, input.records, survivors)
    && Exact(input, report.coverage)
    && report.duplicates == VpcRows(input.records) - |survivors|
    && report.notes == RecordNotes(parse, survivors) + FixedNotes(parse, Sort(FixedBefore, fixed))
    && multiset(report.conflicts) == multiset(Conflicts(digest, Relationships(parse, survivors, fixed)))
    && AllInOrder(report.conflicts)
  }

  /** The cap that applies: a value that is not positive means the default. */
  function Limit(maxRelationships: int): (max: nat)
    ensures max > 0
  {
    if maxRelationships <= 0 then DEFAULT_MAX_RELATIONSHIPS else maxRelationships
  }

  method Assess(parse: Parser, digest: Digest, input: Input, fixed: seq<FixedRange>, maxRelationships: int)
    returns (r: AssessResult, ghost survivors: seq<Record>)
    ensures r.Assessed? ==> Reports(parse, digest, input, fixed, survivors, r.report)
    ensures r.Refused? && r.error.MissingField? <==>
            exists i :: 0 <= i < |input.records| && !Attributable(input.records[i])
    ensures r.Refused? && r.error.TooManyRelationships? ==>
            && IsDeduped(KeyOf, input.records, survivors)
            && |Relationships(parse, survivors, fixed)| == r.error.count > r.error.max == Limit(maxRelationships)
    ensures r.Assessed? ==> |Relationships(parse, survivors, fixed)| <= Limit(maxRelationships)
  {
    survivors := [];
    var bad := Validate(input);
    if bad.Some? {
      return Refused(bad.value), survivors;
    }
    var kept, duplicates := DedupeAssociations(input.records);
    survivors := kept;
    var items, notes := BuildAssociations(parse, kept, fixed);
    var rels, steps := Sweep.Sweep(items);
    var max := Limit(maxRelationships);
    if |rels| > max {
      return Refused(TooManyRelationships(|rels|, max)), survivors;
    }
    var conflicts := BuildConflicts(digest, rels);
    SortOrders(conflicts);
    conflicts := Sort(ConflictLess, conflicts);
    var coverage := ComputeCoverage(input);
    r := Assessed(Report(coverage, conflicts, duplicates, notes));
  }

  // ----- where a conflict comes from -----

  lemma {:induction false} AgainstFrom(open: seq<Association>, cur: Association, r: Relationship)
    requires r in Against(open, cur)
    ensures r.x in open && r.y == cur && Comparable(r.x, r.y)
    decreases |open|
  {
    var init := open[..|open| - 1];
    if r in Against(init, cur) {
      AgainstFrom(init, cur, r);
    }
  }

  lemma {:induction false} OpenFrom(s: seq<Association>, t: nat, a: Association)
    requires a in Open(s, t)
    ensures a in s
    decreases |s|
  {
    var init := s[..|s| - 1];
    if a in Open(init, t) {
      OpenFrom(init, t, a);
    }
  }

  lemma {:induction false} EmittedFrom(s: seq<Association>, r: Relationship)
    requires r in Emitted(s)
    ensures r.x in s && r.y in s && Comparable(r.x, r.y)
    decreases |s|
  {
    var init, cur := s[..|s| - 1], s[|s| - 1];
    if r in Emitted(init) {
      EmittedFrom(init, r);
    } else {
      AgainstFrom(Open(init, cur.Start()), cur, r);
      OpenFrom(init, cur.Start(), r.x);
    }
  }

  /** A VPC row of the input is behind the item. */
  ghost predicate ObservedIn(input: Input, a: Association) {
    a.Observed? && a.rec in input.records && a.rec.kind == TYPE_VPC
  }

  lemma SurvivorObserved(input: Input, survivors: seq<Record>, r: Record)
    requires IsDeduped(KeyOf, input.records, survivors) && r in survivors
    ensures r in input.records && r.kind == TYPE_VPC
  {
    var i :| 0 <= i < |survivors| && survivors[i] == r;
    GroupMembers(KeyOf, input.records, KeyOf(r), r);
  }

  /** Both ends of a relationship are items, at most one of them fixed; the others are observed VPC rows. */
  lemma RelationshipSource(parse: Parser, input: Input, fixed: seq<FixedRange>, survivors: seq<Record>, r: Relationship)
    requires IsDeduped(KeyOf, input.records, survivors) && r in Relationships(parse, survivors, fixed)
    ensures r.x.Fixed? || ObservedIn(input, r.x)
    ensures r.y.Fixed? || ObservedIn(input, r.y)
    ensures !(r.x.Fixed? && r.y.Fixed?)
  {
    var items := Items(parse, survivors, fixed);
    EmittedFrom(Sort(Before, items), r);
    forall a | a in Sort(Before, items) ensures a.Fixed? || ObservedIn(input, a) {
      InMultiset(Sort(Before, items), a);
      InMultiset(items, a);
      ItemsFrom(parse, survivors, fixed, a);
      if a.Observed? { SurvivorObserved(input, survivors, a.rec); }
    }
  }

  /** A side that is not fixed names the account, region and id of an observed VPC row. */
  ghost predicate SideObserved(input: Input, s: Side) {
    exists i :: 0 <= i < |input.records| && input.records[i].kind == TYPE_VPC &&
      input.records[i].account == s.account && input.records[i].region == s.region && input.records[i].resource == s.vpc
  }

  lemma SideFromObserved(input: Input, a: Association, p: Position)
    requires a.Fixed? || ObservedIn(input, a)
    ensures SideFrom(a, p).fixed == a.Fixed?
    ensures !SideFrom(a, p).fixed ==> SideObserved(input, SideFrom(a, p))
  {
    if a.Observed? {
      var i :| 0 <= i < |input.records| && input.records[i] == a.rec;
    }
  }

  ghost predicate SidesObserved(input: Input, c: Conflict) {
    && |c.sides| == 2 && !(c.sides[0].fixed && c.sides[1].fixed)
    && (!c.sides[0].fixed ==> SideObserved(input, c.sides[0]))
    && (!c.sides[1].fixed ==> SideObserved(input, c.sides[1]))
  }

  lemma ConflictOfObserved(digest: Digest, input: Input, r: Relationship)
    requires (r.x.Fixed? || ObservedIn(input, r.x)) && (r.y.Fixed? || ObservedIn(input, r.y)) && !(r.x.Fixed? && r.y.Fixed?)
    ensures SidesObserved(input, ConflictOf(digest, r))
  {
    SideFromObserved(input, r.x, PositionFor(r.kind, true));
    SideFromObserved(input, r.y, PositionFor(r.kind, false));
  }

  lemma ConflictAt(digest: Digest, rels: seq<Relationship>, conflicts: seq<Conflict>, c: Conflict) returns (r: Relationship)
    requires multiset(conflicts) == multiset(Conflicts(digest, rels)) && c in conflicts
    ensures r in rels && ConflictOf(digest, r) == c
  {
    InMultiset(conflicts, c);
    InMultiset(Conflicts(digest, rels), c);
    var k :| 0 <= k < |rels| && Conflicts(digest, rels)[k] == c;
    r := rels[k];
  }

  /** Every reported conflict has a side that is not fixed, and every such side was observed. */
  lemma ConflictSource(
    parse: Parser, digest: Digest, input: Input, fixed: seq<FixedRange>, survivors: seq<Record>, report: Report, c: Conflict)
    requires Reports(parse, digest, input, fixed, survivors, report) && c in report.conflicts
    ensures SidesObserved(input, c)
  {
    var r := ConflictAt(digest, Relationships(parse, survivors, fixed), report.conflicts, c);
    RelationshipSource(parse, input, fixed, survivors, r);
    ConflictOfObserved(digest, input, r);
  }

  /** The report is free of conflicts exactly when no two comparable items share an address. */
  lemma NoConflictsIff(
    parse: Parser, digest: Digest, input: Input, fixed: seq<FixedRange>, survivors: seq<Record>, report: Report)
    requires Reports(parse, digest, input, fixed, survivors, report)
    ensures report.conflicts == [] <==> OverlapFree(Items(parse, survivors, fixed))
  {
    var items := Items(parse, survivors, fixed);
    var rels := Relationships(parse, survivors, fixed);
    forall a | a in items ensures a.net.Valid() { ItemsFrom(parse, survivors, fixed, a); }
    SweepIsBruteForce(items);
    assert |report.conflicts| == |multiset(report.conflicts)| == |multiset(Conflicts(digest, rels))| == |rels|;
    MeaningsEmpty(rels);
    PairsEmpty(items);
  }

  ghost predicate OverlapFree(items: seq<Association>) {
    forall i, j :: 0 <= i < j < |items| && Comparable(items[i], items[j]) ==> !Share(items[i], items[j])
  }

  lemma MeaningsEmpty(rels: seq<Relationship>)
    ensures rels == [] <==> Meanings(rels) == multiset{}
  {
    if rels != [] {
      assert Meaning(rels[|rels| - 1]) in Meanings(rels);
    }
  }

  ghost predicate Clear(x: Association, s: seq<Association>) {
    forall j :: 0 <= j < |s| && Comparable(x, s[j]) ==> !Share(x, s[j])
  }

  lemma ClearCons(x: Association, s: seq<Association>)
    requires s != []
    ensures Clear(x, s) <==> !(Comparable(x, s[0]) && Share(x, s[0])) && Clear(x, s[1..])
  {
    assert forall j :: 1 <= j < |s| ==> s[j] == s[1..][j - 1];
  }

  lemma {:induction false} WithEmpty(x: Association, s: seq<Association>)
    requires x.net.Valid() && WellFormed(s)
    ensures With(CompareValid, x, s) == multiset{} <==> Clear(x, s)
    decreases |s|
  {
    if s != [] {
      assert s[0] in s && forall a :: a in s[1..] ==> a in s;
      WithEmpty(x, s[1..]);
      SumEmpty(CompareValid(x, s[0]), With(CompareValid, x, s[1..]));
      ClearCons(x, s);
    }
  }

  lemma SumEmpty<T>(a: multiset<T>, b: multiset<T>)
    ensures a + b == multiset{} <==> a == multiset{} && b == multiset{}
  {
    assert forall x :: (a + b)[x] == a[x] + b[x];
    if a + b == multiset{} {
      assert forall x :: a[x] == 0 && b[x] == 0 by { assert forall x :: (a + b)[x] == 0; }
    }
  }

  lemma OverlapFreeCons(s: seq<Association>)
    requires s != []
    ensures OverlapFree(s) <==> Clear(s[0], s[1..]) && OverlapFree(s[1..])
  {
    assert forall j :: 1 <= j < |s| ==> s[j] == s[1..][j - 1];
    if Clear(s[0], s[1..]) && OverlapFree(s[1..]) {
      forall i, j | 0 <= i < j < |s| && Comparable(s[i], s[j]) ensures !Share(s[i], s[j]) {
        assert s[j] == s[1..][j - 1];
        assert i > 0 ==> s[i] == s[1..][i - 1];
      }
    }
    if OverlapFree(s) {
      forall j | 0 <= j < |s[1..]| && Comparable(s[0], s[1..][j]) ensures !Share(s[0], s[1..][j]) {
        assert s[1..][j] == s[j + 1];
      }
      forall i, j | 0 <= i < j < |s[1..]| && Comparable(s[1..][i], s[1..][j]) ensures !Share(s[1..][i], s[1..][j]) {
        assert s[1..][i] == s[i + 1] && s[1..][j] == s[j + 1];
      }
    }
  }

  lemma {:induction false} PairsEmpty(s: seq<Association>)
    requires WellFormed(s)
    ensures Pairs(CompareValid, s) == multiset{} <==> OverlapFree(s)
    decreases |s|
  {
    if s != [] {
      assert s[0] in s && forall a :: a in s[1..] ==> a in s;
      WithEmpty(s[0], s[1..]);
      PairsEmpty(s[1..]);
      SumEmpty(With(CompareValid, s[0], s[1..]), Pairs(CompareValid, s[1..]));
      OverlapFreeCons(s);
    }
  }
}
