/**
  From inventory rows to sweep items: dedupeAssociations and buildAssociations
  of internal/assess/sweep.go, and their independence from the input order.
 */
module Associations {
  import opened Cidr
  import opened Ordering
  import opened AssessTypes
  import opened Optional
  import opened Sweep

  // ----- dedupeAssociations -----

  predicate SourceLess(a: Record, b: Record) {
    if a.sourceFile != b.sourceFile then StrLess(a.sourceFile, b.sourceFile) else a.sourceRow < b.sourceRow
  }

  /** The rows that are observations of one association. */
  function Group(key: Record -> string, records: seq<Record>, k: string): seq<Record> {
    if records == [] then []
    else
      var r := records[|records| - 1];
      Group(key, records[..|records| - 1], k) + if r.kind == TYPE_VPC && key(r) == k then [r] else []
  }

  function VpcRows(records: seq<Record>): nat {
    if records == [] then 0
    else VpcRows(records[..|records| - 1]) + if records[|records| - 1].kind == TYPE_VPC then 1 else 0
  }

  lemma {:induction false} GroupMembers(key: Record -> string, records: seq<Record>, k: string, r: Record)
    ensures r in Group(key, records, k) <==> r in records && r.kind == TYPE_VPC && key(r) == k
    decreases |records|
  {
    if records != [] {
      GroupMembers(key, records[..|records| - 1], k, r);
      assert records == records[..|records| - 1] + [records[|records| - 1]];
    }
  }

  ghost predicate Distinct(keys: seq<string>) {
    forall i, j :: 0 <= i < j < |keys| ==> keys[i] != keys[j]
  }

  ghost function GroupTotal(key: Record -> string, records: seq<Record>, keys: seq<string>): nat {
    if keys == [] then 0 else GroupTotal(key, records, keys[..|keys| - 1]) + |Group(key, records, keys[|keys| - 1])|
  }

  /** One more VPC row adds one to the group of its key, and that key is listed once. */
  lemma {:induction false} GroupTotalStep(key: Record -> string, init: seq<Record>, r: Record, keys: seq<string>)
    requires Distinct(keys)
    ensures GroupTotal(key, init + [r], keys) ==
            GroupTotal(key, init, keys) + if r.kind == TYPE_VPC && key(r) in keys then 1 else 0
    decreases |keys|
  {
    assert (init + [r])[..|init|] == init;
    if keys != [] {
      var rest, k := keys[..|keys| - 1], keys[|keys| - 1];
      GroupTotalStep(key, init, r, rest);
      assert keys == rest + [k];
    }
  }

  /** Grouping loses no row. */
  lemma {:induction false} GroupTotalAll(key: Record -> string, records: seq<Record>, keys: seq<string>)
    requires Distinct(keys)
    requires forall r :: r in records && r.kind == TYPE_VPC ==> key(r) in keys
    ensures GroupTotal(key, records, keys) == VpcRows(records)
    decreases |records|
  {
    if records == [] {
      NoGroups(key, keys);
    } else {
      var init, r := records[..|records| - 1], records[|records| - 1];
      assert records == init + [r];
      GroupTotalAll(key, init, keys);
      GroupTotalStep(key, init, r, keys);
    }
  }

  lemma {:induction false} NoGroups(key: Record -> string, keys: seq<string>)
    ensures GroupTotal(key, [], keys) == 0
  {
    if keys != [] {
      NoGroups(key, keys[..|keys| - 1]);
    }
  }

  /** best is a row of the group that no row of the group precedes. */
  ghost predicate IsFirst(best: Record, group: seq<Record>) {
    best in group && forall r :: r in group ==> !SourceLess(r, best)
  }

  lemma SourceOrders()
    ensures Orders(SourceLess)
  {
    forall a: Record, b: Record ensures SourceLess(a, b) ==> !SourceLess(b, a) {
      StrOrder(a.sourceFile, b.sourceFile);
    }
    forall a: Record, b: Record, c: Record | !SourceLess(b, a) && !SourceLess(c, b) ensures !SourceLess(c, a) {
      StrOrder(a.sourceFile, b.sourceFile);
      StrOrder(b.sourceFile, c.sourceFile);
      StrOrder(a.sourceFile, c.sourceFile);
      if !StrLess(b.sourceFile, a.sourceFile) && !StrLess(c.sourceFile, b.sourceFile) {
        StrTransitive(a.sourceFile, b.sourceFile, c.sourceFile);
      }
    }
  }

  method Best(group: seq<Record>) returns (best: Record)
    requires group != []
    ensures IsFirst(best, group)
  {
    SourceOrders();
    best := group[0];
    for i := 1 to |group|
      invariant IsFirst(best, group[..i])
    {
      assert group[..i + 1] == group[..i] + [group[i]];
      if SourceLess(group[i], best) {
        best := group[i];
      }
    }
    assert group[..|group|] == group;
  }

  /** One canonical survivor per key, in ascending key order. */
  ghost predicate IsDeduped(key: Record -> string, records: seq<Record>, survivors: seq<Record>) {
    && (forall i :: 0 <= i < |survivors| ==>
          survivors[i].kind == TYPE_VPC && IsFirst(survivors[i], Group(key, records, key(survivors[i]))))
    && (forall i, j :: 0 <= i < j < |survivors| ==> StrLess(key(survivors[i]), key(survivors[j])))
    && (forall r :: r in records && r.kind == TYPE_VPC ==>
          exists i :: 0 <= i < |survivors| && key(survivors[i]) == key(r))
  }

  lemma GroupStep(key: Record -> string, records: seq<Record>, i: nat)
    requires i < |records|
    ensures forall k ::
      Group(key, records[..i + 1], k) ==
      Group(key, records[..i], k) + (if records[i].kind == TYPE_VPC && key(records[i]) == k then [records[i]] else [])
  {
    assert records[..i + 1][..i] == records[..i];
  }

  /** The groups hold exactly the rows seen so far, by key; order lists the keys once each. */
  ghost predicate Grouped(key: Record -> string, rows: seq<Record>, groups: map<string, seq<Record>>, order: seq<string>) {
    && Distinct(order)
    && (forall k :: k in order <==> k in groups)
    && (forall k :: k in groups ==> groups[k] != [] && groups[k] == Group(key, rows, k))
    && (forall k :: k !in groups ==> Group(key, rows, k) == [])
  }

  /** The first pass: rows by key, keys in first-seen order. */
  method GroupRows(key: Record -> string, records: seq<Record>) returns (groups: map<string, seq<Record>>, order: seq<string>)
    ensures Grouped(key, records, groups, order)
  {
    groups, order := map[], [];
    for i := 0 to |records|
      invariant Grouped(key, records[..i], groups, order)
    {
      var r := records[i];
      GroupStep(key, records, i);
      if r.kind == TYPE_VPC {
        var k := key(r);
        if k !in groups {
          order := order + [k];
          groups := groups[k := [r]];
        } else {
          groups := groups[k := groups[k] + [r]];
        }
      }
    }
    assert records[..|records|] == records;
  }

  lemma GroupedKeys(key: Record -> string, rows: seq<Record>, groups: map<string, seq<Record>>, order: seq<string>)
    requires Grouped(key, rows, groups, order)
    ensures forall r :: r in rows && r.kind == TYPE_VPC ==> key(r) in order
  {
    forall r | r in rows && r.kind == TYPE_VPC ensures key(r) in order {
      GroupMembers(key, rows, key(r), r);
    }
  }

  ghost predicate SurvivesAt(key: Record -> string, records: seq<Record>, k: string, r: Record) {
    r.kind == TYPE_VPC && key(r) == k && IsFirst(r, Group(key, records, k))
  }

  lemma SurvivorsDeduped(key: Record -> string, records: seq<Record>, keys: seq<string>, survivors: seq<Record>)
    requires |survivors| == |keys| && Rises(StrLess, keys)
    requires forall i :: 0 <= i < |keys| ==> SurvivesAt(key, records, keys[i], survivors[i])
    requires forall r :: r in records && r.kind == TYPE_VPC ==> key(r) in keys
    ensures IsDeduped(key, records, survivors)
  {
    forall r | r in records && r.kind == TYPE_VPC
      ensures exists i :: 0 <= i < |survivors| && key(survivors[i]) == key(r)
    {
      var i :| 0 <= i < |keys| && keys[i] == key(r);
      assert SurvivesAt(key, records, keys[i], survivors[i]);
    }
    forall i | 0 <= i < |survivors|
      ensures survivors[i].kind == TYPE_VPC && key(survivors[i]) == keys[i]
      ensures IsFirst(survivors[i], Group(key, records, key(survivors[i])))
    {
      assert SurvivesAt(key, records, keys[i], survivors[i]);
    }
  }

  /** The second pass: the first row of every group, in the order of the keys. */
  method FirstRows(key: Record -> string, ghost records: seq<Record>, groups: map<string, seq<Record>>, keys: seq<string>)
    returns (survivors: seq<Record>, duplicates: nat)
    requires forall i :: 0 <= i < |keys| ==> keys[i] in groups && groups[keys[i]] != []
    requires forall i :: 0 <= i < |keys| ==> groups[keys[i]] == Group(key, records, keys[i])
    ensures |survivors| == |keys|
    ensures forall j :: 0 <= j < |keys| ==> SurvivesAt(key, records, keys[j], survivors[j])
    ensures duplicates + |keys| == GroupTotal(key, records, keys)
  {
    survivors, duplicates := [], 0;
    for i := 0 to |keys|
      invariant |survivors| == i
      invariant forall j :: 0 <= j < i ==> SurvivesAt(key, records, keys[j], survivors[j])
      invariant duplicates + i == GroupTotal(key, records, keys[..i])
    {
      var group := groups[keys[i]];
      var best := Best(group);
      assert SurvivesAt(key, records, keys[i], best) by { GroupMembers(key, records, keys[i], best); }
      assert keys[..i + 1][..i] == keys[..i];
      survivors := survivors + [best];
      duplicates := duplicates + (|group| - 1);
    }
    assert keys[..|keys|] == keys;
  }

  method DedupeBy(key: Record -> string, records: seq<Record>) returns (survivors: seq<Record>, duplicates: nat)
    ensures IsDeduped(key, records, survivors)
    ensures duplicates == VpcRows(records) - |survivors|
  {
    var groups, order := GroupRows(key, records);
    var keys := Sort(StrLess, order);
    SortedKeys(order, keys);
    GroupedKeys(key, records, groups, order);
    assert forall i :: 0 <= i < |keys| ==> keys[i] in order;
    survivors, duplicates := FirstRows(key, records, groups, keys);
    GroupTotalAll(key, records, keys);
    SurvivorsDeduped(key, records, keys, survivors);
  }

  function KeyOf(r: Record): string {
    r.DedupeKey()
  }

  method DedupeAssociations(records: seq<Record>) returns (survivors: seq<Record>, duplicates: nat)
    ensures IsDeduped(KeyOf, records, survivors)
    ensures duplicates == VpcRows(records) - |survivors|
  {
    survivors, duplicates := DedupeBy(KeyOf, records);
  }

  lemma {:induction false} DistinctMultiset(order: seq<string>, i: nat, j: nat)
    requires i < j < |order| && order[i] == order[j]
    ensures multiset(order)[order[i]] >= 2
  {
    assert order == order[..j] + [order[j]] + order[j + 1..];
    assert order[..j] == order[..i] + [order[i]] + order[i + 1..j];
  }

  lemma {:induction false} DistinctCount(order: seq<string>, k: string)
    requires Distinct(order)
    ensures multiset(order)[k] <= 1
    decreases |order|
  {
    if order != [] {
      var init, x := order[..|order| - 1], order[|order| - 1];
      assert order == init + [x];
      DistinctCount(init, k);
      InMultiset(init, x);
      assert x !in init;
    }
  }

  /** sort.Strings on distinct keys gives them in strictly ascending order. */
  lemma SortedKeys(order: seq<string>, keys: seq<string>)
    requires Distinct(order) && keys == Sort(StrLess, order)
    ensures Distinct(keys) && (forall k :: k in keys <==> k in order)
    ensures Rises(StrLess, keys)
  {
    StrOrders();
    SortSorts(StrLess, order);
    forall k ensures k in keys <==> k in order {
      InMultiset(keys, k);
      InMultiset(order, k);
    }
    forall i, j | 0 <= i < j < |keys| ensures keys[i] != keys[j] && StrLess(keys[i], keys[j]) {
      if keys[i] == keys[j] {
        DistinctMultiset(keys, i, j);
        DistinctCount(order, keys[i]);
        assert false;
      }
      StrOrder(keys[i], keys[j]);
    }
  }

  // ----- order independence of the survivors -----

  /** A row's source position and key determine the row. */
  ghost predicate PositionsDetermine(key: Record -> string, records: seq<Record>) {
    forall a, b ::
      a in records && b in records && key(a) == key(b) && a.sourceFile == b.sourceFile && a.sourceRow == b.sourceRow
      ==> a == b
  }

  ghost function Keys(key: Record -> string, s: seq<Record>): seq<string> {
    seq(|s|, i requires 0 <= i < |s| => key(s[i]))
  }

  lemma DedupedKeys(key: Record -> string, records: seq<Record>, s: seq<Record>)
    requires IsDeduped(key, records, s)
    ensures Rises(StrLess, Keys(key, s))
    ensures forall k :: k in Keys(key, s) <==> exists r :: r in records && r.kind == TYPE_VPC && key(r) == k
  {
    forall k ensures k in Keys(key, s) <==> exists r :: r in records && r.kind == TYPE_VPC && key(r) == k {
      if k in Keys(key, s) {
        var i :| 0 <= i < |s| && Keys(key, s)[i] == k;
        GroupMembers(key, records, k, s[i]);
      }
      if r :| r in records && r.kind == TYPE_VPC && key(r) == k {
        var i :| 0 <= i < |s| && key(s[i]) == k;
        assert Keys(key, s)[i] == k;
      }
    }
  }

  lemma SamePosition(a: Record, b: Record)
    requires !SourceLess(a, b) && !SourceLess(b, a)
    ensures a.sourceFile == b.sourceFile && a.sourceRow == b.sourceRow
  {
    StrOrder(a.sourceFile, b.sourceFile);
  }

  /** Reordering the rows changes neither the survivors nor their order. */
  lemma DedupeOrderIndependent(
    key: Record -> string, records: seq<Record>, shuffled: seq<Record>, s: seq<Record>, t: seq<Record>)
    requires multiset(records) == multiset(shuffled) && PositionsDetermine(key, records)
    requires IsDeduped(key, records, s) && IsDeduped(key, shuffled, t)
    ensures s == t
  {
    forall r ensures r in records <==> r in shuffled {
      InMultiset(records, r);
      InMultiset(shuffled, r);
    }
    DedupedKeys(key, records, s);
    DedupedKeys(key, shuffled, t);
    StrOrders();
    RisesUnique(StrLess, Keys(key, s), Keys(key, t));
    assert |s| == |Keys(key, s)| == |t|;
    forall i | 0 <= i < |s| ensures s[i] == t[i] {
      assert Keys(key, s)[i] == Keys(key, t)[i];
      var k := key(s[i]);
      GroupMembers(key, records, k, s[i]);
      GroupMembers(key, records, k, t[i]);
      GroupMembers(key, shuffled, k, s[i]);
      GroupMembers(key, shuffled, k, t[i]);
      SamePosition(s[i], t[i]);
    }
  }

  // ----- buildAssociations -----

  /** A row whose CIDR is not a canonical IPv4 prefix, excluded from every comparison. */
  datatype Note = Note(sourceFile: string, sourceRow: int)

  /** The fixed table's own order: cidr, description, owner, source position. */
  predicate FixedBefore(a: FixedRange, b: FixedRange) {
    if a.cidr != b.cidr then StrLess(a.cidr, b.cidr)
    else if a.description != b.description then StrLess(a.description, b.description)
    else if a.owner != b.owner then StrLess(a.owner, b.owner)
    else if a.sourceFile != b.sourceFile then StrLess(a.sourceFile, b.sourceFile)
    else a.sourceRow < b.sourceRow
  }

  lemma FixedTransitive(a: FixedRange, b: FixedRange, c: FixedRange)
    requires !FixedBefore(b, a) && !FixedBefore(c, b)
    ensures !FixedBefore(c, a)
  {
    StrStep(a.cidr, b.cidr, c.cidr);
    if a.cidr == b.cidr == c.cidr {
      StrStep(a.description, b.description, c.description);
      if a.description == b.description == c.description {
        StrStep(a.owner, b.owner, c.owner);
        if a.owner == b.owner == c.owner {
          StrStep(a.sourceFile, b.sourceFile, c.sourceFile);
        }
      }
    }
  }

  /** What one field of a lexicographic comparison contributes. */
  lemma StrStep(a: string, b: string, c: string)
    ensures a != b ==> (StrLess(a, b) <==> !StrLess(b, a))
    ensures b != c ==> (StrLess(b, c) <==> !StrLess(c, b))
    ensures a != c ==> (StrLess(a, c) <==> !StrLess(c, a))
    ensures !StrLess(b, a) && !StrLess(c, b) ==> !StrLess(c, a) && (a == c ==> a == b)
  {
    StrOrder(a, b);
    StrOrder(b, c);
    StrOrder(a, c);
    if !StrLess(b, a) && !StrLess(c, b) { StrTransitive(a, b, c); }
  }

  lemma FixedOrders()
    ensures Orders(FixedBefore)
    ensures forall a, b :: !FixedBefore(a, b) && !FixedBefore(b, a) ==> a == b
  {
    forall a: FixedRange, b: FixedRange
      ensures FixedBefore(a, b) ==> !FixedBefore(b, a)
      ensures !FixedBefore(a, b) && !FixedBefore(b, a) ==> a == b
    {
      StrOrder(a.cidr, b.cidr);
      StrOrder(a.description, b.description);
      StrOrder(a.owner, b.owner);
      StrOrder(a.sourceFile, b.sourceFile);
    }
    forall a: FixedRange, b: FixedRange, c: FixedRange | !FixedBefore(b, a) && !FixedBefore(c, b)
      ensures !FixedBefore(c, a)
    {
      FixedTransitive(a, b, c);
    }
  }

  /** One observed item per survivor that parses, in survivor order. */
  function ObservedItems(parse: Parser, records: seq<Record>): seq<Association> {
    if records == [] then []
    else
      var r := records[|records| - 1];
      ObservedItems(parse, records[..|records| - 1]) +
      if parse(r.cidr).Some? then [Observed(parse(r.cidr).value, r)] else []
  }

  /** One fixed item per CIDR that parses: its first row in table order. */
  function FixedItems(parse: Parser, ordered: seq<FixedRange>): seq<Association> {
    if ordered == [] then []
    else
      var init, fx := ordered[..|ordered| - 1], ordered[|ordered| - 1];
      FixedItems(parse, init) +
      if parse(fx.cidr).Some? && !Named(init, fx.cidr) then [Fixed(parse(fx.cidr).value, fx)] else []
  }

  predicate Named(rows: seq<FixedRange>, cidr: string) {
    exists i :: 0 <= i < |rows| && rows[i].cidr == cidr
  }

  function Items(parse: Parser, records: seq<Record>, fixed: seq<FixedRange>): seq<Association> {
    ObservedItems(parse, records) + FixedItems(parse, Sort(FixedBefore, fixed))
  }

  /** The notes, one per row that does not parse, in row order. */
  function RecordNotes(parse: Parser, records: seq<Record>): seq<Note> {
    if records == [] then []
    else
      var r := records[|records| - 1];
      RecordNotes(parse, records[..|records| - 1]) +
      if parse(r.cidr).None? then [Note(r.sourceFile, r.sourceRow)] else []
  }

  function FixedNotes(parse: Parser, rows: seq<FixedRange>): seq<Note> {
    if rows == [] then []
    else
      var fx := rows[|rows| - 1];
      FixedNotes(parse, rows[..|rows| - 1]) +
      if parse(fx.cidr).None? then [Note(fx.sourceFile, fx.sourceRow)] else []
  }

  method AddRecords(parse: Parser, records: seq<Record>) returns (items: seq<Association>, notes: seq<Note>)
    ensures items == ObservedItems(parse, records) && notes == RecordNotes(parse, records)
  {
    items, notes := [], [];
    for i := 0 to |records|
      invariant items == ObservedItems(parse, records[..i]) && notes == RecordNotes(parse, records[..i])
    {
      var r := records[i];
      assert records[..i + 1][..i] == records[..i];
      if parse(r.cidr).None? {
        notes := notes + [Note(r.sourceFile, r.sourceRow)];
        continue;
      }
      items := items + [Observed(parse(r.cidr).value, r)];
    }
    assert records[..|records|] == records;
  }

  method AddFixed(parse: Parser, ordered: seq<FixedRange>) returns (items: seq<Association>, notes: seq<Note>)
    ensures items == FixedItems(parse, ordered) && notes == FixedNotes(parse, ordered)
  {
    items, notes := [], [];
    var seen: set<string> := {};
    for i := 0 to |ordered|
      invariant items == FixedItems(parse, ordered[..i]) && notes == FixedNotes(parse, ordered[..i])
      invariant forall c :: c in seen <==> parse(c).Some? && Named(ordered[..i], c)
    {
      var fx := ordered[i];
      assert ordered[..i + 1] == ordered[..i] + [fx] && ordered[..i + 1][..i] == ordered[..i];
      NamedStep(ordered[..i], fx);
      if parse(fx.cidr).None? {
        notes := notes + [Note(fx.sourceFile, fx.sourceRow)];
        continue;
      }
      if fx.cidr in seen {
        continue;
      }
      seen := seen + {fx.cidr};
      items := items + [Fixed(parse(fx.cidr).value, fx)];
    }
    assert ordered[..|ordered|] == ordered;
  }

  method BuildAssociations(parse: Parser, records: seq<Record>, fixed: seq<FixedRange>)
    returns (items: seq<Association>, notes: seq<Note>)
    ensures items == Items(parse, records, fixed)
    ensures notes == RecordNotes(parse, records) + FixedNotes(parse, Sort(FixedBefore, fixed))
  {
    items, notes := AddRecords(parse, records);
    var more, moreNotes := AddFixed(parse, Sort(FixedBefore, fixed));
    items, notes := items + more, notes + moreNotes;
  }

  lemma NamedStep(rows: seq<FixedRange>, fx: FixedRange)
    ensures forall c :: Named(rows + [fx], c) <==> Named(rows, c) || c == fx.cidr
  {
    forall c ensures Named(rows + [fx], c) <==> Named(rows, c) || c == fx.cidr {
      if Named(rows, c) {
        var i :| 0 <= i < |rows| && rows[i].cidr == c;
        assert (rows + [fx])[i].cidr == c;
      }
      assert (rows + [fx])[|rows|].cidr == fx.cidr;
    }
  }

  /**
    Reordering the inventory rows and the fixed table leaves the sweep items,
    and so the emitted relationship list, unchanged.
   */
  lemma PipelineOrderIndependent(
    parse: Parser, records: seq<Record>, records': seq<Record>, fixed: seq<FixedRange>, fixed': seq<FixedRange>,
    s: seq<Record>, s': seq<Record>)
    requires multiset(records) == multiset(records') && multiset(fixed) == multiset(fixed')
    requires PositionsDetermine(KeyOf, records)
    requires IsDeduped(KeyOf, records, s) && IsDeduped(KeyOf, records', s')
    ensures s == s' && Items(parse, s, fixed) == Items(parse, s', fixed')
    ensures Emitted(Sort(Before, Items(parse, s, fixed))) == Emitted(Sort(Before, Items(parse, s', fixed')))
  {
    DedupeOrderIndependent(KeyOf, records, records', s, s');
    FixedOrders();
    SortSorts(FixedBefore, fixed);
    SortSorts(FixedBefore, fixed');
    SortedUnique(FixedBefore, Sort(FixedBefore, fixed), Sort(FixedBefore, fixed'));
  }

  lemma {:induction false} ObservedItemsFrom(parse: Parser, records: seq<Record>, a: Association)
    requires a in ObservedItems(parse, records)
    ensures a.Observed? && a.rec in records && parse(a.rec.cidr) == Some(a.net)
    decreases |records|
  {
    var init, r := records[..|records| - 1], records[|records| - 1];
    if a in ObservedItems(parse, init) {
      ObservedItemsFrom(parse, init, a);
    }
  }

  lemma {:induction false} FixedItemsFrom(parse: Parser, rows: seq<FixedRange>, a: Association)
    requires a in FixedItems(parse, rows)
    ensures a.Fixed? && a.fx in rows && parse(a.fx.cidr) == Some(a.net)
    decreases |rows|
  {
    var init := rows[..|rows| - 1];
    if a in FixedItems(parse, init) {
      FixedItemsFrom(parse, init, a);
    }
  }

  /** Every item is a survivor or a fixed row, with the prefix its CIDR parses to. */
  lemma ItemsFrom(parse: Parser, records: seq<Record>, fixed: seq<FixedRange>, a: Association)
    requires a in Items(parse, records, fixed)
    ensures a.net.Valid()
    ensures a.Observed? ==> a.rec in records && parse(a.rec.cidr) == Some(a.net)
    ensures a.Fixed? ==> a.fx in fixed && parse(a.fx.cidr) == Some(a.net)
  {
    if a in ObservedItems(parse, records) {
      ObservedItemsFrom(parse, records, a);
    } else {
      FixedItemsFrom(parse, Sort(FixedBefore, fixed), a);
      InMultiset(Sort(FixedBefore, fixed), a.fx);
      InMultiset(fixed, a.fx);
    }
  }
}
