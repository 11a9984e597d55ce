/**
  The contributor list of an imported prefix and the additive merge a refresh
  applies to it (internal/netbox/refresh.go).
 */
module Contributors {
  import opened Optional
  import opened Ordering
  import opened NetBox

  /** The order a list is written in: source file, source row, identity. */
  predicate Before(a: Contributor, b: Contributor) {
    if a.sourceFile != b.sourceFile then StrLess(a.sourceFile, b.sourceFile)
    else if a.sourceRow != b.sourceRow then a.sourceRow < b.sourceRow
    else StrLess(a.identity, b.identity)
  }

  lemma BeforeOrders()
    ensures Orders(Before)
    ensures forall a: Contributor, b: Contributor :: a.identity != b.identity ==> Before(a, b) || Before(b, a)
  {
    forall a: Contributor, b: Contributor
      ensures (Before(a, b) ==> !Before(b, a)) && (a.identity != b.identity ==> Before(a, b) || Before(b, a))
    {
      StrOrder(a.sourceFile, b.sourceFile);
      StrOrder(a.identity, b.identity);
    }
    forall a: Contributor, b: Contributor, c: Contributor | !Before(b, a) && !Before(c, b) ensures !Before(c, a) {
      NotAfterTransitive(a, b, c);
    }
  }

  lemma NotAfterTransitive(a: Contributor, b: Contributor, c: Contributor)
    requires !Before(b, a) && !Before(c, b)
    ensures !Before(c, a)
  {
    StrOrder(a.sourceFile, b.sourceFile);
    StrOrder(b.sourceFile, c.sourceFile);
    StrOrder(a.sourceFile, c.sourceFile);
    if !StrLess(b.sourceFile, a.sourceFile) && !StrLess(c.sourceFile, b.sourceFile) {
      StrTransitive(a.sourceFile, b.sourceFile, c.sourceFile);
    }
    if !StrLess(b.identity, a.identity) && !StrLess(c.identity, b.identity) {
      StrTransitive(a.identity, b.identity, c.identity);
    }
  }

  type Index = map<string, Contributor>

  ghost function Identities(list: seq<Contributor>): set<string> {
    set c | c in list :: c.identity
  }

  lemma IdentitiesSnoc(list: seq<Contributor>, n: nat)
    requires n < |list|
    ensures Identities(list[..n + 1]) == Identities(list[..n]) + {list[n].identity}
    ensures list[..n + 1][..n] == list[..n]
  {
    assert list[..n + 1] == list[..n] + [list[n]];
  }

  /** The last entry of each identity. */
  ghost function Held(list: seq<Contributor>): Index {
    if list == [] then map[] else Held(list[..|list| - 1])[list[|list| - 1].identity := list[|list| - 1]]
  }

  /** What a further sighting changes: the times it was seen, never where it was first recorded. */
  function Touch(prior: Contributor, w: Contributor): Contributor {
    prior.(
      observedAt := if w.observedAt.Some? then w.observedAt else prior.observedAt,
      lastSeenBatch := w.lastSeenBatch)
  }

  ghost function Absorbed(held: Index, want: seq<Contributor>): Index {
    if want == [] then held
    else
      var m, w := Absorbed(held, want[..|want| - 1]), want[|want| - 1];
      m[w.identity := if w.identity in m then Touch(m[w.identity], w) else w]
  }

  /** Every entry filed under its own identity. */
  ghost predicate Keyed(m: Index) {
    forall id :: id in m ==> m[id].identity == id
  }

  lemma {:induction false} HeldKeyed(list: seq<Contributor>)
    ensures Keyed(Held(list)) && Held(list).Keys == Identities(list)
    decreases |list|
  {
    if list != [] {
      var init, last := list[..|list| - 1], list[|list| - 1];
      HeldKeyed(init);
      IdentitiesSnoc(list, |list| - 1);
      assert list[..|list|] == list;
    }
  }

  lemma {:induction false} AbsorbedKeyed(held: Index, want: seq<Contributor>)
    requires Keyed(held)
    ensures Keyed(Absorbed(held, want)) && Absorbed(held, want).Keys == held.Keys + Identities(want)
    decreases |want|
  {
    if want != [] {
      var init, last := want[..|want| - 1], want[|want| - 1];
      AbsorbedKeyed(held, init);
      IdentitiesSnoc(want, |want| - 1);
      assert want[..|want|] == want;
    }
  }

  /** The entries of an index, each once, in the order of Before. */
  ghost predicate Lists(m: Index, s: seq<Contributor>) {
    && (forall c :: c in s <==> c.identity in m && m[c.identity] == c)
    && Rises(Before, s)
  }

  ghost function MergedIndex(existing: seq<Contributor>, want: seq<Contributor>): Index {
    Absorbed(Held(existing), want)
  }

  method IndexEntries(existing: seq<Contributor>) returns (m: Index)
    ensures m == Held(existing)
  {
    m := map[];
    for i := 0 to |existing|
      invariant m == Held(existing[..i])
    {
      assert existing[..i + 1][..i] == existing[..i];
      m := m[existing[i].identity := existing[i]];
    }
    assert existing[..|existing|] == existing;
  }

  method AbsorbEntries(held: Index, want: seq<Contributor>) returns (m: Index, grew: bool)
    requires Keyed(held)
    ensures m == Absorbed(held, want)
    ensures grew <==> !(Identities(want) <= held.Keys)
  {
    m, grew := held, false;
    for i := 0 to |want|
      invariant m == Absorbed(held, want[..i])
      invariant grew <==> !(Identities(want[..i]) <= held.Keys)
    {
      IdentitiesSnoc(want, i);
      AbsorbedKeyed(held, want[..i]);
      var w := want[i];
      if w.identity !in m {
        grew := true;
        m := m[w.identity := w];
      } else {
        m := m[w.identity := Touch(m[w.identity], w)];
      }
    }
    assert want[..|want|] == want;
  }

  /** Collects the map's values in whatever order they come, then sorts them. */
  method SortedEntries(m: Index) returns (s: seq<Contributor>)
    requires Keyed(m)
    ensures Lists(m, s)
  {
    var out: seq<Contributor> := [];
    var pending := m.Keys;
    while pending != {}
      invariant pending <= m.Keys
      invariant forall c :: c in out <==> c.identity in m && c.identity !in pending && m[c.identity] == c
      invariant Distinct(out)
      decreases |pending|
    {
      var id :| id in pending;
      DistinctAppend(out, m[id]);
      out := out + [m[id]];
      pending := pending - {id};
    }
    s := Sort(Before, out);
    SortLists(m, out, s);
  }

  ghost predicate Distinct(s: seq<Contributor>) {
    forall i, j :: 0 <= i < j < |s| ==> s[i].identity != s[j].identity
  }

  lemma DistinctAppend(s: seq<Contributor>, c: Contributor)
    requires Distinct(s) && forall d :: d in s ==> d.identity != c.identity
    ensures Distinct(s + [c])
  {
    forall i, j | 0 <= i < j < |s + [c]| ensures (s + [c])[i].identity != (s + [c])[j].identity {
      assert s[i] in s;
    }
  }

  lemma {:induction false} DistinctCount(s: seq<Contributor>, c: Contributor)
    requires Distinct(s)
    ensures multiset(s)[c] <= 1
    decreases |s|
  {
    if s != [] {
      var init, last := s[..|s| - 1], s[|s| - 1];
      assert s == init + [last];
      DistinctCount(init, c);
      assert last !in init;
    }
  }

  lemma SortLists(m: Index, out: seq<Contributor>, s: seq<Contributor>)
    requires Keyed(m) && s == Sort(Before, out) && Distinct(out)
    requires forall c :: c in out <==> c.identity in m && m[c.identity] == c
    ensures Lists(m, s)
  {
    BeforeOrders();
    SortSorts(Before, out);
    forall c ensures c in s <==> c in out {
      InMultiset(s, c);
      InMultiset(out, c);
    }
    forall i, j | 0 <= i < j < |s| ensures Before(s[i], s[j]) || Before(s[j], s[i]) {
      PermutedDiffer(out, s, i, j);
      assert s[i] in s && s[j] in s;
    }
    SortedRises(Before, s);
  }

  lemma PermutedDiffer(out: seq<Contributor>, s: seq<Contributor>, i: nat, j: nat)
    requires Distinct(out) && multiset(s) == multiset(out) && i < j < |s|
    ensures s[i] != s[j]
  {
    DistinctCount(out, s[i]);
    assert s == s[..j] + s[j..];
    assert s[i] in s[..j] && s[j] in s[j..];
  }

  /** mergeContributors: existing is None when the prefix carries no list at all. */
  method MergeContributors(existing: Option<seq<Contributor>>, want: seq<Contributor>)
    returns (merged: seq<Contributor>, changed: bool)
    ensures changed <==> existing.None? || !(Identities(want) <= Identities(existing.value))
    ensures changed ==> Lists(MergedIndex(existing.UnwrapOr([]), want), merged)
    ensures !changed ==> merged == []
  {
    var list := existing.UnwrapOr([]);
    var held := IndexEntries(list);
    HeldKeyed(list);
    var m, grew := AbsorbEntries(held, want);
    if existing.Some? && !grew {
      return [], false;
    }
    AbsorbedKeyed(held, want);
    merged := SortedEntries(m);
    changed := true;
  }

  // ----- what a merge promises -----

  /** The map's iteration order does not show: an index has one listing. */
  lemma ListingUnique(m: Index, s: seq<Contributor>, t: seq<Contributor>)
    requires Lists(m, s) && Lists(m, t)
    ensures s == t
  {
    BeforeOrders();
    RisesUnique(Before, s, t);
  }

  /** An entry a merge may leave of an earlier one: the same sighting, no less observed. */
  predicate Keeps(was: Contributor, now: Contributor) {
    && now == was.(observedAt := now.observedAt, lastSeenBatch := now.lastSeenBatch)
    && (was.observedAt.Some? ==> now.observedAt.Some?)
  }

  lemma {:induction false} AbsorbedKeeps(held: Index, want: seq<Contributor>, id: string)
    requires id in held
    ensures id in Absorbed(held, want) && Keeps(held[id], Absorbed(held, want)[id])
    decreases |want|
  {
    if want != [] {
      AbsorbedKeeps(held, want[..|want| - 1], id);
    }
  }

  lemma {:induction false} HeldOnce(list: seq<Contributor>, c: Contributor)
    requires c in list && forall d :: d in list && d.identity == c.identity ==> d == c
    ensures c.identity in Held(list) && Held(list)[c.identity] == c
    decreases |list|
  {
    var init, last := list[..|list| - 1], list[|list| - 1];
    assert list == init + [last];
    if last.identity != c.identity {
      HeldOnce(init, c);
    }
  }

  /** No merge loses an entry, the batch it was first seen in, or the fact of an observation. */
  lemma MergeKeeps(existing: seq<Contributor>, want: seq<Contributor>, merged: seq<Contributor>, c: Contributor)
    requires Lists(MergedIndex(existing, want), merged)
    requires c in existing && forall d :: d in existing && d.identity == c.identity ==> d == c
    ensures exists now :: now in merged && Keeps(c, now)
  {
    HeldKeyed(existing);
    HeldOnce(existing, c);
    AbsorbedKeyed(Held(existing), want);
    AbsorbedKeeps(Held(existing), want, c.identity);
    var now := MergedIndex(existing, want)[c.identity];
    assert now in merged && Keeps(c, now);
  }

  /** The identities afterwards are those that were there and those of the table, one entry each. */
  lemma MergeIdentities(existing: seq<Contributor>, want: seq<Contributor>, merged: seq<Contributor>)
    requires Lists(MergedIndex(existing, want), merged)
    ensures Identities(merged) == Identities(existing) + Identities(want)
    ensures Distinct(merged)
  {
    HeldKeyed(existing);
    AbsorbedKeyed(Held(existing), want);
    var m := MergedIndex(existing, want);
    forall id | id in m ensures id in Identities(merged) {
      assert m[id] in merged;
    }
    BeforeOrders();
    forall i, j | 0 <= i < j < |merged| ensures merged[i].identity != merged[j].identity {
      assert merged[i] in merged && merged[j] in merged;
      assert Before(merged[i], merged[j]);
    }
  }

  /** Merging the same table into its own result changes nothing, whatever its times say. */
  lemma MergeAgain(existing: seq<Contributor>, want: seq<Contributor>, merged: seq<Contributor>, again: seq<Contributor>)
    requires Lists(MergedIndex(existing, want), merged)
    requires Identities(again) <= Identities(want)
    ensures Identities(again) <= Identities(merged)
  {
    MergeIdentities(existing, want, merged);
  }

  // ----- what a sighting records -----

  /** Everything about an entry but when and in which batch it was last seen. */
  predicate SameRecord(a: Contributor, b: Contributor) {
    && a.identity == b.identity && a.resource == b.resource && a.detail == b.detail && a.firstSeenBatch == b.firstSeenBatch
    && a.sourceFile == b.sourceFile && a.sourceRow == b.sourceRow
  }

  ghost predicate LastOf(want: seq<Contributor>, i: nat) {
    i < |want| && forall j :: i < j < |want| ==> want[j].identity != want[i].identity
  }

  ghost predicate FirstOf(want: seq<Contributor>, i: nat) {
    i < |want| && forall j :: 0 <= j < i ==> want[j].identity != want[i].identity
  }

  /** The last row about an identity decides its batch, and its time if it has one. */
  lemma {:induction false} SightingRecorded(held: Index, want: seq<Contributor>, i: nat)
    requires LastOf(want, i) && Keyed(held)
    ensures var m := Absorbed(held, want);
      && want[i].identity in m && m[want[i].identity].lastSeenBatch == want[i].lastSeenBatch
      && (want[i].observedAt.Some? ==> m[want[i].identity].observedAt == want[i].observedAt)
    decreases |want|
  {
    var init := want[..|want| - 1];
    if i < |init| {
      SightingRecorded(held, init, i);
    }
  }

  /** An identity without rows keeps its entry, and one whose rows have no time keeps its time. */
  lemma {:induction false} UnseenKept(held: Index, want: seq<Contributor>, id: string)
    requires id in held
    ensures id in Absorbed(held, want) && SameRecord(Absorbed(held, want)[id], held[id])
    ensures id !in Identities(want) ==> Absorbed(held, want)[id] == held[id]
    ensures (forall i :: 0 <= i < |want| && want[i].identity == id ==> want[i].observedAt.None?) ==>
      Absorbed(held, want)[id].observedAt == held[id].observedAt
    decreases |want|
  {
    if want != [] {
      var init := want[..|want| - 1];
      UnseenKept(held, init, id);
      assert want == init + [want[|want| - 1]];
      IdentitiesSnoc(want, |want| - 1);
      assert want[..|want|] == want;
      assert forall i :: 0 <= i < |init| ==> init[i] == want[i];
    }
  }

  /** A new identity is recorded as its first row has it. */
  lemma {:induction false} NewcomerRecorded(held: Index, want: seq<Contributor>, i: nat)
    requires FirstOf(want, i) && want[i].identity !in held
    ensures want[i].identity in Absorbed(held, want) && SameRecord(Absorbed(held, want)[want[i].identity], want[i])
    decreases |want|
  {
    var init, id := want[..|want| - 1], want[i].identity;
    if i < |init| {
      NewcomerRecorded(held, init, i);
    } else {
      StillAbsent(held, init, id);
    }
  }

  lemma {:induction false} StillAbsent(held: Index, want: seq<Contributor>, id: string)
    requires id !in held && forall j :: 0 <= j < |want| ==> want[j].identity != id
    ensures id !in Absorbed(held, want)
    decreases |want|
  {
    if want != [] {
      StillAbsent(held, want[..|want| - 1], id);
    }
  }

  /** The list is written by source file, then by source row, then by identity. */
  lemma ListOrder(m: Index, list: seq<Contributor>, i: nat, j: nat)
    requires Lists(m, list) && i < j < |list|
    ensures !StrLess(list[j].sourceFile, list[i].sourceFile)
    ensures list[i].sourceFile == list[j].sourceFile ==> list[i].sourceRow <= list[j].sourceRow
    ensures list[i].sourceFile == list[j].sourceFile && list[i].sourceRow == list[j].sourceRow ==>
      StrLess(list[i].identity, list[j].identity)
  {
    assert Before(list[i], list[j]);
    StrOrder(list[i].sourceFile, list[j].sourceFile);
  }
}
