/**
  The coverage result of internal/assess/coverage.go: what the run recorded,
  what the inputs show, and when the two together make a complete statement.
 */
module Coverage {
  import opened Ordering
  import opened AssessTypes
  import opened Optional

  const STAGE_DESCRIBE := "describe"
  const ACTIVE := "ACTIVE"

  datatype AccountRegion = AccountRegion(account: string, region: string)

  datatype FailedEntry = FailedEntry(account: string, region: string, stage: string, error: string)

  datatype Mismatch = Mismatch(account: string, region: string, recorded: nat, present: nat)

  datatype Coverage = Coverage(
    complete: bool, failed: seq<FailedEntry>, partial: seq<AccountRegion>, notAttempted: seq<AccountRegion>,
    readEmpty: seq<AccountRegion>, runMissing: bool, accountsMissing: bool,
    short: seq<Mismatch>, exceeded: seq<Mismatch>)

  // ----- source rows present -----

  function Place(r: Record): AccountRegion {
    AccountRegion(r.account, r.region)
  }

  predicate Sourced(r: Record) {
    r.sourceFile != "" || r.sourceRow != 0
  }

  predicate SameRow(a: Record, b: Record) {
    Sourced(a) && a.sourceFile == b.sourceFile && a.sourceRow == b.sourceRow
  }

  /** Row i is the first reading of its physical row; a row that names no source is always its own. */
  predicate FirstReading(records: seq<Record>, i: nat)
    requires i < |records|
  {
    forall j :: 0 <= j < i ==> !SameRow(records[j], records[i])
  }

  /** The physical source rows among the first n that name an account and region. */
  ghost function RowsAt(records: seq<Record>, n: nat, at: AccountRegion): set<nat>
    requires n <= |records|
  {
    set i: nat | i < n && FirstReading(records, i) && Place(records[i]) == at
  }

  function CountAt(counts: map<AccountRegion, nat>, at: AccountRegion): nat {
    if at in counts then counts[at] else 0
  }

  lemma RowsStep(records: seq<Record>, n: nat, at: AccountRegion)
    requires n < |records|
    ensures |RowsAt(records, n + 1, at)| ==
            |RowsAt(records, n, at)| + if FirstReading(records, n) && Place(records[n]) == at then 1 else 0
  {
    assert RowsAt(records, n + 1, at) ==
           RowsAt(records, n, at) + if FirstReading(records, n) && Place(records[n]) == at then {n} else {};
  }

  ghost predicate Read(records: seq<Record>, n: nat, file: string, row: int)
    requires n <= |records|
  {
    exists j :: 0 <= j < n && Sourced(records[j]) && records[j].sourceFile == file && records[j].sourceRow == row
  }

  lemma FirstIsUnread(records: seq<Record>, n: nat)
    requires n < |records|
    ensures FirstReading(records, n) <==> !Sourced(records[n]) || !Read(records, n, records[n].sourceFile, records[n].sourceRow)
  {
  }

  /** A row is left out of the count exactly when it names its source, a file or a line, and an earlier row names the same. */
  lemma CountedOnceIff(records: seq<Record>, i: nat)
    requires i < |records|
    ensures !FirstReading(records, i) <==>
      && (records[i].sourceFile != "" || records[i].sourceRow != 0)
      && exists j :: 0 <= j < i && (records[j].sourceFile, records[j].sourceRow) == (records[i].sourceFile, records[i].sourceRow)
  {
  }

  lemma ReadStep(records: seq<Record>, n: nat, file: string, row: int)
    requires n < |records|
    ensures Read(records, n + 1, file, row) <==>
            Read(records, n, file, row) || (Sourced(records[n]) && records[n].sourceFile == file && records[n].sourceRow == row)
  {
  }

  ghost predicate CountsRows(records: seq<Record>, n: nat, counts: map<AccountRegion, nat>)
    requires n <= |records|
  {
    forall at :: CountAt(counts, at) == |RowsAt(records, n, at)|
  }

  lemma CountsStep(records: seq<Record>, n: nat, counts: map<AccountRegion, nat>)
    requires n < |records| && CountsRows(records, n, counts)
    ensures !FirstReading(records, n) ==> CountsRows(records, n + 1, counts)
    ensures FirstReading(records, n) ==>
      CountsRows(records, n + 1, counts[Place(records[n]) := CountAt(counts, Place(records[n])) + 1])
  {
    var r := records[n];
    var counts' := counts[Place(r) := CountAt(counts, Place(r)) + 1];
    forall at
      ensures |RowsAt(records, n + 1, at)| == if FirstReading(records, n) then CountAt(counts', at) else CountAt(counts, at)
    {
      RowsStep(records, n, at);
    }
  }

  method PresentRowCounts(records: seq<Record>) returns (counts: map<AccountRegion, nat>)
    ensures CountsRows(records, |records|, counts)
  {
    counts := map[];
    var seen: set<(string, int)> := {};
    for n := 0 to |records|
      invariant forall file, row :: (file, row) in seen <==> Read(records, n, file, row)
      invariant CountsRows(records, n, counts)
    {
      var r := records[n];
      FirstIsUnread(records, n);
      CountsStep(records, n, counts);
      forall file, row ensures Read(records, n + 1, file, row) <==>
        (file, row) in seen || (Sourced(r) && file == r.sourceFile && row == r.sourceRow)
      {
        ReadStep(records, n, file, row);
      }
      if Sourced(r) {
        if (r.sourceFile, r.sourceRow) in seen {
          continue;
        }
        seen := seen + {(r.sourceFile, r.sourceRow)};
      }
      counts := counts[Place(r) := CountAt(counts, Place(r)) + 1];
    }
  }

  // ----- lists -----

  predicate PlaceLess(a: AccountRegion, b: AccountRegion) {
    if a.account != b.account then StrLess(a.account, b.account) else StrLess(a.region, b.region)
  }

  lemma PlaceOrders()
    ensures Orders(PlaceLess)
    ensures forall a, b :: !PlaceLess(a, b) && !PlaceLess(b, a) ==> a == b
  {
    forall a: AccountRegion, b: AccountRegion
      ensures PlaceLess(a, b) ==> !PlaceLess(b, a)
      ensures !PlaceLess(a, b) && !PlaceLess(b, a) ==> a == b
    {
      StrOrder(a.account, b.account);
      StrOrder(a.region, b.region);
    }
    forall a: AccountRegion, b: AccountRegion, c: AccountRegion | !PlaceLess(b, a) && !PlaceLess(c, b) ensures !PlaceLess(c, a) {
      StrOrder(a.account, b.account);
      StrOrder(b.account, c.account);
      StrOrder(a.account, c.account);
      if !StrLess(b.account, a.account) && !StrLess(c.account, b.account) { StrTransitive(a.account, b.account, c.account); }
      if !StrLess(b.region, a.region) && !StrLess(c.region, b.region) { StrTransitive(a.region, b.region, c.region); }
    }
  }

  lemma PlaceChain(a: AccountRegion, b: AccountRegion, c: AccountRegion)
    requires (a == b || PlaceLess(a, b)) && !PlaceLess(c, b) && b != c
    ensures PlaceLess(a, c)
  {
    StrOrder(a.account, b.account);
    StrOrder(b.account, c.account);
    StrOrder(a.account, c.account);
    StrOrder(a.region, b.region);
    StrOrder(b.region, c.region);
    StrOrder(a.region, c.region);
    if !StrLess(b.account, a.account) && !StrLess(c.account, b.account) { StrTransitive(a.account, b.account, c.account); }
    if !StrLess(b.region, a.region) && !StrLess(c.region, b.region) { StrTransitive(a.region, b.region, c.region); }
  }

  /** Sorted, each entry once: the list is determined by its elements. */
  method DedupePlaces(list: seq<AccountRegion>) returns (out: seq<AccountRegion>)
    ensures forall e :: e in out <==> e in list
    ensures forall i, j :: 0 <= i < j < |out| ==> PlaceLess(out[i], out[j])
  {
    var sorted := Sort(PlaceLess, list);
    assert Sorted(PlaceLess, sorted) by { PlaceOrders(); SortSorts(PlaceLess, list); }
    out := DropRepeats(sorted);
    forall e ensures e in sorted <==> e in list {
      InMultiset(sorted, e);
      InMultiset(list, e);
    }
  }

  method DropRepeats(sorted: seq<AccountRegion>) returns (out: seq<AccountRegion>)
    requires Sorted(PlaceLess, sorted)
    ensures forall e :: e in out <==> e in sorted
    ensures forall i, j :: 0 <= i < j < |out| ==> PlaceLess(out[i], out[j])
  {
    out := [];
    for n := 0 to |sorted|
      invariant forall e :: e in out <==> e in sorted[..n]
      invariant forall i, j :: 0 <= i < j < |out| ==> PlaceLess(out[i], out[j])
      invariant if n == 0 then out == [] else out != [] && out[|out| - 1] == sorted[n - 1]
    {
      assert sorted[..n + 1] == sorted[..n] + [sorted[n]];
      if |out| > 0 && out[|out| - 1] == sorted[n] {
        continue;
      }
      forall i | 0 <= i < |out| ensures PlaceLess(out[i], sorted[n]) {
        PlaceChain(out[i], out[|out| - 1], sorted[n]);
      }
      out := out + [sorted[n]];
    }
    assert sorted[..|sorted|] == sorted;
  }

  // ----- what belongs in each list -----

  function FailurePlace(f: FailureRow): AccountRegion {
    AccountRegion(f.account, f.region)
  }

  function AttemptPlace(a: RunAttempt): AccountRegion {
    AccountRegion(a.account, a.region)
  }

  function FailureEntry(f: FailureRow): FailedEntry {
    FailedEntry(f.account, f.region, f.stage, f.error)
  }

  /** The entry for an attempt that was not read and has no failure row of its own. */
  function AttemptEntry(a: RunAttempt): FailedEntry {
    FailedEntry(a.account, a.region, a.stage,
                if a.outcome == Failed then "recorded in the run record and in no failure row" else "unknown outcome")
  }

  predicate Unread(a: RunAttempt) {
    a.outcome.Failed? || a.outcome.Unknown?
  }

  ghost predicate FailureRecorded(input: Input, at: AccountRegion) {
    exists i :: 0 <= i < |input.failures| && FailurePlace(input.failures[i]) == at
  }

  ghost predicate HasRows(input: Input, at: AccountRegion) {
    exists i :: 0 <= i < |input.records| && input.records[i].kind == TYPE_VPC && Place(input.records[i]) == at
  }

  ghost predicate IsActive(input: Input, account: string) {
    exists i :: 0 <= i < |input.accounts| && input.accounts[i].account == account && input.accounts[i].status == ACTIVE
  }

  predicate DescribeFailure(f: FailureRow) {
    f.region != "" && f.stage == STAGE_DESCRIBE
  }

  ghost predicate UnreadEntry(input: Input, a: RunAttempt, e: FailedEntry) {
    Unread(a) && !FailureRecorded(input, AttemptPlace(a)) && AttemptEntry(a) == e
  }

  ghost predicate IsFailed(input: Input, e: FailedEntry) {
    || (exists i :: 0 <= i < |input.failures| && FailureEntry(input.failures[i]) == e)
    || (input.run.Some? && exists i :: 0 <= i < |input.run.value| && UnreadEntry(input, input.run.value[i], e))
  }

  ghost predicate IsPartial(input: Input, at: AccountRegion) {
    || (HasRows(input, at) && exists i :: 0 <= i < |input.failures| && DescribeFailure(input.failures[i]) && FailurePlace(input.failures[i]) == at)
    || (input.run.Some? && exists i :: 0 <= i < |input.run.value| && input.run.value[i].outcome.Partial? && AttemptPlace(input.run.value[i]) == at)
  }

  /** Anything at all says this account was visited: an attempt, or without a run record a VPC row or a failure. */
  ghost predicate Visited(input: Input, account: string) {
    match input.run
    case Some(attempts) => exists i :: 0 <= i < |attempts| && attempts[i].account == account
    case None =>
      || (exists at: AccountRegion :: at.account == account && HasRows(input, at))
      || (exists i :: 0 <= i < |input.failures| && input.failures[i].account == account)
  }

  ghost predicate IsNotAttempted(input: Input, at: AccountRegion) {
    || (at.region == "" && IsActive(input, at.account) && !Visited(input, at.account))
    || (input.run.Some? && exists i :: 0 <= i < |input.run.value| && input.run.value[i].outcome.NotAttempted? && AttemptPlace(input.run.value[i]) == at)
  }

  ghost predicate IsReadEmpty(input: Input, at: AccountRegion) {
    input.run.Some? && !HasRows(input, at) &&
    exists i :: 0 <= i < |input.run.value| && input.run.value[i].outcome.Succeeded? && AttemptPlace(input.run.value[i]) == at
  }

  predicate Counted(a: RunAttempt) {
    (a.outcome.Succeeded? || a.outcome.Partial?) && a.rowCount.Some?
  }

  ghost function PresentAt(input: Input, at: AccountRegion): nat {
    |RowsAt(input.records, |input.records|, at)|
  }

  predicate RecordedBy(a: RunAttempt, m: Mismatch) {
    Counted(a) && a.account == m.account && a.region == m.region && a.rowCount == Some(m.recorded)
  }

  ghost predicate IsMismatch(input: Input, m: Mismatch) {
    && input.run.Some? && m.present == PresentAt(input, AccountRegion(m.account, m.region))
    && exists i :: 0 <= i < |input.run.value| && RecordedBy(input.run.value[i], m)
  }

  /** Every list holds exactly what belongs in it, and complete says they are empty and nothing is missing. */
  ghost predicate Exact(input: Input, c: Coverage) {
    && (forall e :: e in c.failed <==> IsFailed(input, e))
    && (forall at :: at in c.partial <==> IsPartial(input, at))
    && (forall at :: at in c.notAttempted <==> IsNotAttempted(input, at))
    && (forall at :: at in c.readEmpty <==> IsReadEmpty(input, at))
    && (forall m :: m in c.short <==> IsMismatch(input, m) && m.present < m.recorded)
    && (forall m :: m in c.exceeded <==> IsMismatch(input, m) && m.present > m.recorded)
    && c.runMissing == input.run.None? && c.accountsMissing == (input.accounts == [])
    && c.complete == (c.failed == [] && c.partial == [] && c.notAttempted == [] && !c.runMissing &&
                      !c.accountsMissing && c.short == [] && c.exceeded == [])
  }

  /** What a complete statement takes, said of the inputs alone. */
  ghost predicate CompleteRun(input: Input) {
    && input.run.Some? && input.accounts != [] && input.failures == []
    && (forall i :: 0 <= i < |input.run.value| ==> input.run.value[i].outcome.Succeeded?)
    && (forall account :: IsActive(input, account) ==> Visited(input, account))
    && (forall i :: 0 <= i < |input.run.value| && input.run.value[i].rowCount.Some? ==>
          input.run.value[i].rowCount.value == PresentAt(input, AttemptPlace(input.run.value[i])))
  }

  lemma EmptyIff<T>(s: seq<T>)
    ensures s == [] <==> forall x :: x !in s
  {
    if s != [] {
      assert s[0] in s;
    }
  }

  lemma FirstFailureCounts(input: Input)
    ensures input.failures != [] ==> IsFailed(input, FailureEntry(input.failures[0]))
  {
  }

  lemma CompleteMeans(input: Input, c: Coverage)
    requires Exact(input, c) && c.complete
    ensures CompleteRun(input)
  {
    FirstFailureCounts(input);
    forall i | 0 <= i < |input.run.value| ensures input.run.value[i].outcome.Succeeded? {
      var a := input.run.value[i];
      assert AttemptEntry(a) !in c.failed && AttemptPlace(a) !in c.partial && AttemptPlace(a) !in c.notAttempted;
      assert !UnreadEntry(input, a, AttemptEntry(a));
    }
    forall account | IsActive(input, account) ensures Visited(input, account) {
      assert AccountRegion(account, "") !in c.notAttempted;
    }
    forall i | 0 <= i < |input.run.value| && input.run.value[i].rowCount.Some?
      ensures input.run.value[i].rowCount.value == PresentAt(input, AttemptPlace(input.run.value[i]))
    {
      var a := input.run.value[i];
      var m := Mismatch(a.account, a.region, a.rowCount.value, PresentAt(input, AttemptPlace(a)));
      assert RecordedBy(a, m);
      assert m !in c.short && m !in c.exceeded;
    }
  }

  lemma CompleteHolds(input: Input, c: Coverage)
    requires Exact(input, c) && CompleteRun(input)
    ensures c.complete
  {
    EmptyIff(c.failed);
    EmptyIff(c.partial);
    EmptyIff(c.notAttempted);
    EmptyIff(c.short);
    EmptyIff(c.exceeded);
  }

  /** Coverage is reported complete exactly for a complete run. */
  lemma CompleteIff(input: Input, c: Coverage)
    requires Exact(input, c)
    ensures c.complete <==> CompleteRun(input)
  {
    if c.complete { CompleteMeans(input, c); }
    if CompleteRun(input) { CompleteHolds(input, c); }
  }

  // ----- computeCoverage -----

  method ReadFailures(input: Input) returns (failed: seq<FailedEntry>, recorded: set<AccountRegion>, describe: set<AccountRegion>)
    ensures forall e :: e in failed <==> exists i :: 0 <= i < |input.failures| && FailureEntry(input.failures[i]) == e
    ensures forall at :: at in recorded <==> FailureRecorded(input, at)
    ensures forall at :: at in describe <==>
      exists i :: 0 <= i < |input.failures| && DescribeFailure(input.failures[i]) && FailurePlace(input.failures[i]) == at
  {
    failed, recorded, describe := [], {}, {};
    for n := 0 to |input.failures|
      invariant forall e :: e in failed <==> exists i :: 0 <= i < n && FailureEntry(input.failures[i]) == e
      invariant forall at :: at in recorded <==> exists i :: 0 <= i < n && FailurePlace(input.failures[i]) == at
      invariant forall at :: at in describe <==>
        exists i :: 0 <= i < n && DescribeFailure(input.failures[i]) && FailurePlace(input.failures[i]) == at
    {
      var f := input.failures[n];
      recorded := recorded + {FailurePlace(f)};
      failed := failed + [FailureEntry(f)];
      if DescribeFailure(f) {
        describe := describe + {FailurePlace(f)};
      }
    }
  }

  method RowPlaces(input: Input) returns (places: set<AccountRegion>)
    ensures forall at :: at in places <==> HasRows(input, at)
  {
    places := {};
    for n := 0 to |input.records|
      invariant forall at :: at in places <==>
        exists i :: 0 <= i < n && input.records[i].kind == TYPE_VPC && Place(input.records[i]) == at
    {
      if input.records[n].kind == TYPE_VPC {
        places := places + {Place(input.records[n])};
      }
    }
  }

  method ActiveAccounts(input: Input) returns (active: set<string>)
    ensures forall account :: account in active <==> IsActive(input, account)
  {
    active := {};
    for n := 0 to |input.accounts|
      invariant forall account :: account in active <==>
        exists i :: 0 <= i < n && input.accounts[i].account == account && input.accounts[i].status == ACTIVE
    {
      if input.accounts[n].status == ACTIVE {
        active := active + {input.accounts[n].account};
      }
    }
  }

  /** The elements of a set, in whatever order the map iteration yields them. */
  method Elements<T(==)>(s: set<T>) returns (out: seq<T>)
    ensures forall x :: x in out <==> x in s
  {
    out := [];
    var rest := s;
    while rest != {}
      invariant rest <= s && forall x :: x in out <==> x in s - rest
      decreases rest
    {
      var x :| x in rest;
      out, rest := out + [x], rest - {x};
    }
  }

  /** ACTIVE accounts nothing visited, as whole-account entries. */
  method Unvisited(active: set<string>, visited: set<string>) returns (out: seq<AccountRegion>)
    ensures forall at :: at in out <==> at.region == "" && at.account in active && at.account !in visited
  {
    out := [];
    var accounts := Elements(active);
    for n := 0 to |accounts|
      invariant forall at :: at in out <==> at.region == "" && at.account in accounts[..n] && at.account !in visited
    {
      assert accounts[..n + 1] == accounts[..n] + [accounts[n]];
      if accounts[n] !in visited {
        out := out + [AccountRegion(accounts[n], "")];
      }
    }
    assert accounts[..|accounts|] == accounts;
  }

  datatype Attempted = Attempted(
    failed: seq<FailedEntry>, partial: seq<AccountRegion>, notAttempted: seq<AccountRegion>,
    readEmpty: seq<AccountRegion>, accounts: set<string>)

  ghost predicate UnreadIn(input: Input, attempts: seq<RunAttempt>, n: nat, e: FailedEntry)
    requires n <= |attempts|
  {
    exists i :: 0 <= i < n && UnreadEntry(input, attempts[i], e)
  }

  /** One of the first n attempts is at this place and had this outcome. */
  ghost predicate EndedIn(attempts: seq<RunAttempt>, n: nat, outcome: Outcome, at: AccountRegion)
    requires n <= |attempts|
  {
    exists i :: 0 <= i < n && attempts[i].outcome == outcome && AttemptPlace(attempts[i]) == at
  }

  ghost predicate AccountIn(attempts: seq<RunAttempt>, n: nat, account: string)
    requires n <= |attempts|
  {
    exists i :: 0 <= i < n && attempts[i].account == account
  }

  /** What the first n attempts of the run record put in each list. */
  ghost predicate AttemptsRead(input: Input, attempts: seq<RunAttempt>, n: nat, r: Attempted)
    requires n <= |attempts|
  {
    && (forall e :: e in r.failed <==> UnreadIn(input, attempts, n, e))
    && (forall at :: at in r.partial <==> EndedIn(attempts, n, Partial, at))
    && (forall at :: at in r.notAttempted <==> EndedIn(attempts, n, NotAttempted, at))
    && (forall at :: at in r.readEmpty <==> !HasRows(input, at) && EndedIn(attempts, n, Succeeded, at))
    && (forall account :: account in r.accounts <==> AccountIn(attempts, n, account))
  }

  lemma UnreadStep(input: Input, attempts: seq<RunAttempt>, n: nat, e: FailedEntry)
    requires n < |attempts|
    ensures UnreadIn(input, attempts, n + 1, e) <==> UnreadIn(input, attempts, n, e) || UnreadEntry(input, attempts[n], e)
  {
    if UnreadIn(input, attempts, n, e) {
      var i :| 0 <= i < n && UnreadEntry(input, attempts[i], e);
      assert 0 <= i < n + 1;
    }
  }

  lemma EndedStep(attempts: seq<RunAttempt>, n: nat, o: Outcome, at: AccountRegion)
    requires n < |attempts|
    ensures EndedIn(attempts, n + 1, o, at) <==>
            EndedIn(attempts, n, o, at) || (attempts[n].outcome == o && AttemptPlace(attempts[n]) == at)
  {
    if EndedIn(attempts, n, o, at) {
      var i :| 0 <= i < n && attempts[i].outcome == o && AttemptPlace(attempts[i]) == at;
      assert 0 <= i < n + 1;
    }
  }

  lemma AccountStep(attempts: seq<RunAttempt>, n: nat, account: string)
    requires n < |attempts|
    ensures AccountIn(attempts, n + 1, account) <==> AccountIn(attempts, n, account) || attempts[n].account == account
  {
    if AccountIn(attempts, n, account) {
      var i :| 0 <= i < n && attempts[i].account == account;
      assert 0 <= i < n + 1;
    }
  }

  /** One attempt goes to exactly one list, by its outcome. */
  lemma AttemptsStep(input: Input, attempts: seq<RunAttempt>, n: nat, was: Attempted, r: Attempted)
    requires n < |attempts| && AttemptsRead(input, attempts, n, was)
    requires var a := attempts[n];
      && r.accounts == was.accounts + {a.account}
      && r.notAttempted == (if a.outcome.NotAttempted? then was.notAttempted + [AttemptPlace(a)] else was.notAttempted)
      && r.partial == (if a.outcome.Partial? then was.partial + [AttemptPlace(a)] else was.partial)
      && r.readEmpty == (if a.outcome.Succeeded? && !HasRows(input, AttemptPlace(a)) then was.readEmpty + [AttemptPlace(a)] else was.readEmpty)
      && r.failed == (if Unread(a) && !FailureRecorded(input, AttemptPlace(a)) then was.failed + [AttemptEntry(a)] else was.failed)
    ensures AttemptsRead(input, attempts, n + 1, r)
  {
    forall e ensures e in r.failed <==> UnreadIn(input, attempts, n + 1, e) {
      UnreadStep(input, attempts, n, e);
    }
    forall at
      ensures at in r.partial <==> EndedIn(attempts, n + 1, Partial, at)
      ensures at in r.notAttempted <==> EndedIn(attempts, n + 1, NotAttempted, at)
      ensures at in r.readEmpty <==> !HasRows(input, at) && EndedIn(attempts, n + 1, Succeeded, at)
    {
      EndedStep(attempts, n, Partial, at);
      EndedStep(attempts, n, NotAttempted, at);
      EndedStep(attempts, n, Succeeded, at);
    }
    forall account ensures account in r.accounts <==> AccountIn(attempts, n + 1, account) {
      AccountStep(attempts, n, account);
    }
  }

  method ReadAttempts(ghost input: Input, attempts: seq<RunAttempt>, recorded: set<AccountRegion>, places: set<AccountRegion>)
    returns (r: Attempted)
    requires forall at :: at in recorded <==> FailureRecorded(input, at)
    requires forall at :: at in places <==> HasRows(input, at)
    ensures AttemptsRead(input, attempts, |attempts|, r)
  {
    r := Attempted([], [], [], [], {});
    for n := 0 to |attempts|
      invariant AttemptsRead(input, attempts, n, r)
    {
      ghost var was := r;
      var a := attempts[n];
      r := r.(accounts := r.accounts + {a.account});
      match a.outcome {
        case NotAttempted =>
          r := r.(notAttempted := r.notAttempted + [AttemptPlace(a)]);
        case Partial =>
          r := r.(partial := r.partial + [AttemptPlace(a)]);
        case Succeeded =>
          if AttemptPlace(a) !in places {
            r := r.(readEmpty := r.readEmpty + [AttemptPlace(a)]);
          }
        case _ =>
          if AttemptPlace(a) !in recorded {
            r := r.(failed := r.failed + [AttemptEntry(a)]);
          }
      }
      AttemptsStep(input, attempts, n, was, r);
    }
  }

  method RowCountMismatches(input: Input) returns (short: seq<Mismatch>, exceeded: seq<Mismatch>)
    ensures forall m :: m in short <==> IsMismatch(input, m) && m.present < m.recorded
    ensures forall m :: m in exceeded <==> IsMismatch(input, m) && m.present > m.recorded
  {
    short, exceeded := [], [];
    if input.run.None? {
      return;
    }
    var counts := PresentRowCounts(input.records);
    var attempts := input.run.value;
    for n := 0 to |attempts|
      invariant forall m :: m in short <==>
        m.present == PresentAt(input, AccountRegion(m.account, m.region)) && m.present < m.recorded &&
        exists i :: 0 <= i < n && RecordedBy(attempts[i], m)
      invariant forall m :: m in exceeded <==>
        m.present == PresentAt(input, AccountRegion(m.account, m.region)) && m.present > m.recorded &&
        exists i :: 0 <= i < n && RecordedBy(attempts[i], m)
    {
      var a := attempts[n];
      if !a.outcome.Succeeded? && !a.outcome.Partial? {
        continue;
      }
      if a.rowCount.None? {
        continue;
      }
      var recorded, got := a.rowCount.value, CountAt(counts, AttemptPlace(a));
      var entry := Mismatch(a.account, a.region, recorded, got);
      assert RecordedBy(a, entry);
      if got < recorded {
        short := short + [entry];
      } else if got > recorded {
        exceeded := exceeded + [entry];
      }
    }
  }

  /** The lists of places come out sorted and without repeats; the others stay in reading order. */
  method ComputeCoverage(input: Input) returns (c: Coverage)
    ensures Exact(input, c)
  {
    var failed, recorded, describe := ReadFailures(input);
    var places := RowPlaces(input);
    var active := ActiveAccounts(input);
    var partial := Elements(describe * places);
    var notAttempted: seq<AccountRegion>, readEmpty: seq<AccountRegion> := [], [];
    if input.run.None? {
      var visited := VisitedWithoutRun(input, places);
      notAttempted := Unvisited(active, visited);
    } else {
      var r := ReadAttempts(input, input.run.value, recorded, places);
      var rest := Unvisited(active, r.accounts);
      failed, partial := failed + r.failed, partial + r.partial;
      notAttempted, readEmpty := r.notAttempted + rest, r.readEmpty;
    }
    partial := DedupePlaces(partial);
    notAttempted := DedupePlaces(notAttempted);
    readEmpty := DedupePlaces(readEmpty);
    var short, exceeded := RowCountMismatches(input);
    var missing := input.accounts == [];
    var complete := failed == [] && partial == [] && notAttempted == [] && input.run.Some? && !missing &&
      short == [] && exceeded == [];
    c := Coverage(complete, failed, partial, notAttempted, readEmpty, input.run.None?, missing, short, exceeded);
  }

  /** Without a run record, an account with a VPC row or a failure row was visited. */
  method VisitedWithoutRun(input: Input, places: set<AccountRegion>) returns (visited: set<string>)
    requires input.run.None? && forall at :: at in places <==> HasRows(input, at)
    ensures forall account :: account in visited <==> Visited(input, account)
  {
    visited := set at | at in places :: at.account;
    for n := 0 to |input.failures|
      invariant forall account :: account in visited <==>
        (exists at :: at in places && at.account == account) || (exists i :: 0 <= i < n && input.failures[i].account == account)
    {
      visited := visited + {input.failures[n].account};
    }
  }
}
