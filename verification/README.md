# Platform IPAM: a verified model of its hard core

This project models, in Dafny, the parts of Platform IPAM where a mistake would
hand out occupied address space, write to somebody else's prefix, or call an
unfinished migration finished. Every module says which source files it models.
`dafny verify dfyconfig.toml` checks all of it.

What is modelled, in the system's own terms:

- **Ownership of NetBox prefixes.** `NetBox` holds the prefixes, the writes and
  their histories. `Inventory` is the remote inventory: a class whose every
  request is one step, with a script that decides what others do before each
  request and whether the request is served, refused, lost on the way in or lost
  after it took effect. What others do is either a write of another process of
  this system, attributed to the operation it claims to be exactly when it is
  one that operation could make, or an edit by anybody. All contracts hold for
  every script, so for every interleaving. Each prefix carries a version that
  every write changes, and a detail read may carry it as an entity tag.
  `Requests`, `Adoption`, `Reservation`, `Occupancy`, `Sync` and `Deletion` are
  the adapter's operations against that class; each returns (as ghost data) the
  one write it made, if any. `Ownership` defines what each write must have found
  and must leave (`Guarded`, and `Lawful` with what an unconditional write had
  read) and proves what follows for whole histories. Five operations write on
  condition that the prefix is as they read it; Sync and Delete write whatever it
  has become, and the theorems say what that costs. `Convergence` runs an
  operation twice, or two at once. `LedgerView` says what a reader of the
  inventory finds after each operation, `Reconstruction` what a contributor list
  written from nothing is worth. When the server sends no entity tags the code
  falls back to unconditional writes; the contracts then say what was written
  but not what was found, which is all that is true.
- **Importing occupancy.** `Contributors` is the contributor-list merge,
  `Onboarding` the planner, the inventory snapshot and the application of a
  plan, `RoundTrip` an import that is adopted and given back, or deleted, `Sync`
  the projection of an allocation onto its prefix, `StampHistory` what several
  such projections at once do to its observation stamp, `AdoptRun` one run of
  `adopt apply`.
- **Address arithmetic.** `Cidr` (canonical IPv4 prefixes), `RangeCover` (the
  decomposition of an address range into CIDR blocks), `Capacity` (occupied and
  allocatable blocks of a pool).
- **The overlap assessment.** `AssessTypes`, `Associations`, `Sweep`,
  `Coverage`, `Assessment`, `ConflictIds`, and `Estate`, which tells the whole
  assessment from the rows it was given.
- **The migration plan and its progress.** `DependencyCycle`, `PlanValidate`,
  `Derivation`, and `DerivedFacts`, which tells each derived fact from the
  inventory and the evidence.

Code that updates in place is a class or a method with loops, proved against a
specification function or predicate; code that only computes is functions and
lemmas. Text is compared as in the source, but parsing an address, a time or a
document is a parameter (`Parser`, `Instants`, `CidrText`), and so is the digest
behind a conflict identifier.

Where the code does not do what its comments or documents say, the model follows
the code:

- The range-too-large finding is documented as "more than 4096 blocks". No IPv4
  range needs more than 64, and the finding is raised exactly for the ranges
  that end at 255.255.255.255 (`RangeCover.RangeBlockCount`).
- For exactly those ranges the inventory snapshot also adds a covering block, and
  that block is all of 0.0.0.0/0: the decomposition is disjoint if and only if
  the range ends below the top address, and exact if and only if it does or
  starts at 0.0.0.0 (`RangeCover.BlocksExactIff`). One such range leaves every
  pool without an allocatable block, at every size (`Capacity.FreeOfRangeIff`,
  `Capacity.TopRangeExhausts`), although the planner only warns about it.
- Abandoning an adoption restores the prefix exactly when the keys an adoption
  owns held nothing the ledger does not record; an operator's own value in one of
  them is lost (`Ownership.RoundTripIff`, `Ownership.RoundTripLoses`).
- An import tag protects a prefix from a cancel but not from Delete, which asks
  only for the place and the marker: an import that was adopted goes with its
  allocation (`Ownership.ImportSurvivesIff`,
  `Ownership.DeleteTakesAdoptedImport`, `RoundTrip.ImportAdoptDelete`).
- A Sync that read a prefix before it was abandoned, and lands after, makes it
  owned again: it puts back the cleared marker and operation exactly when those
  are what it had read (`Ownership.SyncAfterAbandon`,
  `Ownership.SyncUndoesAbandon`).
- An observation stamp is replaced only when it is an interval old, but what
  replaces it may be any later one. Written stamps are the interval apart, less
  the age of the observation the later one records (`Sync.StampsSpaced`), and
  that is the most a Sync guarantees (`Sync.SpacesIff`): every replaced stamp is
  the interval older than the new one if and only if the observation is no older
  than the Sync (`Sync.IntervalKeptIff`; `Sync.StampMayCreep` is a case). The
  stamp is written to the whole second, so a fraction of a second counts as age.
- A comment promises that a stamp never regresses. It does not when Syncs come
  one after another (`Sync.StampsRise`). A Sync that has no new stamp to write
  resends the one it read, so it moves the stamp back exactly when others wrote
  the prefix since and left a later one (`StampHistory.MovesBackIff`,
  `StampHistory.SyncsCross`).
- A conflict identifier joins identities whose fields are themselves joined by
  colons without escaping. It tells the conflicts of a report apart if and only
  if no two pairs of its items overlap in one kind under the same two identities
  (`ConflictIds.ReportIdsDistinctIff`), so whenever no field holds a colon
  (`ConflictIds.ReportIdsDistinct`); three rows with colons whose report has two
  conflicts of one identifier are in `ConflictIds.ReportIdsCollide`.
- Reservations of one allocation agree on one prefix only because the server
  refuses a second prefix at one CIDR in one VRF (`Reservation.ReservationsAgree`,
  `Reservation.UniquenessNeeded`).

## Model

| member | source | states |
|---|---|---|
| `Inventory.Server.Interleave` | internal/netbox/adopt.go:183-189 | Whatever others do between two requests, a prefix is untouched, gone or has a new version; none of it counts as a write of this process, and every write attributed to another process of this system is one its operation could make. |
| `Inventory.Server.Detail` | internal/netbox/adopt.go:190-206 | A detail read answers with the prefix as it is at that moment, or 404 only if it is absent; it may also go unanswered. |
| `Inventory.Server.Write` | internal/netbox/cancel.go:127-148 | A PATCH or DELETE conditional on a tag takes effect at most once, only on the very content that was read, and a 412, a 404 or a refusal means it did not. |
| `Inventory.Server.Create` | internal/netbox/client.go:813-816 | A POST takes effect at most once, on a new identifier, and under the uniqueness rule never at a taken CIDR and VRF; an unanswered one may have happened. |
| `Inventory.RanTrans` | internal/netbox/adopt.go:43-157 | The writes of two stretches of a run compose: versions still tell change apart, and the writes are those of one then of the other. |
| `Inventory.RunKeepsLawful` | internal/netbox/adopt.go:16-22 | An operation whose one write is lawful keeps the whole history lawful, with any number of other processes of this system, and anyone else, writing meanwhile. |
| `Config.ReservePlaceIff` | internal/netbox/client.go:765-779 | A reservation has a place if and only if it names its allocation and operation, its pool belongs to its domain and every address of its canonical CIDR is an address of the pool; the place is that CIDR in the pool's VRF, or the domain's when the pool names none. |
| `Config.AdoptPlaceIff` | internal/netbox/adopt.go:214-231 | An adoption has a place if and only if the same holds and the pool has further addresses. |
| `Occupancy.OccupancyPlaceIff` | internal/netbox/occupancy.go:154-172 | Occupancy has a place if and only if its domain has a VRF that the caller does not contradict, every pool of the domain parses and lives in it, and the CIDR is canonical. |
| `Occupancy.TouchesPoolIff` | internal/netbox/occupancy.go:400-420 | A network is pool space if and only if it holds every address of some pool of the domain. |
| `Requests.WriteAndReadBack` | internal/netbox/adopt.go:127-156 | The conditional PATCH and its re-read: at most one write, made on what was read; success means the prefix read back satisfies the check; a refusal that is not about reading back or uncertainty means no write. |
| `Requests.DeleteAndConfirm` | internal/netbox/cancel.go:127-159 | The conditional DELETE and its confirmation: success means the prefix is absent, and every write was made on what was read. |
| `Requests.PrefixesAt` | internal/netbox/occupancy.go:440-463 | The listing at a CIDR and VRF decides between none, exactly one and several, as the inventory stood at that moment. |
| `Requests.FindByMarker` | internal/netbox/client.go:651-713 | The listing by allocation marker decides between no claimant, a sole claimant and several. |
| `Requests.FindClaim` | internal/netbox/cancel.go:84-105 | Yields the sole claimant that no refusal applies to, or none exactly when nothing claims the allocation; several claimants, and a refused one, are refusals. |
| `Adoption.ClaimAndWrite` | internal/netbox/adopt.go:95-156 | The adopting write was preceded by a moment at which no other prefix claimed the allocation; undisturbed, it turns the prefix into the allocation's and nothing else. |
| `Adoption.AdoptPrefix` | internal/netbox/adopt.go:71-157 | For every interleaving at most one write. Undisturbed: a prefix that already carries this allocation, operation, CIDR, VRF and key is recognised without a write; every other owned, untagged or moved prefix, and one whose allocation another prefix claims, is refused without a write; the rest are adopted. |
| `Adoption.Adopt` | internal/netbox/adopt.go:43-157 | For every interleaving: at most one write; it landed on unowned imported occupancy at exactly the CIDR and VRF, alone there and unclaimed elsewhere when looked at, and left tags and unowned fields alone; every refusal but the three that say so means nothing was written. Undisturbed: a prefix alone at the place is adopted, recognised or refused as above, and an empty place is refused, nothing but an adoption changing anything. |
| `Convergence.AdoptAgain` | internal/netbox/adopt.go:39-93 | An adoption run under any interleaving whose write landed, whatever was answered, and run again undisturbed: while the prefix stands as it was written, alone at its place, the second run names it and writes nothing. |
| `Convergence.AdoptBoth` | internal/netbox/adopt.go:16-22 | Two adoptions on one server, with any other processes of this system at work before, between and after their requests: the history stays lawful, and if both land on one prefix that nobody else edited, the first had ended before the second landed. |
| `Adoption.AbandonPrefix` | internal/netbox/abandon.go:91-163 | Clears only a prefix that carried this allocation and this operation when the write landed; success means it reads back unowned. |
| `Adoption.AbandonAdoption` | internal/netbox/abandon.go:63-163 | For every interleaving: at most one write, on the sole claimant, carrying this allocation and operation; success means nothing claims the allocation or the claimant is no longer owned; undisturbed, it writes exactly the clearing patch, and nothing when there is no claim. |
| `Reservation.RecoverAfterCreateError` | internal/netbox/client.go:835-848 | An unanswered create is recovered only to a prefix that validates as this allocation's; undisturbed, a sole claimant that validates is recovered, one that does not is a conflict, and without a claimant the create's own error stands. |
| `Reservation.CreateAt` | internal/netbox/client.go:793-834 | An occupied CIDR is refused without a write; undisturbed, a vacant one is created as the reservation. |
| `Reservation.Ensure` | internal/netbox/client.go:764-848 | For every interleaving: at most one create, with exactly the reservation's content; success names a prefix that carries this allocation, operation, CIDR and VRF; bad arguments ask the inventory nothing. Undisturbed: vacant unclaimed space is created, occupied space is refused, a sole claimant is recognised or refused, and several are refused, all but the first without a write. |
| `Reservation.ReservingRespects` | internal/netbox/client.go:811-816 | A reservation's own write keeps the condition under which attempts agree. |
| `Reservation.ClaimsPersist` | internal/netbox/client.go:780-792 | Once a prefix claims the allocation it keeps claiming it, through any events that leave the mark alone. |
| `Reservation.ClaimsValidate` | internal/netbox/client.go:729-746 | At every moment, every prefix that claims the allocation validates as its reservation. |
| `Reservation.ReservationsAgree` | internal/netbox/client.go:762-848 | Any number of repeated or concurrent attempts, answered or not, that succeed at any two moments name one and the same prefix. |
| `Reservation.UniquenessNeeded` | internal/netbox/client.go:793-795 | Without the server's uniqueness rule two attempts can leave two prefixes claiming one allocation: a concrete history. |
| `Convergence.EnsureAgain` | internal/netbox/client.go:780-848 | A reservation run under any interleaving whose create landed, whatever was answered, and run again undisturbed: while the prefix stands and nothing else claims the allocation, the second run names it and creates nothing. |
| `Convergence.EnsureTwice` | internal/netbox/client.go:762-848 | Two reservations of one allocation on one server with uniqueness enforced, under any interleaving in which nobody else takes its mark off a prefix or puts it on another: if both succeed they name one prefix. |
| `Reservation.CancelPrefix` | internal/netbox/cancel.go:106-160 | Deletes only a prefix that carried this allocation and operation and no import tag when the delete landed. |
| `Reservation.CancelReservation` | internal/netbox/cancel.go:75-160 | For every interleaving: at most one delete, of the sole claimant, never of an import; success means no claim is left or the claimant is gone or unowned; undisturbed, deletes exactly that prefix. |
| `Ownership.AdoptedIsOwned` | internal/netbox/client.go:748-760 | The adopting patch makes the prefix carry the allocation and operation and changes nothing but status and owned keys. |
| `Ownership.AbandonedIsFree` | internal/netbox/abandon.go:109-134 | The clearing patch leaves no ownership field set and keeps the import tag as it was. |
| `Ownership.RefreshedKeeps` | internal/netbox/refresh.go:151-158 | A refresh changes only the contributor list, its source and the reconstructed marker, and never ownership. |
| `Ownership.OwnedUntilEnded` | internal/netbox/adopt.go:86-107 | In every history in which nobody outside this system edits the prefix meanwhile, a prefix owned by one operation of one allocation keeps marker, operation, place, tags and description, whatever this system runs, until that operation is abandoned or cancelled, a Delete lands on the prefix, or a Sync lands that had read it earlier, when it was not that operation's. |
| `Ownership.AdoptionsExclude` | internal/netbox/adopt.go:100-107 | Between two adoptions of one prefix, by any processes of this system, that nobody outside it edited meanwhile, the first has ended in one of those ways. |
| `Ownership.ImportSurvivesIff` | internal/netbox/abandon.go:57-62 | In every history in which nobody outside this system edits the prefix meanwhile, an imported prefix keeps its place, tags and description throughout if and only if neither a removal of occupancy nor a Delete lands on it. |
| `Ownership.EraseFinds` | internal/netbox/remove.go:150-221 | The only writes of this system that delete an imported prefix are a removal, which found it unowned with a list the import itself wrote, and a Delete, which had read it at the allocation's place with the allocation's marker. |
| `Ownership.DeletesItsOwn` | internal/netbox/client.go:1001-1014 | Unless the prefix changed between its read and its landing, a Delete deletes exactly the prefix of its own allocation. |
| `Ownership.DeleteTakesAdoptedImport` | internal/netbox/client.go:1007-1010 | After any lawful history, an import that is adopted and then deleted is gone: a lawful continuation that ends without it. |
| `Ownership.SyncAfterAbandon` | internal/netbox/client.go:925-932 | A Sync that lands on a prefix abandoned meanwhile had read it before the abandon; it always leaves its own allocation's marker with the operation it had read, and the cleared ones exactly when those are what it had read. |
| `Ownership.SyncReadTheOwner` | internal/netbox/client.go:887-894 | And they are, whenever nothing touched the prefix between that reading and the abandon. |
| `Ownership.SyncUndoesAbandon` | internal/netbox/client.go:925-932 | After any lawful history, an import adopted, read by a Sync, abandoned and then written by that Sync is owned again: a lawful continuation. |
| `Ownership.FieldRoundTrip` | internal/netbox/abandon.go:117-134 | Field by field, adopting and abandoning gives a value back exactly when it was not owned, empty, or recorded by the ledger. |
| `Ownership.RoundTripIff` | internal/netbox/abandon.go:109-134 | Adopting and abandoning restores a prefix, up to unset against null, if and only if its status is one NetBox accepts and every owned key held nothing the ledger cannot put back. |
| `Ownership.RoundTripLoses` | internal/netbox/abandon.go:117-120 | An operator's own environment on an imported prefix does not come back. |
| `LedgerView.EnsureShows` | internal/netbox/client.go:748-816 | Undisturbed, a reservation in vacant space adds one prefix and nothing else; a reader finds on it the allocation's tenant, environment, pool, policy version, parent, key, state, account, region, zone and operation, and its binding and times if it has any. |
| `LedgerView.AdoptShows` | internal/netbox/adopt.go:108-156 | Undisturbed, an adoption changes one prefix; a reader finds the allocation's own fields on it, and everything the import wrote but account and region. |
| `LedgerView.SettledShows` | internal/netbox/client.go:895-931 | A prefix that Sync leaves alone shows the allocation's own fields, and is active exactly for an active allocation and reserved otherwise. |
| `LedgerView.SettledShowsOptional` | internal/netbox/client.go:896-902 | It shows the binding, nothing where the ledger has none, and the ledger's end of quarantine as a time. |
| `LedgerView.AbandonedShows` | internal/netbox/abandon.go:117-134 | An abandoned prefix shows no allocation, the recorded account and region, and the import as it was. |
| `LedgerView.AbandonedStatus` | internal/netbox/abandon.go:184-189 | It takes the recorded status back if that is one NetBox has, and is active otherwise. |
| `LedgerView.OwnedIff` | internal/netbox/client.go:169-176 | A prefix is free exactly when it shows no identifier, key, operation or state. |
| `LedgerView.RecognisedIff` | internal/netbox/client.go:729-746 | Sync and Delete recognise a prefix by place and identifier, Ensure by the operation too, and a repeated adoption by the key too. |
| `LedgerView.EnsureThenSnapshot` | internal/netbox/client.go:505-547 | Undisturbed, a snapshot after a reservation shows its network with the allocation and its parent, unless the network holds a pool and is none. |
| `LedgerView.VisibleIff` | internal/netbox/client.go:526-534 | The snapshot drops exactly the prefixes that hold every address of a pool and are none. |
| `LedgerView.EnsureThenCancel` | internal/netbox/cancel.go:75-160 | Undisturbed, a reservation that is cancelled leaves the inventory as it was. |
| `RoundTrip.AdoptThenAbandon` | internal/netbox/abandon.go:63-163 | Undisturbed, adopting then abandoning changes that prefix to its restored form, nothing else, and leaves no claim. |
| `RoundTrip.ImportAdoptAbandon` | internal/netbox/occupancy.go:175-227 | Undisturbed, import, adopt, abandon and abandon again leave exactly the imported prefix, up to unset against null, nothing else changed, and the second abandon writes nothing. |
| `RoundTrip.ImportAdoptDelete` | internal/netbox/client.go:986-1026 | Undisturbed, import, adopt and Delete leave the inventory exactly as it was before the import. |
| `Occupancy.ImportedIsOccupancy` | internal/netbox/occupancy.go:196-214 | What an import writes is unowned, tagged and at its CIDR and VRF. |
| `LedgerView.ImportedShows` | internal/netbox/occupancy.go:196-214 | A reader of an import finds its row's batch, source, account, region, resource and description, the import tag and no allocation. |
| `LedgerView.ImportedLists` | internal/netbox/occupancy.go:202-210 | It lists the row's contributors when there are any, and has no list otherwise. |
| `LedgerView.ImportAcceptedIff` | internal/netbox/occupancy.go:119-148 | A row that has a place is accepted if and only if it has a batch, a description of at most 200 characters and only named contributors, and holds no pool. |
| `LedgerView.ImportThenRemove` | internal/netbox/remove.go:168-251 | Undisturbed, an import with contributors that is removed leaves the inventory as it was. |
| `LedgerView.ListFieldRead` | internal/netbox/client.go:368-395 | The list field is absent or null, a list, or something else, and something else is refused by refresh and removal alike. |
| `Occupancy.ImportRestores` | internal/netbox/occupancy.go:196-214 | What an import writes meets the condition of the round trip, for every allocation without binding, observation and quarantine. |
| `Occupancy.RecoverOccupancy` | internal/netbox/occupancy.go:485-494 | An unanswered create counts as done only when one unclaimed prefix alone holds the space; undisturbed, exactly when one does. |
| `Occupancy.EnsureOccupancy` | internal/netbox/occupancy.go:119-227 | For every interleaving: at most one create, unowned and tagged; success names an unclaimed prefix at the place; undisturbed, vacant space is created and occupied unclaimed space is confirmed without a write; pool space is refused. |
| `Occupancy.PlanRefresh` | internal/netbox/refresh.go:131-149 | There is a list to write exactly when the table adds an identity, or there was no list and the table has rows. |
| `Occupancy.RefreshPrefix` | internal/netbox/refresh.go:107-192 | Writes only to unowned imported occupancy with a readable list; success means every identity of the table is on the prefix, and a reported reconstruction that the write found no list; undisturbed, it writes exactly when something is new. |
| `Occupancy.RefreshOccupancy` | internal/netbox/refresh.go:82-192 | For every interleaving at most one write, guarded as above; undisturbed, a prefix alone at its place is refused by the first check that fails, left alone, or changed only by a refresh, reported as a reconstruction exactly when it had no list. |
| `Reconstruction.RefreshShows` | internal/netbox/refresh.go:151-158 | A refresh leaves its source, the union of the identities, and on a prefix without a list the marker that bars its removal. |
| `Reconstruction.NeverRemoved` | internal/netbox/remove.go:213-221 | In every history, a prefix that had no list or a reconstructed one is never deleted by a removal while it stands, whatever this system runs, unless somebody outside it edits the prefix or a Sync lands that had read it before. |
| `Reconstruction.UnlistedImportNeverRemoved` | internal/netbox/remove.go:213-221 | In particular an import without contributors is never removed, unless somebody outside this system edits it. |
| `Reconstruction.RefreshThenDelete` | internal/netbox/remove.go:219-221 | Undisturbed, a refresh that reconstructs a list and a removal after it: the removal is refused for that and changes nothing. |
| `Occupancy.RemovePrefix` | internal/netbox/remove.go:191-251 | Deletes only unowned imported occupancy with a readable, non-empty list that was not reconstructed. |
| `Occupancy.DeleteOccupancy` | internal/netbox/remove.go:168-251 | For every interleaving at most one delete, of the reviewed identifier, outside pool space; success means it is absent; undisturbed, deleted exactly when no refusal applies. |
| `Contributors.BeforeOrders` | internal/netbox/refresh.go:255-263 | The written order is a strict order without ties between different identities. |
| `Contributors.MergeContributors` | internal/netbox/refresh.go:222-265 | Reports a change exactly when there was no list or the identity set grows, and then returns the merged entries once each, in order. |
| `Contributors.ListingUnique` | internal/netbox/refresh.go:251-264 | The order in which the map yields its entries does not show in the result. |
| `Contributors.MergeKeeps` | internal/netbox/refresh.go:203-208 | No merge loses an identity, its first batch, its provenance or the fact that it was observed. |
| `Contributors.SightingRecorded` | internal/netbox/refresh.go:235-249 | The last row about an identity decides the batch it was last seen in, and its time if the row has one. |
| `Contributors.UnseenKept` | internal/netbox/refresh.go:235-249 | An identity without rows keeps its entry, one whose rows have no time keeps its time, and provenance never changes. |
| `Contributors.NewcomerRecorded` | internal/netbox/refresh.go:230-234 | A new identity is recorded as its first row has it. |
| `Contributors.ListOrder` | internal/netbox/refresh.go:255-263 | The list is in the order of source file, source row and identity. |
| `Contributors.MergeIdentities` | internal/netbox/refresh.go:222-265 | The identities afterwards are the union, each once. |
| `Contributors.MergeAgain` | internal/netbox/refresh.go:75-81 | Merging the same table, or any part of it, into its own result adds nothing. |
| `Sync.SyncPreserves` | internal/netbox/client.go:920-924 | Sync changes no place, tag, description or field the platform does not project. |
| `Sync.AgreesIff` | internal/netbox/client.go:936-960 | The comparison of a projected field agrees exactly when the field reads as the ledger's text, or, for the end of a quarantine, as the ledger's time. |
| `Sync.ProjectionChanged` | internal/netbox/client.go:911-919 | The loop over the projected fields reports a change exactly when some field but the stamp does not read as the ledger's. |
| `Sync.DecideSync` | internal/netbox/client.go:895-934 | Nothing is sent exactly when the interval is positive and a reader of the prefix already sees the ledger's view: status, every projected field, and a stamp that is not due; otherwise the projection is sent. |
| `Sync.SyncAllocation` | internal/netbox/client.go:870-934 | For every interleaving at most one write, the payload decided for the prefix as it was read, which was at the allocation's place with its marker; it keeps a lawful history lawful; success without a write means a reader sees the ledger's view; undisturbed, a prefix that is not the allocation's is refused without a write. |
| `Sync.StampsRise` | internal/netbox/client.go:962-983 | Over any run of Syncs that carry observation times, a stored stamp that parses never moves back, and where the stored value is another one later, it is strictly later. |
| `Sync.StampMoves` | internal/netbox/client.go:962-983 | In any such run the stamp moves at a Sync exactly when that Sync's observation is later and its instant is the interval or more after the held stamp, and then it becomes that observation. |
| `Sync.StampsSpaced` | internal/netbox/client.go:962-983 | In any such run, two stamps that were written differ by at least the interval less the age of the later one's observation, and the Syncs that wrote them are at least the interval less the age of the earlier one's apart. |
| `Sync.SpacesIff` | internal/netbox/client.go:962-983 | Every stamp of the allocation's prefix that a Sync can replace is at least a given time older than the new one if and only if that time is at most one instant, or at most the interval less the age of the Sync's observation. |
| `Sync.IntervalKeptIff` | internal/netbox/client.go:962-983 | Every stamp that a Sync can replace is at least the interval older than the new one if and only if the observation is no older than the Sync. |
| `Sync.StampMayCreep` | internal/netbox/client.go:978-982 | A stamp that is an interval old is replaced by one a single instant later: a concrete case. |
| `StampHistory.MovesBackIff` | internal/netbox/client.go:904-932 | In any lawful history a landing Sync moves the stamp back if and only if, since it read, others wrote the prefix and the last of them left a later stamp than it sends: its observation when one was due, and otherwise the stamp it read. |
| `StampHistory.SyncsCross` | internal/netbox/client.go:905-909 | After any lawful history, two Syncs that read one prefix, of which the second to land found no stamp due and a status to correct: the stamp moves back. |
| `Sync.SyncRepeatedly` | internal/service/worker.go:540-585 | A worker that projects an allocation again and again, undisturbed, takes its prefix through the states of such a run and changes nothing else. |
| `Sync.SyncSettlesIff` | internal/netbox/client.go:870-934 | After a Sync that wrote, a reader sees the ledger's view, and a repeat at the same instant is silent, if and only if the ledger's own times parse. |
| `Deletion.DeleteAllocation` | internal/netbox/client.go:986-1026 | For every interleaving at most one write, a delete of a prefix that read as the allocation's, keeping the history lawful; success means it is gone or nothing claims the allocation; undisturbed, it deletes exactly that prefix, or refuses one that is not the allocation's without a write. |
| `Onboarding.Snapshot` | internal/netbox/client.go:505-547 | Succeeds exactly when no network repeats (where uniqueness is required) and each pool is matched once, and then yields every prefix but the ancestors of pools. |
| `Onboarding.SnapshotIff` | internal/netbox/client.go:505-547 | The snapshot's success is a property of the inventory, whatever order its pages come in. |
| `Onboarding.GroupCandidates` | internal/onboard/plan.go:437-456 | Groups rows by canonical CIDR, each once in order of appearance, with an error exactly when a row is not canonical. |
| `Onboarding.Plan` | internal/onboard/plan.go:437-517 | Lists each network to write once, exactly those neither refused nor already occupied; has errors exactly when a row is malformed or refused; and every rule has a finding about exactly the networks of the table it applies to. |
| `Onboarding.WritesIff` | internal/onboard/plan.go:563-603 | A network is written if and only if no pool lies inside it, every allocation it shares an address with has no parent, is no pool and strictly holds it, and nobody's occupancy is at it already. |
| `Onboarding.RefusalIff` | internal/onboard/plan.go:563-603 | It is refused if and only if a pool lies inside it or it shares an address with an allocation that is not such a one. |
| `Onboarding.RemarksIff` | internal/onboard/plan.go:549-625 | The remark about a managed VPC is made exactly of a network strictly inside a parentless allocation, and the one about pools exactly of a network inside none. |
| `Onboarding.PlannedIsVacant` | internal/onboard/plan.go:487-510 | Nothing in the inventory holds the place of a planned write, so the adapter never refuses it. |
| `Onboarding.PoolTouched` | internal/netbox/occupancy.go:405-420 | The planner's two pool rules cover every network the adapter refuses as pool space. |
| `Onboarding.SnapshotSurvives` | internal/netbox/occupancy.go:400-404 | Applying a plan keeps the snapshot readable: no duplicate, every pool still matched once. |
| `Onboarding.ReplanIsEmpty` | internal/onboard/plan.go:107-111 | Planning the same table against the changed inventory has no errors and nothing to write. |
| `Onboarding.ApplyPlan` | internal/netbox/occupancy.go:175-227 | Undisturbed, every planned network is created: one new unclaimed prefix each, and nothing else changes. |
| `Onboarding.ImportTwice` | internal/onboard/plan.go:273-340 | Snapshot, plan, apply, snapshot, plan: if the first snapshot succeeds and the first plan has no errors, the second snapshot succeeds and the second plan has no errors and no writes. |
| `AdoptRun.OrderParentsFirst` | internal/adoptcmd/ordering.go:9-20 | Computes the vpc rows in order, then the others in order. |
| `AdoptRun.ParentsFirstOrders` | internal/adoptcmd/ordering.go:3-8 | The reordering loses and adds nothing, and no vpc row follows any other. |
| `AdoptRun.ResolvePrincipal` | internal/adoptcmd/principal.go:27-67 | Some identity acts exactly when one and only one configured identity of the tenant covers the record. |
| `AdoptRun.WellFormedIff` | internal/adoptcmd/plan.go:100-134 | A row is well formed exactly when every column its scope requires is filled, those it forbids are empty, and its CIDR is canonical. |
| `AdoptRun.CoversIff` | internal/adoptcmd/principal.go:73-89 | An identity covers a record exactly when it is the record's tenant and each of its three limits is empty or names the record's own value. |
| `AdoptRun.ParentLookup.SeedFromLedger` | internal/adoptcmd/plan.go:187-198 | Records the identifier and binding of every allocation of every tenant, the last of a key winning, or fails exactly when one tenant cannot be listed. |
| `AdoptRun.EvaluateRecord` | internal/adoptcmd/plan.go:261-323 | The service is asked exactly about a well-formed row with a sole identity whose parent, if it needs one, is known and bound; would-adopt, would-replay and pending hold exactly for their answers, deferred and waiting exactly for a parent in the file and one not yet bound. |
| `AdoptRun.RefusedIff` | internal/adoptcmd/plan.go:261-323 | A row is refused if and only if it is malformed, its parent is unknown, or it need not wait and no single identity covers it or the service objects. |
| `AdoptRun.EvaluateAll` | internal/adoptcmd/plan.go:325-332 | Every row in turn gets the verdict that the service's answer to it leads to; nothing is adopted. |
| `AdoptRun.PlannableIff` | internal/adoptcmd/plan.go:187-240 | A parent is known exactly when the ledger lists its key for the tenant or a vpc row of the file declares it. |
| `AdoptRun.AttemptOne` | internal/adoptcmd/apply.go:106-177 | The service is asked if and only if the row is well formed, its parent, if it needs one, is known and bound, and one identity covers it; waits exactly when the parent is known and unbound, names exactly that parent, turns the answer into the outcome, records an adopted allocation and nothing else, and stops the run exactly on failure. |
| `AdoptRun.ParentsResolved` | internal/adoptcmd/apply.go:124-133 | When a subnet's turn comes and nothing has failed, every vpc row of the file has been resolved, so the defensive branch is unreachable. |
| `AdoptRun.PerformApply` | internal/adoptcmd/apply.go:65-100 | The outcomes are the records parents first: adopted or waiting, then at most one failure, then not attempted; the service is asked about exactly the records whose outcome says so, about none when the plan refused any, and about a subnet only under a bound parent that the ledger or this run holds under the record's own parent key. Nothing is refused when every record is well formed, solely covered and has a known parent and the service objects to none, and then, if it allocates each time, no record fails. |
| `Cidr.Laminar` | internal/netbox/client.go:526-528 | Two canonical prefixes are nested or disjoint. |
| `Cidr.OverlapsIffShare` | internal/onboard/plan.go:572-574 | The library's overlap test holds exactly when an address lies in both prefixes. |
| `RangeCover.PrefixLast` | internal/netbox/client.go:623-639 | Setting the host bits byte by byte yields the prefix's last address. |
| `RangeCover.CoveringPrefix` | internal/netbox/client.go:641-649 | The prefix covering any two IPv4 addresses, searched from the shortest mask, is always the whole space. |
| `RangeCover.PickBlock` | internal/netbox/client.go:599-609 | The search picks the largest aligned block that starts at the cursor and ends within the range. |
| `RangeCover.RangeCIDRs` | internal/netbox/client.go:582-621 | Refuses exactly the reversed ranges and otherwise returns the greedy blocks, with the covering block exactly when the walk ends at the top address. |
| `RangeCover.RunTiles` | internal/netbox/client.go:596-616 | The greedy blocks are disjoint, ascending and hold exactly the addresses of the range. |
| `RangeCover.RunMaximal` | internal/netbox/client.go:599-609 | Every canonical prefix inside the range lies inside one greedy block. |
| `RangeCover.RunMinimal` | internal/netbox/client.go:582-621 | No list of canonical prefixes that holds exactly the range is shorter. |
| `RangeCover.RunBound` | internal/netbox/client.go:580-598 | At most 62 blocks below the top address, and at most 64 at it. |
| `RangeCover.BlocksExact` | internal/netbox/client.go:582-621 | For a range ending below the top: valid, disjoint, ascending, exact, at most 62 blocks, rising then falling in size, and smallest among all exact covers. |
| `RangeCover.BlocksCover` | internal/netbox/client.go:617-619 | Whatever the range, no address of it is left out. |
| `RangeCover.BlocksExactIff` | internal/netbox/client.go:610-619 | Disjoint if and only if the range ends below the top; exact if and only if it does or starts at zero. |
| `RangeCover.TopRangeOverblocks` | internal/netbox/client.go:617-619 | The range from 10.0.0.0 to the top address is not decomposed exactly. |
| `RangeCover.RangeBlockCount` | internal/onboard/plan.go:954-980 | Counts the greedy blocks up to the limit; with a limit of 64 or more, the cap is reported exactly for ranges ending at the top address. |
| `Capacity.ClipExact` | internal/service/capacity.go:16-33 | A block of the pool is touched exactly when its index lies in the clipped interval. |
| `Capacity.CountMerged` | internal/service/capacity.go:35-48 | The merging pass over sorted intervals counts each covered block once. |
| `Capacity.OccupiedBlocks` | internal/service/capacity.go:16-48 | The count is the number of blocks of the pool that share an address with some prefix. |
| `Capacity.Partition` | internal/service/capacity.go:173-177 | Occupied and wholly free blocks partition the pool. |
| `Capacity.Allocatable` | internal/service/capacity.go:173-177 | Allocatable is the number of wholly free blocks of a complete reading, and zero otherwise. |
| `Capacity.OccupiedByAddress` | internal/service/capacity.go:14-48 | The count depends only on which addresses are occupied, not on order, nesting or duplication. |
| `Capacity.FreeOfRangeIff` | internal/netbox/client.go:582-621 | A block of a pool is left free by the blocks of an address range if and only if the range ends below the top address and misses the block. |
| `Capacity.TopRangeExhausts` | internal/netbox/client.go:617-619 | A range that ends at the top address leaves every pool no allocatable block, for every base and every size. |
| `Associations.DedupeAssociations` | internal/assess/sweep.go:88-119 | One survivor per association, the earliest by source, in key order; the rest are counted as duplicates. |
| `Associations.DedupeOrderIndependent` | internal/assess/sweep.go:76-119 | Reordering the rows changes neither the survivors nor their order. |
| `Associations.BuildAssociations` | internal/assess/sweep.go:125-174 | Builds the items and the notes about CIDRs that do not parse. |
| `Associations.PipelineOrderIndependent` | internal/assess/sweep.go:88-249 | Reordering the inventory and the fixed table changes no relationship and no order. |
| `Sweep.Compact` | internal/assess/sweep.go:204-249 | Compacts the open intervals in place to those that reach the current start. |
| `Sweep.Sweep` | internal/assess/sweep.go:204-249 | The in-place sweep emits the specified relationships in the specified order and number of comparisons. |
| `Sweep.SweepIsBruteForce` | internal/assess/sweep.go:204-249 | The sweep finds exactly the overlapping pairs, as comparing every pair would, and compares no more than the items plus the pairs that meet. |
| `Sweep.SweepOrderIndependent` | internal/assess/sweep.go:204-249 | The order of the input does not show in the output. |
| `Sweep.CompareSymmetric` | internal/assess/sweep.go:204-249 | What two items mean to each other does not depend on which comes first. |
| `Coverage.ComputeCoverage` | internal/assess/coverage.go:115-257 | Every list of the coverage holds exactly the places it is about. |
| `Coverage.CompleteIff` | internal/assess/coverage.go:115-257 | Coverage is complete if and only if there is a run and an account list, no failure row, every attempt succeeded, every active account was visited, and every attempt that counted its rows has exactly those rows present. |
| `Coverage.DedupePlaces` | internal/assess/coverage.go:100-113 | Lists each place once, in order. |
| `Coverage.PresentRowCounts` | internal/assess/coverage.go:259-275 | Counts the rows of each place, a physical row read twice only once. |
| `Coverage.RowCountMismatches` | internal/assess/coverage.go:296-321 | Lists exactly the places with fewer rows, and those with more rows, than the run counted. |
| `Coverage.CountedOnceIff` | internal/assess/coverage.go:259-275 | A row is left out of the count exactly when it names a file or a line and an earlier row names the same. |
| `DerivedFacts.PartlyReadIff` | internal/assess/coverage.go:128-148 | A place is listed as partly read exactly when an attempt says so, or VPC rows were read there although a failure row says that describing that region failed. |
| `Assessment.ConflictIdSymmetric` | internal/assess/identity.go:43-49 | A conflict has one identifier whichever side comes first. |
| `Assessment.Validate` | internal/assess/types.go:215-233 | Refuses exactly the inputs with a record that lacks a required field. |
| `Assessment.BuildConflicts` | internal/assess/conflict.go:148-236 | One conflict per relationship, in order, with its identifier and both sides. |
| `Assessment.SortedInOrder` | internal/assess/conflict.go:238-255 | The report lists containments before equal CIDRs, and each kind by first identity, second identity and id. |
| `ConflictIds.IdsAgreeIff` | internal/assess/identity.go:31-49 | For a digest that does not collide, two relationships get one identifier if and only if they have one kind and the same two identities, in either order. |
| `ConflictIds.RelatedOnceIff` | internal/assess/sweep.go:204-249 | The sweep relates the same two identities twice in one kind if and only if two different pairs of items overlap in that kind under those identities. |
| `ConflictIds.IdentityDeterminesKey` | internal/assess/types.go:91-97 | Records without a colon in the joined fields that share an identity are observations of one association. |
| `ConflictIds.ReportIdsDistinctIff` | internal/assess/conflict.go:148-255 | For a digest that does not collide, the identifiers of a report tell its conflicts apart if and only if no two different pairs of its items overlap in one kind under the same two identities. |
| `ConflictIds.ReportIdsDistinct` | internal/assess/conflict.go:238-255 | In particular when no field that an identity joins holds a colon. |
| `ConflictIds.ReportIdsCollide` | internal/assess/types.go:91-97 | Account 1:2 in region 3, account 1 in region 2:3 and a third account, with a VPC each at one CIDR: they are assessed, and two conflicts of the report have one identifier, whatever the digest. |
| `ConflictIds.ConfusedWithoutHub` | internal/assess/identity.go:31-49 | The two pairs need have no item in common: items that clash although none overlaps two items of one identity. |
| `Assessment.Assess` | internal/assess/assess.go:57-105 | An assessment reports the coverage of its input, the number of repeated observations, a note for every CIDR that does not parse and the conflicts of its survivors in order, at most as many as the cap (its default when not positive); it is refused exactly for a missing field, or for more relationships than that cap, which the refusal names. |
| `Assessment.ConflictSource` | internal/assess/conflict.go:109-146 | Every observed side of a reported conflict is a record of the input. |
| `Assessment.NoConflictsIff` | internal/assess/assess.go:57-105 | No conflict is reported if and only if no two surviving items overlap. |
| `Estate.DedupeKeyIff` | internal/assess/sweep.go:65-71 | Without the separator in a field, two rows have one key exactly when they agree on account, region, VPC, CIDR and association. |
| `Estate.RowHasItem` | internal/assess/sweep.go:125-147 | Every VPC row whose CIDR parses has an item with its account, region, VPC, CIDR and association at that network. |
| `Estate.ItemsDistinct` | internal/assess/sweep.go:88-119 | No two items agree on all five. |
| `Estate.SurvivorEarliest` | internal/assess/sweep.go:76-86 | The row that stands for an association is its earliest, by source file and then by row. |
| `Estate.RecordNotesIff` | internal/assess/sweep.go:125-134 | A note is made exactly of the rows whose CIDR does not parse. |
| `Estate.ReportClearIff` | internal/assess/assess.go:57-105 | The report has no conflict if and only if no two VPC rows of different account, region and VPC, and no VPC row and fixed range, parse to networks that share an address. |
| `Estate.RowsTold` | internal/assess/conflict.go:148-236 | Any two such rows that do share an address are the sides of a reported conflict: equal or contained as their networks are, the wider one outer and the other inner, with the shared network as the intersection. |
| `Estate.FixedTold` | internal/assess/conflict.go:148-236 | So are any VPC row and fixed range that share an address. |
| `Estate.ConflictTold` | internal/assess/conflict.go:109-236 | Every reported conflict tells in that way of two such rows, or of a row and a fixed range, that do share an address. |
| `Estate.AssessEstate` | internal/assess/assess.go:57-105 | All of this holds of whatever the assessment returns. |
| `DependencyCycle.Search.Visit` | internal/migrate/plan_validate.go:277-306 | A visit either reports a genuine cycle or leaves the node finished and the path as it was. |
| `DependencyCycle.FindCycle` | internal/migrate/plan_validate.go:246-317 | Finds no cycle if and only if the graph has none, and what it reports is one. |
| `DependencyCycle.CycleNotAcyclic` | internal/migrate/plan_validate.go:246-254 | A graph with a cycle has no ranking that falls along every edge. |
| `PlanValidate.CheckSubjects` | internal/migrate/plan_validate.go:201-223 | Refuses exactly when two moves have one subject, naming the later. |
| `PlanValidate.SubjectIdentityIff` | internal/migrate/plan.go:65-67 | Without a colon in account and region, two subjects have one identity exactly when they are one VPC. |
| `PlanValidate.CheckTargets` | internal/migrate/plan_validate.go:225-244 | Refuses exactly when two moves allocate one target key for one tenant. |
| `PlanValidate.SameTargetIff` | internal/migrate/plan_validate.go:225-244 | Two targets clash exactly when they name one tenant and one key, not both empty. |
| `PlanValidate.OverspecifiedIff` | internal/migrate/plan.go:116-123 | A keep move's target is allowed exactly when it states nothing but tenant and key. |
| `PlanValidate.CheckWaves` | internal/migrate/plan_validate.go:111-140 | Refuses exactly when one wave is defined in two ways, and otherwise knows every wave. |
| `PlanValidate.DependencyEdges` | internal/migrate/plan_validate.go:263-271 | An edge of the dependency graph is exactly an entry of the depends_on list of some move of that subject. |
| `PlanValidate.AcyclicOrders` | internal/migrate/plan_validate.go:246-254 | The graph has a topological rank if and only if the moves can be numbered so that each comes after everything it depends on. |
| `PlanValidate.CheckCycle` | internal/migrate/plan_validate.go:255-317 | Refuses exactly when the moves cannot be so numbered, naming a closed walk each of whose steps is a depends_on entry of a move, and the file of the move that closes it. |
| `PlanValidate.Validate` | internal/migrate/plan_validate.go:111-199 | Accepts exactly the well-formed plans; every refusal names the file and key of something in the plan for which that kind of refusal is right. |
| `Derivation.BuildEvidenceIndex` | internal/migrate/evidence.go:108-136 | The index holds exactly what the evidence files say, later files in path order winning. |
| `Derivation.IndexOrderIndependent` | internal/migrate/evidence.go:108-136 | The order in which evidence files are given does not show in the index. |
| `Derivation.MoveConflictResults` | internal/migrate/derive_facts.go:190-224 | A claimed conflict counts as present exactly when reported, and the unclaimed ones are exactly those that touch the subject and are not claimed. |
| `Derivation.UnplannedConflictIds` | internal/migrate/derive.go:219-242 | Lists exactly the conflicts none of whose sides is the subject of a move. |
| `Derivation.DeriveMove` | internal/migrate/derive_facts.go:240-278 | Derives a move's facts exactly as its subject, target, conflicts and blockers say. |
| `DerivedFacts.CompleteForIff` | internal/migrate/derive_facts.go:83-111 | Coverage allows a statement about an account and region if and only if there is a run and an account list, no failure row names the account with that region or none, every attempt there succeeded and none at the whole account failed, no counted one has fewer rows present than recorded, and the account was visited if active. |
| `DerivedFacts.SubjectFactIff` | internal/migrate/derive_facts.go:62-77 | A subject is seen exactly when a VPC row names it, not observed exactly when none does, its account is listed and its place was read in full, and unmatched exactly when none does and its account is not listed. |
| `DerivedFacts.LookupIff` | internal/migrate/evidence.go:108-148 | A target is looked up as the last row under its key, in the order of file paths and rows. |
| `DerivedFacts.TargetFactIff` | internal/migrate/derive_facts.go:131-179 | Each of the six facts about a target holds exactly when the evidence says so: nobody speaks for the tenant, no row stands, the row that stands is gone, contradicts what the plan states, is confirmed active, or is none of these. |
| `DerivedFacts.EvidencedIff` | internal/migrate/derive_facts.go:226-238 | A move is fully evidenced exactly when its subject is not observed, its target active, and no reported conflict is one it claims or touches its subject. |
| `DerivedFacts.EvidenceCompleteIff` | internal/migrate/evidence.go:154-167 | The evidence is complete exactly when the run was, some export was given, and one speaks for every tenant that a target names. |
| `Derivation.Derive` | internal/migrate/derive.go:87-134 | The report derives every move and counts the fully evidenced ones and the unplanned conflicts. |
| `Derivation.CleanHasNoConflicts` | internal/onboardcmd/progress.go:437-450 | A clean report leaves no conflict anywhere. |
| `Derivation.CleanIff` | internal/onboardcmd/progress.go:437-450 | A report is clean if and only if the evidence is complete, there is a move, no conflict is left, and every subject is gone and every target active. |
| `Derivation.CleanMeans` | internal/onboardcmd/progress.go:437-450 | A clean report means the run was complete, no two surviving networks overlap, no moved subject is still observed, every target is evidenced as active, and no move that keeps its subject is touched by a conflict. |
| `DerivedFacts.CleanEstate` | internal/onboardcmd/progress.go:437-450 | A clean report means, of the inputs: the run was complete, no two VPCs and no VPC and fixed range share an address, no row names a moved subject, and every target is an allocation that stands, is confirmed and fits what the plan states. |

## Left out

- HTTP, JSON, pagination, timeouts and retries: a request is one step that is served, refused, lost before or lost after it took effect.
- IPv6 addresses, and the parsing and normalization of tables, times and documents, which are parameters.
- A prefix stored in NetBox with host bits set, or a pool configured so: networks are canonical, as NetBox and the configuration check enforce.
- A prefix listed twice by one paged read: a listing yields each prefix once, as it is at one moment.
- Inventory.Server.Write: says nothing about what an unconditional write found, because without an entity tag the code does not either.
- Convergence.AdoptBoth: stated for a server that sends entity tags, because without them an adoption writes without a condition.
- ConflictIds.ReportIdsDistinct: that the digest, of which an identifier keeps 64 bits, does not collide is a premise.
- Importing and planning address ranges: the range rows of a table, and their refusals; addresses and ranges enter the snapshot as the networks they become.
- Estate.ReportClearIff: supposes that no joined field holds the separator character, which the code neither escapes nor refuses; so do DerivedFacts.SubjectFactIff and the other statements about rows.
- Onboarding.Plan: the findings' messages, their sorting and the contributor findings, which decide nothing.
- Coverage.ComputeCoverage: the display order of its lists, and the texts of its entries and notes.
- Assessment.Assess: ownership, the peering matrix, decisions and impact are not attached to conflicts, and the report's notes and limits are left out.
- Assessment.BuildConflicts: the ownership, matrix relation, impact and decision of a conflict, which are looked up and copied.
- Sync.SpacesIff: supposes a text for every instant, so the years that the format of times cannot write are left out.
- Derivation.Derive: the sorting of moves, the wave roll-ups and the typed counts, which only present what is derived.
- PlanValidate.Validate: merging several plan files into one plan, which only concatenates them.
- AdoptRun.ParentLookup.SeedFromLedger: a parent is looked up by tenant and key as a pair, not by the two joined with a NUL character.
- AdoptRun.PerformApply: the texts of verdicts and outcomes; what the ledger's service decides is arbitrary.
- The service itself: policy, the ledger and its transactions, quarantine, the worker's reconciliation, findings and the HTTP API.
- The AWS plugin objects, discovery, the Terraform provider and the command-line front ends.
