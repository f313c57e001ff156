# Hive-section service model

A Dafny model of the KatlaSport hive-section service: the layer that manages
the sections of a store hive. Each section has an id, a code, a name, the id
of the hive it belongs to, a soft-delete flag, and creation/last-update audit
stamps. The service lists sections (all of them, or one hive's) ordered by id,
and gets one section by id. It creates sections with a global duplicate-code
check, and updates code and name with a duplicate-code check that skips the
section itself. It toggles the soft-delete flag, writing nothing when the flag
already has the requested value. It purges a section only once it is
soft-deleted.

The store is an immutable sequence of records. Every operation is a pure
function returning either the new store or a typed error: `NotFound`,
`Conflict(DuplicateCode)`, or `Conflict(NotSoftDeleted)`. A failing call
changes nothing. "The first record a by-id query returns" is the first record
in the sequence with that id (`Sections.IndexOf`). Look-up by id does not
assume that ids are unique. The lemmas that need the store's primary key
take `IdsUnique` as a hypothesis.

Modules:
- `Results`: the error and result types.
- `Sections`: the section record, the store, and its uniqueness predicates.
- `SectionOrdering`: sorting by id and selecting one hive's sections.
- `HiveSectionService`: the seven operations.
- `SectionProperties`: look-up, frame and uniqueness lemmas for each write.
- `SectionLifecycle`: the Absent / Active / SoftDeleted state of each id, and the moves each operation makes.
- `SectionHistory`: sequential runs of commands, with ids handed out by a counter that only grows.
- `SectionScenarios`: worked create / list / soft-delete / purge examples.

Three behaviours are modelled exactly as the code has them:
- Update stamps `LastUpdatedBy` but not `LastUpdated` (line 95).
- Create does not check that the parent hive exists (line 64).
- The purge conflict carries no reason (line 114), while the duplicate-code conflicts carry "code". The model names these two reasons `NotSoftDeleted` and `DuplicateCode`.

Code uniqueness after an update needs unique ids as well as unique codes. The
duplicate check excludes every record carrying the target's id, so a second
record with that id could already hold the new code. The store's primary key
rules this out, and `UpdatePreservesValid` assumes it.

## Model

| member | source | states |
|---|---|---|
| Sections.IndexOf | KatlaSport.Services/HiveManagement/HiveSectionService.cs:42-48 | no position exactly when no record has the id; otherwise a position holding the id, with no earlier record holding it |
| SectionOrdering.SortById | KatlaSport.Services/HiveManagement/HiveSectionService.cs:34 | the result is ordered by id, is a permutation of its input, and is strictly ascending when ids are unique |
| SectionOrdering.OfHive | KatlaSport.Services/HiveManagement/HiveSectionService.cs:124 | keeps exactly the records of the hive, each with its multiplicity in the store, and keeps ids unique |
| SectionOrdering.StrictlyAscendingUnique | KatlaSport.Services/HiveManagement/HiveSectionService.cs:34 | two strictly id-ordered sequences with the same records are equal, so the ordered listing is determined by the store's contents |
| HiveSectionService.ListAll | KatlaSport.Services/HiveManagement/HiveSectionService.cs:32-37 | every stored section, each exactly as often as stored, in ascending id order (strictly ascending under unique ids) |
| HiveSectionService.ListByHive | KatlaSport.Services/HiveManagement/HiveSectionService.cs:122-127 | a section is listed iff it is stored with that hive id, with its stored multiplicity, in ascending id order |
| HiveSectionService.Get | KatlaSport.Services/HiveManagement/HiveSectionService.cs:40-49 | succeeds iff some section has the id, returning a stored section with that id; fails only with NotFound |
| SectionProperties.GetIsMembership | KatlaSport.Services/HiveManagement/HiveSectionService.cs:42-48 | under unique ids, get returns s iff s is stored and carries the id |
| SectionProperties.GetNotFound | KatlaSport.Services/HiveManagement/HiveSectionService.cs:42-46 | get fails with NotFound iff no stored section has the id |
| HiveSectionService.Create | KatlaSport.Services/HiveManagement/HiveSectionService.cs:52-75 | fails with Conflict(DuplicateCode) iff any section (any hive, soft-deleted too) has the code; otherwise appends one section with the fresh id, the request's code and name, the given hive, flag clear, both stamps now and both actors the caller |
| SectionProperties.CreateThenGet | KatlaSport.Services/HiveManagement/HiveSectionService.cs:60-74 | after a create the new id finds the returned section and every other id finds what it found before |
| SectionProperties.CreatePreservesValid | KatlaSport.Services/HiveManagement/HiveSectionService.cs:54-72 | a successful create keeps ids and codes pairwise distinct |
| SectionProperties.TwoCreatesWithDistinctCodes | KatlaSport.Services/HiveManagement/HiveSectionService.cs:54-72 | two creates with distinct unused codes both succeed when the second gets an id still unused after the first; the two ids differ because the first section occupies its id |
| SectionProperties.CreateThenListByHive | KatlaSport.Services/HiveManagement/HiveSectionService.cs:60-72 | the new section appears in its hive's listing; every other hive's listing is unchanged |
| SectionProperties.AppendOtherHive | KatlaSport.Services/HiveManagement/HiveSectionService.cs:124 | adding a section of another hive leaves a hive's listing exactly as it was |
| HiveSectionService.Update | KatlaSport.Services/HiveManagement/HiveSectionService.cs:78-100 | Conflict(DuplicateCode) whenever another id holds the code, even for a missing id; else NotFound if the id is absent; else only the first record with the id changes: code and name from the request, last editor the actor |
| SectionProperties.UpdateOwnCodeSucceeds | KatlaSport.Services/HiveManagement/HiveSectionService.cs:80-84 | with unique codes, resubmitting a section's own code never conflicts |
| SectionProperties.UpdateConflictBeforeNotFound | KatlaSport.Services/HiveManagement/HiveSectionService.cs:80-90 | a code held by another id yields Conflict(DuplicateCode) whether or not the target exists |
| SectionProperties.UpdateThenGet | KatlaSport.Services/HiveManagement/HiveSectionService.cs:92-99 | after an update the target has the new code and name and the actor as last editor; it keeps its id, hive, flag, creation stamps and last-update time; other ids are unaffected |
| SectionProperties.UpdatePreservesValid | KatlaSport.Services/HiveManagement/HiveSectionService.cs:80-97 | a successful update keeps ids and codes pairwise distinct |
| HiveSectionService.Delete | KatlaSport.Services/HiveManagement/HiveSectionService.cs:103-119 | NotFound for an absent id, Conflict(NotSoftDeleted) for a live one; on success the removed record was soft-deleted and the rest keep their order |
| SectionProperties.DeleteOnlyWhenSoftDeleted | KatlaSport.Services/HiveManagement/HiveSectionService.cs:105-117 | purge succeeds iff the section exists and its flag is set |
| SectionProperties.DeleteThenGet | KatlaSport.Services/HiveManagement/HiveSectionService.cs:111-118 | purge removes exactly one copy of the target; afterwards its id is NotFound and every other id finds what it found before |
| SectionProperties.DeletePreservesValid | KatlaSport.Services/HiveManagement/HiveSectionService.cs:105-118 | a successful purge keeps ids and codes pairwise distinct |
| HiveSectionService.SetStatus | KatlaSport.Services/HiveManagement/HiveSectionService.cs:130-147 | NotFound iff the id is absent; no change when the flag already matches; otherwise only that record's flag, last-update time and last editor change |
| SectionProperties.SetStatusIdempotent | KatlaSport.Services/HiveManagement/HiveSectionService.cs:140-146 | setting the same status a second time, by any actor at any time, leaves the store as the first call left it |
| SectionProperties.SetStatusThenGet | KatlaSport.Services/HiveManagement/HiveSectionService.cs:132-146 | afterwards the flag has the requested value; a matching flag leaves the record and its audit stamps untouched; other ids are unaffected |
| SectionProperties.SetStatusPreservesValid | KatlaSport.Services/HiveManagement/HiveSectionService.cs:139-146 | a status change keeps ids and codes pairwise distinct |
| SectionLifecycle.CreateLifecycle | KatlaSport.Services/HiveManagement/HiveSectionService.cs:60-72 | create moves its fresh id from Absent to Active and no other id |
| SectionLifecycle.UpdateLifecycle | KatlaSport.Services/HiveManagement/HiveSectionService.cs:92-97 | update moves no id between lifecycle states, soft-deleted ones included |
| SectionLifecycle.SetStatusLifecycle | KatlaSport.Services/HiveManagement/HiveSectionService.cs:132-146 | status fails exactly for Absent ids, puts the target in the requested state, and moves no other id |
| SectionLifecycle.DeleteLifecycle | KatlaSport.Services/HiveManagement/HiveSectionService.cs:105-118 | purge succeeds exactly from SoftDeleted, leaves the id Absent, and moves no other id |
| SectionHistory.Execute | KatlaSport.Services/HiveManagement/HiveSectionService.cs:52-147 | executing one command keeps every stored id below the id counter, and the counter never decreases |
| SectionHistory.ExecuteStep | KatlaSport.Services/HiveManagement/HiveSectionService.cs:54-146 | one successful command keeps ids and codes unique, moves each id only along the lifecycle, and never revives an issued id that is absent |
| SectionHistory.Run | KatlaSport.Services/HiveManagement/HiveSectionService.cs:54-146 | any sequential run keeps ids and codes unique, and an id that was issued and purged stays absent |
| SectionHistory.TwoCreateCommands | KatlaSport.Services/HiveManagement/HiveSectionService.cs:54-72 | from a consistent state, two creates with distinct unused codes executed in turn both succeed, append sections with those codes, and receive different ids from the counter |
| SectionScenarios.CreateThenList | KatlaSport.Services/HiveManagement/HiveSectionService.cs:52-75 | creating code "S1" under hive 1 in an empty store gives the store holding just that section, which is hive 1's only listing entry and absent from hive 2's listing |
| SectionScenarios.SoftDeleteThenPurge | KatlaSport.Services/HiveManagement/HiveSectionService.cs:103-146 | a live section's purge is refused; once soft-deleted its code still blocks a create under another hive, purge empties the store, and its id is then NotFound |

## Left out

- Entity Framework queries and `SaveChangesAsync` are out: the store is an in-memory sequence. Store-level failures (connectivity, database constraint violations) are not modelled.
- The new section's id is a caller-supplied unused id (`newId` in `Create`). `SectionHistory` models it as a growing counter; the database's identity generation is not part of this model.
- `DateTime.Now` and `DateTime.UtcNow` are an opaque `now` parameter. HiveSectionService.Create uses one `now` for both `Created` and `LastUpdated`, while the source reads the clock twice.
- HiveSectionService.SetStatus: the source stamps `LastUpdated` with UTC time (line 143), while create stamps it with local time (lines 65-66), so one field mixes two clocks. With a single opaque `now` the model cannot tell them apart.
- The user context is out: the acting user is the `actor` parameter.
- The AutoMapper projections are out. List items and details are the stored records themselves. The update request carries only code and name, the two request fields the create path reads.
- Code comparison is exact string equality; database collation (for example case-insensitive matching) is not modelled.
- SectionHistory.Execute: ids and actor ids are unbounded integers, while the source uses 32-bit `int`. The id counter therefore never runs out, and identity exhaustion (a store failure) is not modelled.
- Concurrency is out: the check-then-act race between concurrent creates or updates is not modelled. The uniqueness results hold for sequential execution only.
- The hive service and the hive records are not part of this model, and neither is any cascade from a hive to its sections.
- The HTTP controllers, request validation and status codes are out, and so is the Angular client.
- Async suspension and cancellation are out. Each operation is one atomic step.
