# Kinto's versioned object store and the protocols built on it

Kinto stores JSON objects in cells, one per (parent, resource name). A cell has a logical
clock, live objects that each carry the timestamp of their last write, and tombstones of
deleted objects. Everything else here is a protocol on top of that cell, or a query over it:
synchronisation with `_since`, optimistic locking with `If-Match`, snapshots rebuilt from
history, filtering, sorting and keyset pagination (in memory and translated to SQL), paginated
deletion, resource events, the group index, merge patch, projections and the bounded cache.

Code that updates state is a class or a method with loops (`Store`, `HistoryStore`,
`EventCollector`, `Permission`, `Cache`, the endpoints, the query loops); it is proved equal to
a specification function, and the properties are lemmas over that function or invariants that
every method keeps.

| file | what it holds |
|---|---|
| `Json.dfy`, `Paths.dfy`, `Options.dfy`, `Collections.dfy` | JSON values, the order used for sorting, dotted-path lookup |
| `Sorting.dfy`, `Query.dfy` | stable sort chain, filters, page extraction |
| `Pagination.dfy`, `Paging.dfy` | page size, sorting, tokens, rules, pages, the walk along Next-Page |
| `SqlTranslation.dfy` | conditions as a syntax tree with three-valued meaning |
| `Storage.dfy`, `Sync.dfy`, `DeltaPages.dfy`, `PagedSync.dfy` | the cell, its runs, synchronisation, and the same from the pages that are served |
| `Locking.dfy` | the object endpoints: preconditions, what they store, optimistic locking |
| `Replay.dfy` | the order in which merged events replay the changes of a request |
| `History.dfy`, `Snapshot.dfy`, `Recording.dfy` | the history listener with trimming, the snapshot endpoint, both end to end |
| `PluralDelete.dfy` | DELETE on a list, page after page |
| `MergePatch.dfy`, `DictSubset.dfy`, `Condense.dfy` | RFC 7396, projections, ancestor condensation |
| `Events.dfy` | event collection and replay |
| `Groups.dfy`, `GroupReplay.dfy`, `GroupReorder.dfy`, `GroupSpoil.dfy`, `GroupAgreement.dfy` | group principals, the order in which events replay changes, when it is harmless |
| `Cache.dfy` | the in-memory cache |
| `Reachable.dfy` | runs after which a protocol falls short |

## Where the code does not do what one would expect

Each of these is proved, with the exact condition where there is one.

- A `HAS` filter overrides every filter before it (memory.py:616-617), while PostgreSQL
  conjoins them: `Query.MatchesIsConjunction`, `SqlTranslation.WhereMeansFilters`.
- PostgreSQL ignores a missing filter value on the id or timestamp column (the condition of the
  previous filter is used again, postgresql/\_\_init\_\_.py:1163-1178) and fails when it comes first,
  while memory evaluates it. `SqlTranslation.FormattedFails` says when the translation fails,
  `SqlTranslation.BackendsAgree` and `SqlTranslation.BackendsAgreeWithoutHas` on which rows the
  backends agree. A client's token without a timestamp is enough for them to differ
  (`SqlTranslation.StaleTokenDisagrees`).
- An explicit `_limit=0` escapes `paginate_by`, and Next-Page does not repeat it, so the second
  page of such a walk is smaller than the first: `Pagination.LimitIsStable` says exactly when.
- Following Next-Page loses objects exactly when two objects with equal sort keys stand on the
  two sides of a page boundary: `Paging.FollowNextPage`. Three creations, one of them in the
  past, are enough: `Reachable.TieLosesAnObject`.
- A write specified below the clock is invisible to a client that is in sync:
  `Sync.PastStampEscapesSync`, `Sync.PastTombstoneEscapesSync`.
- A `last_modified` of 0 escapes the rule that drops timestamps that are not newer
  (resource/\_\_init\_\_.py:756-760), and an `If-Match` of 0 is no precondition:
  `Locking.UpdateRaisesStamp`, `Locking.IfMatchZeroIsIgnored`. After a delete, a re-created object
  may bear a stamp that an old ETag names, exactly when the last write on it named that stamp:
  `Locking.IfMatchAccepted`, `Locking.NewLifetimeMayReuseStamp`.
- Paginated DELETE empties the list exactly under the sortings for which a tombstone's key comes
  first (`PluralDelete.Drains`); under any other one the walk may end with objects left:
  `PluralDelete.OtherSortingsDoNotDrain`.
- When permissions on history entries are not explicit, the listener returns after its first
  entry (listener.py:188-189), so the other changes of the event get none:
  `History.HistoryStore.OnResourceChanged`.
- A snapshot also holds the tombstones of records that were dead at that time and have changed
  since (views.py:181-186): `Snapshot.SnapshotIsTheCollection`, `Reachable.SnapshotHoldsTombstone`.
- Events are grouped by action, so the entries of a record that one request changes more than once
  may be out of order. With stamps chosen by the clock, the history is full exactly when no change
  of a record follows one by an action that the request first takes later
  (`Recording.FullIffInOrder`), and all snapshots are right exactly when the entries of each record, its current state aside, are in order
  (`Recording.SnapshotsOfRunAreRightIff`). A batch that creates a record, deletes another one and
  creates that one again makes a snapshot report a tombstone for a live record:
  `Reachable.BatchMisreportsRecord`.
- For the same reason the changes of one group in a batch may be replayed out of order. The user's
  principals stay right, whatever the memberships, exactly when the replay keeps the order of each
  group's changes or ends with the deletion with which they end:
  `GroupAgreement.KeepsAgreementIff`. Otherwise a member may lose the principal
  (`GroupAgreement.MembershipIsLost`) or a user keep that of a group that is gone
  (`GroupAgreement.PrincipalIsStale`).
- The cache subtracts the size of a key that is not stored, on delete and on expiry
  (cache/memory.py:87-93), and never that of an entry it overwrites. Its quota is below the true
  size exactly when more was missed than replaced (`Cache.QuotaFallsShort`). From every such state
  with room for an entry the cache can then outgrow its bound (`Cache.ShortQuotaBreaksBound`, from
  the empty cache `Cache.StrayDeleteBreaksBound`), without room it cannot (`Cache.NoRoomOneEntry`).
  The other way round it may count as full when it is not (`Cache.OverwritingFillsQuota`).
- `recursive_update_dict` differs from MergePatch exactly when an object of the patch meets a
  value of the target that is not an object: `MergePatch.ComputesMergePatch`.

## Model

| member | source | states |
|---|---|---|
| Json.LongestRoot | kinto/core/utils.py:223-239 | the root found is the longest key of the dict that ends before a dot, and none is missed |
| Json.LessTransitive | kinto/core/storage/memory.py:624-653 | the decorated order is transitive over every pair of values |
| Json.LessTotal | kinto/core/storage/memory.py:624-653 | on scalars and MISSING the order is total, so a sort key always decides |
| Json.KindsInOrder | kinto/core/storage/memory.py:624-653 | null sorts before strings, these before numbers, booleans, arrays, objects and what is missing |
| Json.SameKindInOrder | kinto/core/storage/memory.py:624-653 | numbers sort by size, false before true, strings at the first character that differs, a prefix first |
| Paths.FindNestedIsArrow | kinto/core/utils.py:211-239 | on undotted keys the dotted-path search is the chain of `->` that SQL uses |
| Query.ApplyFilters | kinto/core/storage/memory.py:588-621 | the loops keep, in order, the objects that the filter list accepts |
| Query.HoldsMeans | kinto/core/storage/memory.py:588-621 | what each operator says of the value that is looked up; HAS asks for a present field unless its value is falsy in Python |
| Query.MatchesFromLastHas | kinto/core/storage/memory.py:592-621 | a filter list means the conjunction of its last HAS and what follows it |
| Query.MatchesIsConjunction | kinto/core/storage/memory.py:616-617 | it means the whole conjunction exactly where the filters before that HAS would not have rejected |
| Query.ApplySorting | kinto/core/storage/memory.py:656-669 | the reversed loop is the chain of stable single-key sorts |
| Sorting.SortByStable | kinto/core/storage/memory.py:656-669 | elements a single sort cannot tell apart keep their order, reversed or not |
| Sorting.ChainSorts | kinto/core/storage/memory.py:656-669 | the chain permutes its input into the mixed-direction lexicographic order and keeps ties in input order |
| Sorting.StableSortUnique | kinto/core/storage/memory.py:656-669 | these three properties leave one result only |
| Query.ExtractObjectSet | kinto/core/storage/memory.py:510-544 | the page is the filtered, rule-selected, sorted and cut list; the total is the number of accepted objects less the tombstones among those the rules let through, before the cut |
| Query.ListAll | kinto/core/storage/memory.py:376-412 | filtering live objects first and again with the tombstones is filtering once |
| Pagination.ExtractLimit | kinto/core/resource/__init__.py:1063-1076 | the page size is within the fetch limit, the request and the setting, except that an explicit 0 gets the fetch limit |
| Pagination.LimitIsStable | kinto/core/resource/__init__.py:1063-1076 | the page that Next-Page asks for has the size of its own page, except exactly after an explicit 0 that the setting would have cut |
| Pagination.SizeSettles | kinto/core/resource/__init__.py:1292-1304 | from the second page on the size never changes, and it is not above the first |
| Pagination.ZeroLimitChangesPageSize | kinto/core/resource/__init__.py:1063-1076 | with `_limit=0` and a setting of 5 the pages have 10000 and then 5 objects |
| Pagination.ExtractSorting | kinto/core/resource/__init__.py:1195-1220 | the sorting is what the fields say, in order, then newest first unless `last_modified` is sorted on as such; an error iff a field names what is unknown; without `_sort` it is newest first alone |
| Pagination.ReadAsSaid | kinto/core/resource/__init__.py:1200-1203 | a field is read as a sort iff it is an optional sign and a name of words and dots, blanks around them; it is descending iff the sign is `-` |
| Pagination.SaidIsYielded | kinto/core/resource/__init__.py:1195-1220 | fields that all say something known yield exactly that, in order, and the default |
| Pagination.DefaultIsNewestFirst | kinto/core/resource/__init__.py:1216-1219 | a request without `_sort` is sorted newest first |
| Pagination.SortingReadsTimestamp | kinto/core/resource/__init__.py:1195-1220 | every sorting that a request yields reads `last_modified` |
| Pagination.BuildPaginationToken | kinto/core/resource/__init__.py:1306-1326 | the token holds exactly the sort fields that the last object has |
| Pagination.BuildPaginationRules | kinto/core/resource/__init__.py:1222-1253 | the recursion appends one rule per non-empty prefix of the sorting, the longest first |
| Pagination.RuleMeaning | kinto/core/resource/__init__.py:1234-1247 | the rule of a prefix accepts the objects equal on all its fields but the last and strictly after on the last, MISSING being greatest |
| Pagination.KeyLessAt | kinto/core/resource/__init__.py:1222-1253 | being after in the lexicographic order is being strictly after at some position with equality before it |
| Pagination.RulesAcceptWhatFollows | kinto/core/resource/__init__.py:1222-1253 | for any number of sort fields, some rule accepts an object iff it is strictly after the last object, and no two rules accept the same object |
| Pagination.UnionHoldsRuleCount | kinto/core/storage/memory.py:527-533 | the union over the rules holds one copy of an object per rule that accepts it |
| Pagination.UnionIsPermutation | kinto/core/storage/memory.py:527-533 | when exactly one rule accepts each object, the union loses and repeats nothing |
| Paging.TokenRestartsAfter | kinto/core/storage/memory.py:527-536 | sorting the union over a token's rules gives the sorted list cut after the token's object |
| Paging.PluralGet | kinto/core/resource/__init__.py:367-422 | a page is the first `limit` objects that the token lets through, and there is a next one iff one more was found; tombstones are among the objects iff some filter is on `last_modified` |
| Paging.NextPage | kinto/core/resource/__init__.py:396-422 | the page behind a token is the slice of the sorted list that starts after every tie of the token's object |
| Paging.FollowNextPage | kinto/core/resource/__init__.py:396-422 | the walk ends; its pages concatenate to the whole sorted list, in one page and ceil((n - first) / rest) more, iff no tie crosses a page boundary; otherwise they hold fewer objects, in order and none twice |
| Paging.PageCountIsCeil | kinto/core/resource/__init__.py:396-422 | that number of pages is the ceiling of n / limit |
| Paging.DistinctKeysNeverTie | kinto/core/resource/__init__.py:396-422 | with pairwise distinct sort keys no tie crosses a boundary |
| Paging.DistinctTimestampsPaginateCompletely | kinto/core/resource/__init__.py:1195-1220 | with distinct timestamps the pages of every request are complete, whatever it sorts on |
| SqlTranslation.BuildContainmentJson | kinto/core/storage/postgresql/__init__.py:33-43 | the loop nests the value under the whole dotted path |
| SqlTranslation.ContainmentIsEquality | kinto/core/storage/postgresql/__init__.py:1075-1088 | containment of a nested scalar is equality at the end of the path |
| SqlTranslation.ArraysContain | kinto/core/storage/postgresql/__init__.py:1075-1088 | an array contains another iff each member of that one is contained in some member of it, order and repetition aside |
| SqlTranslation.ThreeValued | kinto/core/storage/postgresql/__init__.py:1071-1181 | AND takes the lesser and OR the greater of false, unknown and true |
| SqlTranslation.ColumnIsField | kinto/core/storage/postgresql/__init__.py:984-1008 | the column of a filter reads the value that the in-memory lookup finds |
| SqlTranslation.FormatConditions | kinto/core/storage/postgresql/__init__.py:955-1181 | the loop, for any filters: a missing value on the id or timestamp column repeats the previous condition, or fails when there is none |
| SqlTranslation.FormattedTranslates | kinto/core/storage/postgresql/__init__.py:955-1181 | without such filters, one condition per filter, or an error iff some filter has none |
| SqlTranslation.FormattedFails | kinto/core/storage/postgresql/__init__.py:955-1181 | for any filters, an error iff the first has a missing value on the id or timestamp column, or one that has not has no condition |
| SqlTranslation.StaleIsIgnored | kinto/core/storage/postgresql/__init__.py:1135-1178 | with such filters, the conjunction is TRUE iff all the others hold in memory |
| SqlTranslation.BackendsAgree | kinto/core/storage/postgresql/__init__.py:1135-1178 | for any filters that translate, HAS and missing values included, SQL and memory agree on a row iff the filters from the last HAS on, missing values aside, reject it, or those before it hold exactly when the missing values from it on are harmless (LT, MAX or NOT) |
| SqlTranslation.BackendsAgreeWithoutHas | kinto/core/storage/postgresql/__init__.py:1135-1178 | without HAS they agree on a row iff all missing values are harmless or another filter rejects it |
| SqlTranslation.StaleTokenDisagrees | kinto/core/resource/__init__.py:1262-1288 | for a token with `a` null and no timestamp, sorting by `a` and the timestamp, SQL returns a row that memory does not |
| SqlTranslation.ConditionMeansFilter | kinto/core/storage/postgresql/__init__.py:1071-1181 | for every row with a scalar, non-scalar or missing field, the condition is TRUE iff the in-memory filter accepts |
| SqlTranslation.WhereMeansFilters | kinto/core/storage/postgresql/__init__.py:1071-1181 | the conjunction is TRUE iff the in-memory list accepts, exactly where HAS overrides nothing; always when only the first filter is a HAS |
| SqlTranslation.HasOverrides | kinto/core/storage/memory.py:616-617 | a row that memory accepts and SQL refuses |
| SqlTranslation.FormatPagination | kinto/core/storage/postgresql/__init__.py:1183-1214 | one translated list per rule, or an error iff some rule has no translation |
| SqlTranslation.PaginationAgrees | kinto/core/storage/postgresql/__init__.py:1204-1214 | SQL and memory return an object the same number of times iff at most one rule accepts it |
| SqlTranslation.SqlPageFollowsToken | kinto/core/storage/postgresql/__init__.py:1183-1214 | the SQL disjunction of a token's rules selects exactly the rows after the token's object |
| Storage.Bump | kinto/core/storage/memory.py:98-138 | the clock never goes back; a stamp exceeds it iff none was specified or the one specified is not below it; it is the wall clock, the specified one, or the next tick of the clock |
| Storage.Store.constructor | kinto/core/storage/memory.py:163-171 | every cell starts empty |
| Storage.Store.BumpAndStore | kinto/core/storage/memory.py:187-203 | the clock of its cell moves to the bumped one, nothing else changes |
| Storage.Store.ResourceTimestamp | kinto/core/storage/memory.py:173-181 | reading initialises an unset clock, and fails iff that is needed on a read-only store |
| Storage.Store.Get | kinto/core/storage/memory.py:240-253 | the live version, or not found |
| Storage.Store.Create | kinto/core/storage/memory.py:205-238 | the cell takes the create step (the tombstone goes away); over a live id it fails with the existing object and changes nothing; under a generated id it overwrites |
| Storage.Store.Update | kinto/core/storage/memory.py:255-277 | the cell takes the update step, creating the object when there is none |
| Storage.Store.Delete | kinto/core/storage/memory.py:279-310 | the cell takes the delete step, with or without tombstone; an absent id fails and changes nothing |
| Storage.StepEffect | kinto/core/storage/memory.py:187-310 | a step touches its own id only and stamps it ahead of the old clock unless a past stamp was specified |
| Storage.RunKeepsInv | kinto/core/storage/memory.py:187-310 | over every run no id is both live and dead, no stamp exceeds the clock and the clock never decreases, whatever the wall clock does |
| Storage.RunKeepsDistinct | kinto/core/storage/memory.py:113-138 | without past stamps all stamps of a cell stay pairwise distinct over every run |
| Storage.EveryReachableCell | kinto/core/storage/memory.py:187-310 | both hold in every state reachable from the empty store |
| Storage.PastStampMayRepeat | kinto/core/storage/memory.py:122-129 | a past stamp breaks distinctness iff another id bears it already |
| Sync.SinceIsTheFilter | kinto/core/resource/__init__.py:1119-1139 | the delta is what the `_since` filter accepts among live objects and tombstones |
| Sync.SlotAfterRun | kinto/core/storage/memory.py:207-310 | over a run an id keeps its slot or ends in one stamped after the starting clock |
| Sync.SyncConverges | kinto/core/resource/__init__.py:1119-1139 | a listing that is right about the objects nothing happens to, taken during any run, plus the delta since a clock read before it, is exactly the final live map |
| Sync.ReadInSomeState | kinto/core/resource/__init__.py:1119-1139 | a listing that read each object in some state of the run is such a listing |
| PagedSync.OnThisPageOrLater | kinto/core/resource/__init__.py:389-422 | a matching object that follows the token and shares its keys with no other is on the page or follows the token of the next one |
| PagedSync.WalkTeaches | kinto/core/resource/__init__.py:1222-1304 | pages read in successive states of any run, each from the token of the one before, until there is none, show of an id that nothing happens to its object or tombstone if it is asked for, and nothing else, for all page sizes and any sorting that a request yields, under distinct stamps |
| DeltaPages.PagesHoldDelta | kinto/core/resource/__init__.py:367-422 | the pages that a walk with `_since=t` serves hold exactly the live objects and tombstones of the delta, each once, for all page sizes and any sorting that a request yields, under distinct stamps |
| DeltaPages.LearningAppliesDelta | kinto/core/resource/__init__.py:1119-1139 | a client that drops what tombstones name and stores the rest of these pages holds what the delta makes of what it held |
| PagedSync.SessionKnows | kinto/core/resource/__init__.py:1119-1139 | from pages alone: a client that starts with nothing, reads the clock with a first page, follows the pages to the end and asks for what is newer than that clock next time, is right about everything stamped up to the clock it read last, over any number of visits, while others write before, between and after every page |
| PagedSync.QuietSessionHoldsAll | kinto/core/resource/__init__.py:1119-1139 | when nothing has been written since it read the clock, it holds the live objects exactly |
| Sync.SessionStaysInSync | kinto/core/resource/__init__.py:1119-1139 | over any number of rounds, each interleaved with writes, the client holds the server's live objects |
| Sync.PastStampEscapesSync | kinto/core/storage/memory.py:122-129 | after one write a client in sync catches up iff its stamp is not below the clock or it wrote what was there |
| Sync.PastTombstoneEscapesSync | kinto/core/storage/memory.py:122-129 | the same for a delete |
| Locking.Put | kinto/core/resource/__init__.py:539-584 | PUT is the request step on the cell, and touches no other cell |
| Locking.Patch | kinto/core/resource/__init__.py:586-663 | the same for PATCH, with 404 before 412 |
| Locking.Delete | kinto/core/resource/__init__.py:665-709 | the same for DELETE, with the querystring timestamp |
| Locking.Post | kinto/core/resource/__init__.py:424-467 | the same for POST with an id, which leaves an existing object alone |
| Locking.HandleOutcome | kinto/core/resource/__init__.py:978-1031 | every outcome, by the headers and the stamp of the object: 404, 412, an object left alone, or a write |
| Locking.HandleStores | kinto/core/resource/__init__.py:539-709 | an accepted PUT, PATCH or POST stores its data under its id (PUT without data keeps what was there), an accepted DELETE leaves a tombstone, and no other id changes |
| Locking.HandleStamps | kinto/core/resource/__init__.py:746-760 | the stamp that an accepted request leaves and where the clock then stands, for every timestamp it carries |
| Locking.HoldsLastWrite | kinto/core/resource/__init__.py:539-709 | after any run an object holds the data of the last accepted write on it |
| Locking.UpdateRaisesStamp | kinto/core/resource/__init__.py:746-760 | an accepted update raises the object's stamp, unless exactly a 0 got through over a stamp that is not negative |
| Locking.HandleEffect | kinto/core/resource/__init__.py:746-760 | an accepted write raises the stamp or ends the lifetime; a refused one, or one on another id, leaves the object alone |
| Locking.StampTellsWrites | kinto/core/storage/memory.py:113-138 | over any run within a lifetime, the stamp rises iff the object was written |
| Locking.BearsAfterRun | kinto/core/storage/memory.py:113-138 | over any run, deletions and re-creations included, an object bears a stamp the clock had reached iff it was not written and bore it, or its last accepted write put it back |
| Locking.IfMatchAccepted | kinto/core/resource/__init__.py:978-1031 | after any run, a write with the ETag of a seen version is accepted iff nothing was written to the object since, or the last accepted write stored it below the clock under that very stamp; in the first case it acts on the version seen |
| Locking.UnnamedStampIsSafe | kinto/core/resource/__init__.py:978-1031 | as long as no request names that stamp for the object, it is accepted iff nothing was written, and acts on the version seen |
| Locking.IfMatchMeansUnmodified | kinto/core/resource/__init__.py:978-1031 | within a lifetime the same holds even if stamps are named, and a refusal is 412 |
| Locking.NoLostUpdate | kinto/core/resource/__init__.py:978-1031 | of two writes conditioned on one version the later is refused, unless the object dies in between and a request names the stamp |
| Locking.IfNoneMatchStar | kinto/core/resource/__init__.py:994-1009 | `If-None-Match: *` on PUT is refused iff the object exists (and is not stamped -1) |
| Locking.NewLifetimeMayReuseStamp | kinto/core/resource/__init__.py:978-1031 | a run from the empty store after which an old ETag is accepted, by a re-creation that names its stamp |
| Locking.IfMatchZeroIsIgnored | kinto/core/resource/__init__.py:986-995 | an `If-Match` of 0 never refuses |
| History.HistoryStore.Create | kinto/plugins/history/listener.py:122-141 | the entry gets the time as its stamp, or the next one when the clock is not behind it, and nothing goes away |
| History.HistoryStore.Trim | kinto/core/storage/memory.py:479-507 | the most recent `max` entries of the group stay, and every entry outside it |
| History.HistoryStore.Record | kinto/plugins/history/listener.py:122-168 | one entry is created; its group, by resource name and, when trimming is by user, by user, is cut to its last `max` iff it has outgrown `max + threshold`, and nothing else goes; the windows hold |
| History.WindowOfResource | kinto/plugins/history/listener.py:142-168 | trimming for everybody: of each resource name the last entries are there, whoever wrote them, at least `max` of them or all, and at most `max + threshold` |
| History.WindowOfUser | kinto/plugins/history/listener.py:142-168 | trimming for some users: the same of each of their lists |
| History.WindowOfOthers | kinto/plugins/history/listener.py:142-168 | the entries of anybody else never go |
| History.HistoryStore.OnResourceChanged | kinto/plugins/history/listener.py:47-189 | one entry per impacted object that is not excluded, in order, when permissions are explicit, otherwise the first only; the window is kept |
| History.TargetsAre | kinto/plugins/history/listener.py:27-88 | a change gets an entry iff neither its user, its bucket, its collection nor the object is excluded |
| History.InWindowStep | kinto/plugins/history/listener.py:142-168 | retained entries are the most recently created ones, min(total, max) <= k <= max + threshold, one entry later |
| History.WindowStep | kinto/plugins/history/listener.py:142-168 | trimming one group keeps the windows of all the others |
| History.TrimLeavesLast | kinto/core/storage/memory.py:491-507 | deleting what follows the first `max` of the most-recent-first list leaves the last `max` in creation order |
| Snapshot.LastChangeIsTheState | kinto/core/storage/memory.py:207-310 | the last change stamped at or before `t` is the state of the record when the clock last stood at or below `t` |
| Snapshot.AtTimeIsAState | kinto/core/storage/memory.py:207-310 | that state is the last one of the run whose clock is not past `t` |
| Snapshot.RequestKeepsHistoryFull | kinto/plugins/history/listener.py:122-141 | a request with at most one change per record, whose changes have one entry each, keeps the history full, whatever the order of its entries |
| Snapshot.RunsKeepHistoryFull | kinto/plugins/history/listener.py:122-141 | over every run of such requests from the empty store the history is full |
| Snapshot.MostRecentEntries | kinto/plugins/history/views.py:157-176 | the loop picks, for each changed record, the target of its last entry at or before `t`, or nothing iff there is none |
| Snapshot.GetSnapshot | kinto/plugins/history/views.py:140-188 | the result holds each reported record once, in descending `last_modified` |
| Snapshot.SnapshotIsTheCollection | kinto/plugins/history/views.py:140-188 | over every run of clock-chosen writes with a full history, its live records are exactly those of the collection at `t`; its other items are exactly the tombstones dead at `t` and changed since |
| Snapshot.SnapshotOfRun | kinto/plugins/history/views.py:140-188 | over every run of such requests, with clock-chosen timestamps, the live records of a snapshot are those of the collection at `t` |
| Snapshot.SnapshotsAreRightIff | kinto/plugins/history/views.py:140-188 | over every run of clock-chosen writes with one entry per change in any order, all snapshots are right about every id iff the entries of each record, its current state aside, are in the order of its changes |
| Replay.ReplayedIsStableSort | kinto/core/events.py:117-134 | merged events replay the changes of a request stably sorted by the first occurrence of what they are merged by |
| Replay.KeepsOrderIff | kinto/core/events.py:117-134 | any selection of the changes keeps its order in the replay iff none of them follows one of a kind first seen later |
| Recording.RecordRequest | kinto/plugins/history/listener.py:47-141 | the listener, run over the merged events of a request, writes one entry per change, in the order of replay |
| Recording.RecordIsBelow | kinto/views/admin.py:44-58 | the parent of a record uri is the uri of its collection |
| Recording.RecordedInOrder | kinto/plugins/history/listener.py:122-141 | the entries that a request leaves of a record are its changes in order if, and with clock-chosen stamps only if, no change of it follows one by an action that the request first takes later |
| Recording.AtMostOnceIsInOrder | kinto/plugins/history/listener.py:122-141 | a request that changes each record at most once is in order |
| Recording.FullIffInOrder | kinto/plugins/history/listener.py:15-199 | over every run the history is full if, and with clock-chosen stamps only if, every request is in order |
| Recording.RecordRun | kinto/plugins/history/listener.py:15-199 | over every run, whatever the requests change and how often, a deployment that records everything keeps the history full if (and with clock-chosen stamps only if) every request is in order |
| Recording.ListenedHoldsChanges | kinto/plugins/history/listener.py:15-199 | in any case the history holds one entry per change |
| Recording.SnapshotsOfRunAreRightIff | kinto/plugins/history/views.py:140-188 | over every run with clock-chosen stamps, all snapshots rebuilt from what the listener recorded are right iff the entries of each record, its current state aside, are in order |
| Recording.ServeSnapshot | kinto/plugins/history/views.py:118-188 | end to end, for requests in order: the records of a snapshot rebuilt from what the listener recorded are those of the collection at `t` |
| Reachable.SnapshotHoldsTombstone | kinto/plugins/history/views.py:181-186 | a run from the empty store whose snapshot holds a tombstone |
| Reachable.BatchMisreportsRecord | kinto/core/events.py:126-134 | a run from the empty store with a batch that changes a record twice, after which the snapshot at a time when the record lived reports its tombstone |
| Reachable.TieLosesAnObject | kinto/core/resource/__init__.py:1222-1253 | three creations from the empty store after which every walk in pages of two, in the default order, serves two objects at most |
| PluralDelete.TombstoneFields | kinto/core/storage/memory.py:40-56 | a tombstone has its id, stamp and deleted mark, and every other path is missing |
| PluralDelete.TokenReaches | kinto/core/resource/__init__.py:1306-1326 | under a draining sorting every object not yet listed follows the token of the tombstone |
| PluralDelete.TokenMisses | kinto/core/resource/__init__.py:1306-1326 | under any other sorting some object does not |
| PluralDelete.ListingIsWhole | kinto/core/storage/memory.py:439-460 | the list to delete from is a sorted permutation of the matching objects, whatever the dictionary order |
| PluralDelete.DeleteAll | kinto/core/storage/memory.py:439-477 | the first `limit` matching objects become tombstones with stamps above the clock, nothing else changes |
| PluralDelete.PluralDelete | kinto/core/resource/__init__.py:469-508 | one page is deleted, and the next token is that of the last tombstone iff more objects matched |
| PluralDelete.DeleteFollowingNextPage | kinto/core/resource/__init__.py:483-508 | under a draining sorting the walk deletes every matching object exactly once, in one page of the first size and ceil((n - first) / rest) more, and nothing else |
| PluralDelete.DefaultSortDrains | kinto/core/resource/__init__.py:1195-1220 | the sorting of a request without `_sort` drains |
| PluralDelete.OtherSortingsDoNotDrain | kinto/core/resource/__init__.py:483-508 | for every other sorting, two creations from the empty store and the deletion of either object lead to an empty second page with the other object left |
| PluralDelete.StragglersAreReachable | kinto/core/storage/memory.py:205-238 | the two creations store the two objects that the sorting cannot drain |
| PluralDelete.PresentTokens | kinto/core/resource/__init__.py:1276-1319 | over every run of the cache, other uses of it included, a nonce that only token issue stores is accepted at most as often as it was issued; without a bound it is accepted within its validity |
| MergePatch.RecursiveUpdate | kinto/core/utils.py:103-120 | the loop computes the updated root, or raises, whatever the order of the keys |
| MergePatch.UpdateOther | kinto/core/utils.py:103-120 | on a root that is not a dict the loop leaves it as it is or raises |
| MergePatch.OnlyDictsChange | kinto/core/utils.py:103-120 | changes that are not a dict change nothing |
| MergePatch.OthersRaise | kinto/core/utils.py:103-120 | a string or an array survives the removal of what it does not contain, and everything else raises |
| MergePatch.ComputesMergePatch | kinto/core/utils.py:103-120 | the result is MergePatch of section 2 of RFC 7396 iff no object of the patch meets a non-object of the target |
| MergePatch.UpdateIsIdempotent | kinto/core/utils.py:103-120 | applying a patch twice is applying it once, whenever it applies |
| DictSubset.DictMerge | kinto/core/utils.py:201-208 | the loop merges recursively, the first dict winning |
| DictSubset.MergeIsUpperBound | kinto/core/utils.py:201-208 | the merge of two sub-trees of a dict contains both |
| DictSubset.MergeIsLeast | kinto/core/utils.py:201-208 | and is contained in everything that contains both |
| DictSubset.DictSubset | kinto/core/utils.py:182-198 | the loop computes the join of what the keys select one by one |
| DictSubset.SubsetIgnoresOrder | kinto/core/utils.py:182-198 | the projection depends on the set of keys only |
| DictSubset.SubsetIsProjection | kinto/core/utils.py:182-198 | it is a sub-tree, and projecting again changes nothing |
| DictSubset.SelectedPathsAreKept | kinto/core/utils.py:182-198 | each selected path reads in the projection as in the whole |
| Condense.ParentOfChild | kinto/views/admin.py:44-58 | the parent of a uri is the uri two slash-free segments above it |
| Condense.AncestorLiesAbove | kinto/views/admin.py:75-85 | the walk to the parents meets exactly the non-empty uris that the uri lies one or more pairs of slash-free segments below |
| Condense.AncestorIsPrefix | kinto/views/admin.py:44-58 | an ancestor is a proper prefix and sorts first |
| Condense.MeetsAncestor | kinto/views/admin.py:75-85 | the walk ends and meets a member iff the uri lies below one |
| Condense.CondenseUnderParents | kinto/views/admin.py:61-88 | the result is the set of inputs that lie below no input |
| Condense.RootsCondense | kinto/views/admin.py:61-88 | no element of it lies below another, and every input is in it or lies below one of its elements |
| Condense.RootsAreUnique | kinto/views/admin.py:61-88 | it is the only subset with both properties |
| Events.EventCollector.AddEvent | kinto/core/events.py:117-134 | impacted objects join the end of the event of the same level, resource, parent and action, or start a new last event |
| Events.EventCollector.Drain | kinto/core/events.py:136-148 | what is added from then on belongs to the next level |
| Events.EventCollector.Next | kinto/core/events.py:162-170 | the oldest event is taken out |
| Events.AddWaits | kinto/core/events.py:126-134 | an addition extends its own key at its own level and no other |
| Events.ConservedStep | kinto/core/events.py:151-170 | emitting one event, with anything added meanwhile, keeps emitted plus waiting equal to initial plus added, per group and per level, in order |
| Events.NothingIsLost | kinto/core/events.py:117-134 | merging loses no impacted object and repeats none |
| Events.GetResourceEvents | kinto/core/events.py:227-261 | each waiting or added object is emitted once, in order within its group; additions made while draining are never merged with earlier events; the collector left behind holds the same objects |
| Events.ServeRequest | kinto/core/events.py:173-261 | over a request each object is emitted once before commit and once more after it, and events never exceed additions |
| Groups.UriIsInjective | kinto/views/groups.py:53-90 | a group can be told from its uri |
| GroupReplay.GroupIsBelowBucket | kinto/views/admin.py:44-58 | the parent of a group uri is the uri of its bucket |
| Groups.Permission.AddUserPrincipal | kinto/core/permission/memory.py:33-38 | one user gains the principal, nobody else changes |
| Groups.Permission.RemoveUserPrincipal | kinto/core/permission/memory.py:40-52 | one user loses it, an empty entry goes away |
| Groups.Permission.RemovePrincipal | kinto/core/permission/memory.py:54-62 | every user entry loses it, permission entries are untouched |
| Groups.Permission.GetUserPrincipals | kinto/core/permission/memory.py:64-70 | where principals agree with the stored groups, a plain group uri is returned iff the group is stored and lists the user, or all authenticated users |
| Groups.Permission.OnGroupsChanged | kinto/views/groups.py:68-90 | replaying the changes moves each user's principals by the difference of memberships |
| Groups.Permission.OnGroupsDeleted | kinto/views/groups.py:53-65 | every user loses the deleted groups |
| Groups.RequestKeepsAgreement | kinto/views/groups.py:53-90 | a request that changes each group at most once keeps principals and memberships in agreement, in any order of replay |
| Groups.RunsAgree | kinto/views/groups.py:53-90 | over every run of such requests a user has a group uri iff the group is live and lists the user |
| GroupReplay.EventHoldsItsKey | kinto/core/events.py:117-134 | each event of a request holds the changes of its bucket and action, in order |
| GroupReplay.RegroupedInBlocks | kinto/core/events.py:117-134 | the changes of one group are replayed action by action, in the order in which the actions first occur in its bucket |
| GroupReplay.SafeReplayAgrees | kinto/views/groups.py:53-90 | any number of changes to a group keep the agreement if the replay keeps their order or ends with the deletion with which they end |
| GroupSpoil.Spoil | kinto/views/groups.py:53-90 | for every other order of replay there are memberships for which it ends wrong |
| GroupAgreement.UnsafeReplayFails | kinto/views/groups.py:53-90 | the same request on other memberships, valid and in agreement before it, then breaks the agreement |
| GroupAgreement.KeepsAgreementIff | kinto/views/groups.py:53-90 | a request keeps the agreement whatever the memberships are iff its replay is safe for every group |
| GroupAgreement.AtMostOnceIsSafe | kinto/views/groups.py:53-90 | a request that changes each group at most once is safe |
| GroupAgreement.MembershipIsLost | kinto/core/events.py:126-134 | a batch after which a member lacks the principal of a live group |
| GroupAgreement.PrincipalIsStale | kinto/core/events.py:126-134 | a batch after which a user keeps the principal of a group that is gone |
| GroupAgreement.Notify | kinto/views/groups.py:53-90 | the handlers, run over the events of a request, give each user the replay of its changes |
| GroupAgreement.RunsAgree | kinto/views/groups.py:53-90 | over every run of safe requests from the empty store, principals and memberships agree |
| GroupAgreement.PrincipalsAreMemberships | kinto/core/permission/memory.py:64-70 | over every such run, a user asked for their principals is given a group uri iff the group is stored and lists them or all authenticated users |
| Cache.Cache.Delete | kinto/core/cache/memory.py:86-93 | the key is gone, its value is returned, the quota loses its size even when nothing was stored |
| Cache.Cache.Expire | kinto/core/cache/memory.py:60-62 | the deadline is set, even for a key that is not stored |
| Cache.Cache.CleanExpired | kinto/core/cache/memory.py:38-42 | exactly the expired keys go |
| Cache.Cache.CleanOversized | kinto/core/cache/memory.py:44-52 | nothing goes below the bound; otherwise the oldest go first, until the quota is below four fifths of it or nothing is left, and no more than that needs |
| Cache.Cache.Set | kinto/core/cache/memory.py:64-75 | the key has the value and is created now; what else stays keeps its value and creation time; of the unexpired keys the oldest go; the true size stays below the bound plus the new entry, but for what the quota falls short; with nothing expiring, below the bound, nothing else changes |
| Cache.Cache.Get | kinto/core/cache/memory.py:76-84 | the value of an unbounded cache, or nothing for a key that was evicted |
| Cache.QuotaFallsShort | kinto/core/cache/memory.py:86-93 | the quota is below the true size iff more was subtracted for keys not stored than was left in for overwritten entries |
| Cache.Serve | kinto/core/cache/memory.py:38-93 | over every run each answer is that of the unbounded cache, or nothing if there is a bound; the cache stays smaller than its bound plus the largest entry set, but for what the quota falls short, which is nothing when deletes and expires hit stored keys; no key is deleted successfully more often than it was set; of the keys that a set takes out for lack of room none was last set later than one that stays |
| Cache.AnsweredUntilDeadline | kinto/core/cache/memory.py:64-84 | without a bound a value that was set is answered before its deadline and not from it on, as long as nothing else concerns its key |
| Cache.NothingAfterDelete | kinto/core/cache/memory.py:86-93 | after a delete nothing is answered until the key is set again |
| Cache.ExpireMovesDeadline | kinto/core/cache/memory.py:60-62 | a new deadline replaces the old one of a value that is still there |
| Cache.ShortQuotaBreaksBound | kinto/core/cache/memory.py:64-93 | from every bounded state whose quota falls short, with room for an entry and nothing expiring, deletes of stored keys and two sets reach the bound plus the largest entry, with no further size missed |
| Cache.NoRoomOneEntry | kinto/core/cache/memory.py:44-75 | without room, what a set leaves is its entry alone, which is below the bound plus that entry |
| Cache.StrayDeleteBreaksBound | kinto/core/cache/memory.py:86-93 | with a bound of 100, a delete of an absent key and three entries of 52 leave a quota of 101 and a true size of 156 |
| Cache.OverwritingFillsQuota | kinto/core/cache/memory.py:64-75 | with a bound of 100, one entry of 52 set twice leaves a quota of 104 |
| Cache.TrueSizeOf | kinto/core/cache/memory.py:104-107 | the size of what is stored does not depend on the order of the keys |

## Left out

- IN, EXCLUDE, LIKE, CONTAINS and CONTAINS_ANY filters, and filter values that are arrays or objects on the SQL side: the backends compare them differently.
- Query.ApplyFilters: the coercion of a numeric id to a string before comparison is not modelled; ids are strings.
- Json.LessTotal: two different arrays, or two different objects, are left unordered, since Python may refuse to compare them; sort keys are scalars or missing.
- SqlTranslation.ConditionMeansFilter: covers scalar or missing filter values on data fields, a string on the id, a number on the timestamp; object keys hold no dot; the database's order on strings is taken to be the order of characters, and its special place for empty arrays is not modelled.
- Query.ListAll: parent patterns; objects are those of one parent.
- Pagination.ExtractSorting: which characters are words or blanks is a parameter; whether a field is known too.
- Paging.FollowNextPage: the store does not change during the walk; tokens survive their base64 and JSON encoding; two enumerations of one dictionary come in the same order; the fetch limit is not 0.
- PluralDelete.DeleteFollowingNextPage: there is no other writer, and stored data has no `id`, `last_modified` or `deleted` field of its own.
- Snapshot.GetSnapshot: the permission check is left out; history entries are typed records, of one collection, in the order of their own timestamps.
- Snapshot.SnapshotIsTheCollection: covers writes stamped by the clock; a specified timestamp in the past would change the past.
- PagedSync.SessionKnows: every walk is finished, which an ascending one need not be while writes go on; sort keys are scalar or missing, stored data has no reserved field, and operations are those of `Sync.SyncConverges`.
- Sync.SyncConverges: operations that specify a timestamp below the clock, or delete without a tombstone, are excluded; `Sync.PastStampEscapesSync` says what the first do.
- Locking.IfMatchMeansUnmodified: timestamps of 0 are excluded and the object lives throughout the run; `Locking.IfMatchAccepted` covers every other run.
- Locking.Put: requests are atomic steps, on a store that is not read-only.
- Locking.Patch: the data that results from the patch is a parameter; `MergePatch.Updated` says what a merge patch makes of it.
- Locking.Post: the id is in the body; 304 answers, malformed headers, permissions, partial fields and light or diff answers are left out.
- Storage.Store: purging tombstones and flushing, which reset the clock, and parent patterns are left out; a cell is one parent.
- History.HistoryStore.OnResourceChanged: the request is inside one bucket (payloads without a bucket id are skipped by the listener), entries are told apart by their timestamp, and the permissions of entries are left out.
- MergePatch.RecursiveUpdate: works on values; sharing between nested dictionaries is not captured. Removal marks other than null and JSON Patch are left out.
- DictSubset.DictMerge: the two dicts are such that Python does not raise on a non-dict; `DictSubset.SubTreesAreMergeable` shows that this always holds when `dict_subset` calls it. The nested dicts are values, not shared references.
- Events.ServeRequest: payloads and impacted objects are opaque values; read events and errors after commit are left out.
- GroupAgreement.RunsAgree: excludes bucket deletion and other writers of user principals.
- Recording.RecordRun: permissions on entries are explicit, nothing is excluded and nothing is trimmed; otherwise the history is not full.
- Cache.Cache.CleanOversized: four fifths of the bound is compared exactly, not in floating point.
- Cache.Cache.Set: values are strings; the clock is read once per operation; metrics and locking are left out.
- Cache.Serve: `ttl`, which only reads a deadline, is left out.
- Framework plumbing, settings, schemas, OpenAPI, authentication, accounts, database connections and migrations, the permission inheritance table, and the Redis, Memcached and PostgreSQL cache backends.
