# Verified model of the Eventarc emulator

A Dafny model of an in-memory Eventarc emulator: its path-pattern router and publisher, its paginated listings, its
resource stores and request handlers (alone and interleaved), its resource names, its store of long-running operations
and the REST routing decision in front of that store. `dafny verify dfyconfig.toml` checks everything.

The Go code that updates state is modelled as it is written: stores are classes over maps, updates write stored objects
in place, listings are append loops. Each such method is proved against a function on plain values (what a create does
to the map of triggers, what a page is), and the long-range properties are lemmas about those functions: whole runs,
whole crawls, all interleavings. Two protocols are state machines with one step per critical section or per lock, map
and field access: the trigger handlers, and the double-checked locking of the Google channel config.

Random ids, etags, operation ids and clock readings are parameters (`Stamp`, `uuid`, `Env`). CEL evaluation and event decoding
are function parameters, so the results hold for every evaluator and every decoder. Where a result needs ids to be
fresh it says so.

| module | file | about |
|---|---|---|
| GoStrings, Sequences, Wrappers, FieldMasks, Cells | `go_strings.dfy`, `sequences.dfy`, `wrappers.dfy`, `field_masks.dfy`, `cells.dfy` | Go's strings and strconv, sequences, results, update masks, sub-messages by reference |
| PathPattern, Routing, Publishing | `path_pattern.dfy`, `router.dfy`, `publisher.dfy` | the glob, which triggers receive an event, and how often |
| Pagination, Listing, TimeCrawls | `pagination.dfy`, `listing.dfy`, `time_crawls.dfy` | pages and tokens, listings, crawls over a changing store, and by creation time over a fixed one |
| Names, LroStorage, Gateway | `names.dfy`, `lro_store.dfy`, `gateway.dfy` | resource names, operations, REST paths |
| TriggerSpec, TriggerStorage, Aliasing, TriggerRuns | `trigger_spec.dfy`, `trigger_store.dfy`, `aliasing.dfy`, `trigger_runs.dfy` | the trigger store on the heap, and over whole runs |
| EnrollmentStorage, PipelineStorage | `enrollment_store.dfy`, `pipeline_store.dfy` | the mask loop that can stop half way, and the largest mask loop |
| Handlers, TriggerServer, Interleaving, Races | `handlers.dfy`, `server.dfy`, `interleaving.dfy`, `races.dfy` | the trigger handlers as programs of steps, run alone, and interleaved |
| ChannelConfig, ChannelOverlaps | `channel_config.dfy`, `channel_overlaps.dfy` | double-checked locking against in-place updates; a Get that overlaps at most one Update |
| ChannelMixtures, ChannelSchedules, ChannelTears | `channel_mixtures.dfy`, `channel_schedules.dfy`, `channel_tears.dfy` | a Get that overlaps any number of Updates: what it can return, and the runs that show it |

## What does not hold, and when it does

Several statements that the code or its comments suggest are false of it. Each has a concrete input or run, and the
exact condition under which the statement is true.

- A rejected enrollment update is not atomic: the mask `["labels", "message_bus"]` writes the labels and fails
  (`RejectedUpdateLeavesLabels`). It is atomic exactly when nothing mutable precedes `message_bus`
  (`RejectionIsAtomicIff`).
- `allow_missing` does not always create the requested name: for `foo` it creates `foo/triggers/foo`
  (`MalformedUpsertLandsElsewhere`). It does exactly for well-formed names (`UpsertCreatesNameIff`).
- `validate_only` does not predict whether the real request succeeds: a create of a taken name passes the dry run
  (`DryRunMissesTakenName`). Exactly when it does is `ValidateOnlyPredictsIff`, and exactly when it also predicts the
  code of a refusal is `ValidateOnlyPredictsCodeIff`.
- An error answer does not mean that nothing happened: a delete whose operation cannot be made has removed the trigger
  (`LostOperation`). It does exactly when an operation was made or the request does not get to a write
  (`ErrorChangesNothingIff`). This is the error path as internal/lro/store.go:64-74 writes it. Since Go 1.24, which
  go.mod:3 asks for, the random source never fails, so the cause that remains is a resource that cannot be packed.
- Two deletes of one name can return the same trigger although they removed different ones
  (`OneTriggerReturnedTwice`), and a delete whose etag matched can remove the trigger at another etag
  (`OtherEtagRemoved`). What is returned is what was removed exactly when the name was not removed in between, and the
  etag that was checked is the one that was removed exactly when nothing wrote the name in between
  (`ReturnedIsRemovedIff`).
- A delete with `allow_missing` can be refused with NotFound (`AllowMissingDeleteRefused`): exactly when the name was
  removed and not created again after the delete had read it (`DeleteRefusedIff`).
- An update with `allow_missing` that finds its well-formed name missing can be refused with AlreadyExists
  (`AllowMissingUpdateRefused`): exactly when the name was created after the miss and not removed again
  (`UpsertRefusedIff`, also for malformed names).
- A Get of a Google channel config can return a config that was never committed, by one Update that changes two fields
  (`GetCanTear`) or by two that change one field each (`TwoUpdatesTear`). It returns the stored config if no Update of
  the name writes while it copies (`SteadyGetIsCurrent`). Whatever Updates overlap it, each field of its result was
  stored at some step of its copy (`ResultWasStored`) and belongs to a config committed around it (`ResultIsCommitted`).
  A sequence of Updates can make it return none of the configs before, between and after them exactly if those are not
  closed under taking key, labels and update time from different ones (`UpdatesTearIff`). For one Update this means that
  it changes two fields (`PairIsClosedIff`, `UpdateTearsIff`).
- `PaginatePage` documents that the token is empty on the last page. For the largest int as a token the offset wraps
  around and a token comes back that is always refused (`LargestTokenWraps`); exactly when this happens is
  `TokenPastTheEnd`. Tokens that were handed out never lead there (`CrawlContinues`).
- Listing by `trigger_id` can list a trigger that Get does not find, one created under a parent that itself looks like a
  trigger (`NestedKeyIsListed`). The two agree exactly when no key is nested deeper under the parent
  (`ListByIdAgreesWithGet`).
- A crawl by `create_time desc` over a store that does not change can return one trigger twice and another never: two
  triggers created at one reading of the clock, in pages of one (`TiedTriggersRepeat`). Every completed crawl returns
  each selected trigger exactly once, whatever the page sizes, exactly when no two of them share a creation time
  (`TimeCrawlIsExactIff`), which is when the store determines the listing (`TimeListingIsUniqueIff`).
- Listing the operations of a location is a plain prefix match, so `.../us` also lists those of `.../us-east1`
  (`ListingCoversSiblings`). It lists exactly the parent's own when it reaches no other stored operation
  (`ListsOwnIff`, `PlainParentReaches`).
- The comment on `ListOperations` says that a leading `operations/` is stripped so that REST listing works. GET on
  `/v1/operations` passes the name `operations`, which has no slash to strip. It lists an operation exactly when its
  parent starts with that word (`RestListAllCoversIff`), so none under `projects/` (`RestListAllFindsNothing`).
- The REST rewriter takes any project path with a later segment that starts with `operations` for an operation, also a
  trigger with such an id (`TriggerTakenForOperation`, `PassesThroughIff`).

## Model

| member | source | states |
|---|---|---|
| `PathPattern.MatchSegs` | internal/router/router.go:125-149 | The loop with recursion on `**` terminates and answers true exactly when the value can be cut into consecutive chunks, one per pattern segment: any chunk for `**`, one segment for `*`, an equal segment for a literal. The number of invocations is the one of the cost function. |
| `PathPattern.MatchPathPattern` | internal/router/router.go:118-122 | The same for pattern and value strings, cut at slashes. |
| `PathPattern.CostBound` | internal/router/router.go:125-149 | A pattern with k `**` segments costs at most (n + 2)^k invocations on a value of n segments. |
| `PathPattern.CostBoundIsAttained` | internal/router/router.go:125-149 | The bound is met exactly by `**` before a literal that does not occur. |
| `PathPattern.WorstCase` | internal/router/router.go:125-149 | The exact worst case: a pattern with k `**` segments costs at most as many invocations as there are ways to choose k out of n + k + 1. |
| `PathPattern.WorstCaseIsAttained` | internal/router/router.go:125-149 | It is met for every k and every value, by k `**` segments before a literal that does not occur. |
| `PathPattern.ConcatenationSplits` | internal/router/router.go:125-149 | A concatenated pattern matches exactly the values with a split that matches both halves. |
| `PathPattern.ReversalPreservesMatching` | internal/router/router.go:125-149 | Reversing pattern and value does not change the answer. |
| `PathPattern.SegmentMatches` | internal/router/router.go:125-149 | What one segment matches: `**` everything, `*` any one segment, a literal itself; with the splits of concatenations this determines the answer for every pattern. |
| `PathPattern.AdjacentStarsCollapse` | internal/router/router.go:125-149 | Two adjacent `**` match what one matches, anywhere in a pattern. |
| `PathPattern.PathOperatorIsExactIffLiteral` | internal/router/router.go:81-93 | The path operator selects the same values as the exact operator if and only if no segment of the pattern is a wildcard. |
| `GoStrings.JoinSplit` | internal/router/router.go:119-120 | Splitting at slashes gives slash-free pieces that join to the original, so splitting is injective. |
| `GoStrings.SplitJoin` | internal/router/router.go:119-120 | Every non-empty list of slash-free segments is the split of its join. |
| `GoStrings.LastOfSplit` | internal/server/storage.go:406-410 | The last piece of a split, which the filter compares, is the slash-free text after the last slash, which the parsers take. |
| `GoStrings.AtoiUndoesItoa` | internal/server/storage_helpers.go:36-52 | Printing and parsing a token round-trips on the whole 64-bit range. |
| `GoStrings.AtoiIff` | internal/server/storage_helpers.go:36-41 | Atoi gives an integer for exactly its numerals: perhaps a sign, perhaps zeros, and the digits as they are printed, within 64 bits. |
| `GoStrings.LessIff` | internal/server/storage.go:262-265 | The order of names: one goes on where the other ends, or has the smaller character at the first difference. |
| `Routing.OperatorsAgreeOnLiterals` | internal/router/router.go:81-93 | On a wildcard-free filter value the choice of operator makes no difference to any event. |
| `Routing.FilterMeans` | internal/router/router.go:81-93 | A filter with the operator `match-path-pattern` or `path_pattern` holds if and only if its value aligns with the attribute's, and one with any other operator if and only if the two are equal. |
| `Routing.OperatorsInterchangeableIff` | internal/router/router.go:81-93 | Two operators never make a difference, in any filter and for any event, if and only if both are those two or neither is. |
| `Routing.AttributesRead` | internal/router/router.go:218-247 | What a filter reads: the five standard attributes, for any other name the extension, and nothing if there is none. |
| `Routing.ReceivesIff` | internal/router/router.go:80-100 | A trigger receives an event if and only if every filter holds in this sense and the label `eventarc-emulator/condition`, unless missing or empty, evaluates to true. |
| `Routing.FiltersSeeWhatConditionsSeeIff` | internal/router/router.go:204-247 | Filters and conditions see the same attribute values if and only if no extension gives a standard attribute another value. |
| `Publishing.PublishedEventsAgreeIff` | internal/publisher/server.go:156-211 | They see the same values of whatever event a published message becomes if and only if the SDK, which may refuse or normalise names, keeps no attribute of it under the name of a standard one with another value. |
| `Routing.Router.TriggerMatches` | internal/router/router.go:80-100 | True exactly when every filter holds by its operator and the condition, if there is one, evaluates to true. |
| `Routing.Router.Match` | internal/router/router.go:53-70 | Returns each trigger keyed under the parent that receives the event, once, as deeply fresh copies. |
| `Publishing.Publisher.MatchAndDispatch` | internal/publisher/server.go:120-140 | The deliveries of one event are exactly its receivers, each once, whatever status or error each dispatch returns. |
| `Publishing.Publisher.ProcessAnySlice` | internal/publisher/server.go:103-115 | Stated on the packed entries: each stored receiver under the parent gains each event exactly as often as there are entries that are not nil and decode to it, nothing else is delivered, and the deliveries come in the order of the entries. |
| `Publishing.Publisher.PublishEvents` | internal/publisher/server.go:73-89 | A call for an unknown channel delivers nothing and is refused with NotFound; every other call delivers, counted on its entries and in their order, exactly what is owed under the channel's parent, and leaves earlier deliveries in place. |
| `Publishing.Publisher.PublishChannelConnectionEvents` | internal/publisher/server.go:94-98 | The same under the connection's parent, without an existence check. |
| `Publishing.EachReceiverOncePerEvent` | internal/publisher/server.go:103-140 | What is owed, counted: a trigger gets an event as often as it was published if it is keyed under the parent and receives it, and never otherwise. |
| `Publishing.DecodedCounts` | internal/publisher/server.go:103-115 | An event is decoded as often as there are entries in the published array that are not nil and decode to it. |
| `Publishing.InOrderDelivers` | internal/publisher/server.go:103-115 | Deliveries in the order of the entries are together what the decodable ones are owed. |
| `Publishing.FiltersSeeMessage` | internal/publisher/server.go:156-211 | Whatever event a message becomes, filters see its type, source and id, its subject, and its content type or the one its data implies. |
| `Publishing.PlainExtensions` | internal/publisher/server.go:170-186 | If the SDK keeps names as they are, the extensions are exactly the attributes but for subject, datacontenttype and dataschema. |
| `Publishing.ChannelParent` | internal/publisher/server.go:239-244 | The consulted parent is the one that the channel's name was formatted from. |
| `Publishing.ChannelConnectionParent` | internal/publisher/server.go:248-253 | The same for channel connections. |
| `Pagination.PaginatePage` | internal/server/storage_helpers.go:33-58 | With 64-bit wrap-around, the page is the window of the list at the token's offset and the next token stands for the first item after it; a malformed or negative token is refused. |
| `Pagination.TokenRefusedIff` | internal/server/storage_helpers.go:36-41 | A token is refused if and only if it is neither empty nor a numeral of an offset from 0 to the largest int. |
| `Pagination.DefaultPageSize` | internal/server/storage_helpers.go:42-45 | A requested size that is not between 1 and 100 gives pages of one hundred. |
| `Pagination.TokenPastTheEnd` | internal/server/storage_helpers.go:46-56 | A token past the end gives an empty page; its next token is empty exactly when offset + size does not wrap, and is otherwise refused by every later call. |
| `Pagination.LargestTokenWraps` | internal/server/storage_helpers.go:46-56 | The token of the largest int gets an empty page with the most negative int as next token, which is then refused. |
| `Pagination.CrawlContinues` | internal/server/storage_helpers.go:33-58 | Following handed-out tokens never meets a refusal, whatever the lists and sizes become. |
| `Pagination.CrawlWindows` | internal/server/storage_helpers.go:46-57 | Page k of any crawl is the window of the k-th list that starts where page k - 1 ended, and the crawl ends exactly when nothing is left. |
| `Pagination.StaticCrawl` | internal/server/storage_helpers.go:33-58 | Over a fixed list with any page sizes: the pages concatenate to the list, all but the last are full, and a crawl has at most max(1, n) pages. |
| `Pagination.StaticPageCount` | internal/server/storage_helpers.go:42-57 | With one page size the number of pages is n divided by it, rounded up, and 1 for an empty list. |
| `Pagination.DeletesNeverRepeat` | internal/server/storage_helpers.go:33-58 | On name-ordered lists that only lose names between pages, no name appears on two pages. |
| `Pagination.CreatesNeverSkip` | internal/server/storage_helpers.go:33-58 | On name-ordered lists that only gain names, every name present at the start has been returned at the end. |
| `Pagination.CreateRepeatsDeleteSkips` | internal/server/storage_helpers.go:33-58 | Neither guarantee survives the other kind of change: two concrete crawls. |
| `Listing.NameListingIsUnique` | internal/server/storage.go:256-266 | In name order the listing is determined by the store, so map iteration order and the unstable sort do not show. |
| `Listing.TimeListingIsUniqueIff` | internal/server/storage.go:256-266 | By descending creation time it is determined if and only if no two selected triggers share a time. |
| `Listing.OrdersByTimeIff` | internal/server/storage.go:255-261 | A listing is by creation time if and only if its order argument is `create_time desc` in any letter case, with white space around it. |
| `Listing.DefaultOrderIsByName` | internal/server/storage.go:262-266 | Without an order, and with `name`, it is ascending by name. |
| `Listing.NewestFirst` | internal/server/storage.go:257-261 | A listing by creation time has the newer of two triggers first. |
| `Listing.FilterSelectsId` | internal/server/storage.go:396-412 | A filter `trigger_id=` with an id, perhaps in quotes and with white space around it, selects exactly the names whose last segment is the id. |
| `Listing.OtherFiltersAcceptAll` | internal/server/storage.go:392-399 | A filter that does not begin, after white space, with `trigger_id=` selects every name. |
| `TimeCrawls.TimeCrawlIsExactIff` | internal/server/storage.go:256-274 | Over an unchanged store every completed crawl by creation time, whatever the sizes and however each listing orders its ties, returns each selected trigger exactly once and nothing else, if and only if no two selected triggers share a time. |
| `TimeCrawls.TiedTriggersRepeat` | internal/server/storage.go:256-274 | Two triggers created at one reading of the clock: a crawl in pages of one that returns the first twice and the second never. |
| `Listing.CrawlWithDeletes` | internal/server/storage.go:237-274 | A name-ordered crawl of a parent, filtered or not, with only deletes and updates between its pages, never returns a name on two pages. |
| `Listing.CrawlWithCreates` | internal/server/storage.go:237-274 | With only creates and updates in between, it has returned every trigger selected at the start by the time the token is empty. |
| `TimeCrawls.DefaultCrawl` | internal/server/storage.go:262-274 | Two created triggers crawled in the default order in pages of one come by name, whatever their creation times. |
| `Listing.ListByIdAgreesWithGet` | internal/server/storage.go:396-414 | Listing a parent by a valid trigger id gives exactly what Get gives for the formatted name, if and only if no stored key is nested deeper under the parent with that last segment. |
| `Listing.NestedKeyIsListed` | internal/server/storage.go:396-414 | A trigger created under the parent `P/triggers/x` with id `y` is listed for `trigger_id=y` under `P`, where Get of `P/triggers/y` finds nothing. |
| `Listing.FlatStoresAgree` | internal/server/storage.go:156-165 | That condition holds in every store whose keys were formatted from slash-free ids and parents without the collection marker. |
| `TriggerStorage.TriggerMessage.Clone` | internal/server/storage_helpers.go:62-68 | A clone has the same value and shares no memory with anything that existed before. |
| `TriggerStorage.ApplyMask` | internal/server/storage.go:180-208 | After the mask loop each field is the request's reference if the mask is nil, names it or has `*`, and otherwise the stored one; for any order, repetition and unknown paths. |
| `TriggerStorage.TriggerStore.CreateTrigger` | internal/server/storage.go:128-152 | A free name gets the request with fresh metadata; a taken one is refused and nothing changes; the result is a private deep copy. |
| `TriggerStorage.TriggerStore.GetTrigger` | internal/server/storage.go:156-165 | The stored value as a private deep copy, or NotFound exactly when the name is absent. |
| `TriggerStorage.TriggerStore.UpdateTrigger` | internal/server/storage.go:170-216 | Writes only the stored message, in place, to the merged value; shares with the request exactly the masked sub-messages; the result is a private deep copy. |
| `TriggerStorage.TriggerStore.DeleteTrigger` | internal/server/storage.go:220-229 | Removes exactly the named key, or reports NotFound. |
| `TriggerStorage.TriggerStore.ListTriggers` | internal/server/storage.go:237-274 | A page, of deep copies, of the filtered and ordered listing of everything under the parent. |
| `TriggerStorage.TriggerStore.ListAllTriggers` | internal/server/storage.go:278-290 | Every trigger under the parent once, as deep copies. |
| `TriggerStorage.ApplyTriggerFilter` | internal/server/storage.go:396-414 | Keeps exactly the triggers whose last name segment is the filter's id, all of them for any other filter. |
| `TriggerSpec.MasksAgreeIff` | internal/server/storage.go:180-208 | Two masks do the same to every trigger if and only if they cover the same mutable fields; so nil, `*` and every arrangement of all paths agree. |
| `TriggerSpec.MasksCompose` | internal/server/storage.go:180-208 | Two updates with the same request are one update with both masks, so updating is idempotent. |
| `TriggerSpec.UpdatedByPath` | internal/server/storage.go:165-205 | Path by path: what a mask of one path writes, `*` included, beside the new update time, etag and conditions. |
| `Aliasing.MutatedGetResultIsHarmless` | internal/server/storage.go:164 | Overwriting everything reachable from a Get result leaves the store as it was. |
| `Aliasing.MutatedCreateResultIsHarmless` | internal/server/storage.go:151 | The same for a Create result. |
| `Aliasing.MutatedUpdateResultIsHarmless` | internal/server/storage.go:215 | The same for an Update result. |
| `Aliasing.UpdateRequestStaysShared` | internal/server/storage.go:184-207 | Requests are not copied: after an update that covers labels, a later write to the request's label map shows in the store. |
| `TriggerRuns.AlwaysKeyedByName` | internal/server/storage.go:128-216 | In every reachable state each key is the stored trigger's name. |
| `TriggerRuns.IdentityIsStable` | internal/server/storage.go:170-216 | While a trigger lives, its name, uid and creation time never change under any sequence of successful and failing operations. |
| `TriggerRuns.StampedByLastWrite` | internal/server/storage.go:128-229 | In every run from the empty store, each stored trigger carries the uid and creation time of the create since which it has been there, and the etag and update time of the last write to it. |
| `TriggerRuns.CreateFillsIn` | internal/server/storage.go:128-152 | A create stores the request but for the name and the five fields that the server fills in. |
| `TriggerRuns.FailuresLeaveNoTrace` | internal/server/storage.go:128-229 | A run and the run of its successful steps alone end in the same store. |
| `EnrollmentStorage.UpdateInPlace` | internal/server/storage_messagebus.go:234-271 | The loop fails exactly when the mask names `message_bus`, and then leaves the fields of the earlier paths written. The stored message then refers to the request's own sub-messages in exactly the written fields. |
| `EnrollmentStorage.EnrollmentStore.CreateEnrollment` | internal/server/storage_messagebus.go:184-206 | A free name gets a deep copy of the request with fresh metadata; a taken one is refused and nothing changes; the result is a private deep copy. |
| `EnrollmentStorage.EnrollmentStore.UpdateEnrollment` | internal/server/storage_messagebus.go:225-272 | NotFound, InvalidArgument or a private deep copy of the merged value, the exact store after each, and which references the stored message then shares with the request. |
| `EnrollmentStorage.EnrollmentStore.DeleteEnrollment` | internal/server/storage_messagebus.go:276-285 | Removes exactly the named key, or reports NotFound. |
| `EnrollmentStorage.EnrollmentStore.ListMessageBusEnrollments` | internal/server/storage_messagebus.go:157-175 | A page of the ascending list of exactly the names of the bus's enrollments. |
| `EnrollmentStorage.MembersPartition` | internal/server/storage_messagebus.go:157-168 | An enrollment is listed for a bus if and only if it names exactly that bus. |
| `EnrollmentStorage.RejectionIsAtomicIff` | internal/server/storage_messagebus.go:235-254 | A rejected update changes nothing, for every enrollment and request, if and only if no mutable field and no `*` precedes `message_bus`. |
| `EnrollmentStorage.MasksAgreeIff` | internal/server/storage_messagebus.go:232-266 | Two accepted masks do the same to every enrollment if and only if they cover the same of the five fields. |
| `EnrollmentStorage.MergedByPath` | internal/server/storage_messagebus.go:235-260 | Path by path: what each case of the mask switch writes, `*` included. |
| `EnrollmentStorage.UpdateStamps` | internal/server/storage_messagebus.go:225-272 | An accepted update sets etag and update time, a rejected one keeps both, and neither changes name, uid, creation time or bus. |
| `EnrollmentStorage.CreateFillsIn` | internal/server/storage_messagebus.go:184-205 | A create stores the request but for the five fields that the server fills in. |
| `EnrollmentStorage.RejectedUpdateLeavesLabels` | internal/server/storage_messagebus.go:235-254 | The mask `["labels", "message_bus"]` is rejected and has written the labels. |
| `EnrollmentStorage.AlwaysKeyedByName` | internal/server/storage_messagebus.go:184-272 | In every reachable state each key is the stored enrollment's name. |
| `EnrollmentStorage.IdentityIsStable` | internal/server/storage_messagebus.go:184-272 | While an enrollment lives, its name, uid, creation time and message bus never change, rejected updates included. |
| `EnrollmentStorage.UpdatesKeepMembership` | internal/server/storage_messagebus.go:225-272 | No sequence of updates moves an enrollment between buses. |
| `EnrollmentStorage.MemberCrawlIsComplete` | internal/server/storage_messagebus.go:157-175 | A crawl over a bus's enrollments, with creates and successful or rejected updates in between, returns every enrollment that was on the bus at the start. |
| `PipelineStorage.UpdateInPlace` | internal/server/storage_pipeline.go:73-121 | The nine-field mask loop yields the merge of request and stored value for any path list, as values and as references to the request's own sub-messages. |
| `PipelineStorage.PipelineStore.UpdatePipeline` | internal/server/storage_pipeline.go:64-122 | Only the named message is written, to the merge, and a deep copy of it returned; or NotFound. |
| `PipelineStorage.MasksAgreeIff` | internal/server/storage_pipeline.go:73-117 | Two masks do the same to every pipeline if and only if they cover the same of the nine fields. |
| `PipelineStorage.MergedByPath` | internal/server/storage_pipeline.go:73-117 | Path by path: what each case of the mask switch writes, `*` included. |
| `Names.ParsersUndoFormat` | internal/server/server.go:155-192 | For any parent and slash-free id, the last-index parsers recover parent and id from the formatted name. |
| `Names.FormatIsInjective` | internal/server/storage.go:132 | Distinct (parent, id) pairs never share a key. |
| `Names.ParentBeforeIff` | internal/server/server.go:155-163 | The parsed parent of any name is what precedes the last marker, or the whole name if there is none. |
| `Names.LastSegmentIff` | internal/server/server.go:186-192 | The parsed id of any name is its slash-free end, after a slash or from the start. |
| `Names.TriggerUpsertKey` | internal/server/server.go:306-312 | Parsing a name and formatting it again gives the name back if and only if it is well formed, a test on its text. |
| `Names.ResourceUpsertKey` | internal/server/server.go:167-192 | The same for the collections whose parent is found by dropping two segments. |
| `Names.MalformedUpsertLandsElsewhere` | internal/server/server.go:306-312 | A name without a slash, such as `foo`, is upserted under `foo/triggers/foo`. |
| `Names.RecognizerDecidesTheRe` | internal/server/storage_helpers.go:17-27 | The character-by-character test of a resource id decides the regular expression, and accepted ids have no slash. |
| `LroStorage.LroStore.CreateDone` | internal/lro/store.go:64-104 | Adds one done operation under the parent with the given verb and target, and nothing else, and returns the stored message itself; without an id it records nothing and fails. |
| `LroStorage.LroStore.GetOperation` | internal/lro/store.go:112-122 | Looks up the requested name without a leading `operations/`, and returns the stored message itself. |
| `LroStorage.MutatedOperationShows` | internal/lro/store.go:115-121 | What a client writes into the operation that a Get returned shows in the store. |
| `LroStorage.LroStore.DeleteOperation` | internal/lro/store.go:126-139 | Removes exactly that key, or reports NotFound. |
| `LroStorage.LroStore.ListOperations` | internal/lro/store.go:152-167 | Exactly the stored messages whose keys start with the requested one, each once. |
| `LroStorage.OwnNameIsOwnKeyIff` | internal/lro/store.go:113 | An operation is found under its own name if and only if its parent is not under `operations`. |
| `LroStorage.ListsOwnIff` | internal/lro/store.go:152-167 | In any store that CreateDone has filled, listing a parent gives exactly the operations made under it, if and only if it reaches no stored operation of another parent q: it is neither a beginning of q + `/operations/` nor goes on into the id. |
| `LroStorage.CoversIff` | internal/lro/store.go:158 | A key is a prefix of an operation's name exactly when it reaches it in one of these two ways. |
| `LroStorage.PlainParentReaches` | internal/lro/store.go:158 | A parent without `/operations/` in it reaches another one's operation only as a beginning of q + `/operations/`. |
| `LroStorage.ListingCoversSiblings` | internal/lro/store.go:158 | The concrete case: listing `us` also lists the operations of `us-east1`. |
| `Gateway.RestFindsOwnKeyIff` | internal/gateway/gateway.go:137-172 | For every operation that CreateDone makes, GET on `/v1/` and its name looks up exactly its key if and only if the name starts with `projects/`; it then takes the rewrite branch, and gRPC uses the same key. |
| `Gateway.CollectionListsParentIff` | internal/gateway/gateway.go:143-160 | GET on a parent's `/operations` lists with exactly that parent if and only if the path starts with `projects/`. |
| `Gateway.CollectionListsOwnOperations` | internal/lro/store.go:152-167 | That listing covers every operation made under the parent. |
| `Gateway.RestListAllCoversIff` | internal/lro/store.go:152-160 | GET on `/v1/operations` covers an operation if and only if its parent starts with `operations`. |
| `Gateway.RestListAllFindsNothing` | internal/lro/store.go:152-160 | So it covers none of the operations made under projects. |
| `Gateway.PassesThroughIff` | internal/gateway/gateway.go:138-171 | A request is kept from its own handler if and only if it is a GET under `/v1/projects/` with a later segment that starts with `operations`. |
| `Gateway.ListsDirectlyIff` | internal/gateway/gateway.go:138-160 | A request lists the operations of a parent directly if and only if it is a GET under `/v1/projects/` on that parent's `/operations`, with or without a final slash. |
| `Gateway.ForwardsUnder` | internal/gateway/gateway.go:162-168 | Every other request that is kept from its own handler goes to its path under `/v1/operations/`. |
| `Gateway.TriggerTakenForOperation` | internal/gateway/gateway.go:143-170 | GET on a trigger with such an id does not reach the trigger handler. |
| `Handlers.SoloEffect` | internal/server/server.go:240-361 | Alone, a refused or validate_only request changes no trigger, a delete removes exactly its name, a create and an update write exactly one key, and keys stay names. |
| `Handlers.DeleteHonoursEtag` | internal/server/server.go:342-356 | Alone, a delete with an etag succeeds exactly when the etag matches, and a mismatch aborts and changes nothing. |
| `Handlers.CreateIsInvalidIff` | internal/server/server.go:240-263 | A create is refused with InvalidArgument if and only if it has no parent, trigger, destination or filter, or its id does not match the regular expression. |
| `Handlers.RefusalCodes` | internal/server/server.go:265-358 | Alone, the code of every other refusal: a taken name, a missing one, an etag that does not match. |
| `Handlers.Responses` | internal/server/server.go:272-361 | Alone, what is returned: after a create or update that runs what is then stored, after a delete what was removed, after a dry run the renamed request, the stored trigger, or nothing. |
| `Handlers.AnswerFitsRequest` | internal/server/server.go:275-360 | Every operation a client is answered with, dry runs included, is done, of the verb of its request, has the requested name as target, is named under that name's parent, and is the one recorded. |
| `Handlers.UpsertCreatesNameIff` | internal/server/server.go:306-317 | An allow_missing update of a missing name makes that name gettable if and only if it is well formed, and is refused exactly when the parsed key is taken. |
| `Handlers.ValidateOnlyPredictsIff` | internal/server/server.go:272-341 | A dry run succeeds just when the real request would, if and only if no name clash, etag mismatch or effective allow_missing is in play. |
| `Handlers.ValidateOnlyPredictsCodeIff` | internal/server/server.go:272-341 | It is also refused with the same code, if and only if besides no allow_missing update misses its name. |
| `Handlers.DryRunMissesTakenName` | internal/server/server.go:272-282 | A concrete create passes the dry run where the real one finds the name taken. |
| `Handlers.OneOperationPerAnswer` | internal/server/server.go:240-361 | Over any run of requests, also ones for which no id can be drawn, and with fresh ids otherwise, the operations are exactly one per request that is answered with one, and none is lost. |
| `Handlers.ErrorChangesNothingIff` | internal/server/server.go:278-361 | With fresh etags, an error answer means that nothing has changed, if and only if an operation was made or the request does not get past its checks to a write. |
| `Handlers.LostOperation` | internal/server/server.go:356-360 | A delete whose operation cannot be made answers with an error and has removed the trigger. |
| `TriggerServer.Server.CreateTrigger` | internal/server/server.go:240-284 | The handler on the two heap stores refines the specification of the request: triggers, operations and answer, also when the operation cannot be recorded. |
| `TriggerServer.Server.UpdateTrigger` | internal/server/server.go:287-320 | The same, dry run and upsert included. |
| `TriggerServer.Server.DeleteTrigger` | internal/server/server.go:323-361 | The same, dry run, allow_missing and etag included. |
| `Interleaving.InvAlways` | internal/server/server.go:278-361 | In every interleaving of any number of handlers, the log of writes is legal and replays to the stored triggers' ids, and what each waiting delete or upsert handler read or missed matches the log. |
| `Interleaving.CreatesAndRemovalsBalance` | internal/server/storage.go:128-229 | In every interleaving, each name's creates and removals alternate, starting with a create, and the number of triggers is creates less removals. |
| `Interleaving.OneDeleteHandlerPerIncarnation` | internal/server/server.go:342-361 | Each uid is removed at most once, by one handler, and the handlers that return a deleted trigger are exactly those that removed one. |
| `Interleaving.ReturnedIsRemovedIff` | internal/server/server.go:342-361 | What a delete handler returns is what it removed if and only if the name was not removed between its two steps; the etag it checked is the etag it removed if and only if nothing wrote the name in between. |
| `Interleaving.DeleteRefusedIff` | internal/server/server.go:342-358 | In every interleaving a delete handler that has read its trigger is refused with NotFound if and only if since then the name was removed and not created again. |
| `Interleaving.UpsertRefusedIff` | internal/server/server.go:296-312 | In every interleaving an allow_missing update that has missed is refused with AlreadyExists if and only if, for a well-formed name, the last create or removal of it since the miss is a create; for any name, its key was there at the miss and has not gone, or was not and has come. |
| `Interleaving.StillCurrentIff` | internal/server/server.go:342-356 | A uid or etag read at a point of a log is still current exactly when no removal, or no write, came since. |
| `Races.OneTriggerReturnedTwice` | internal/server/server.go:342-361 | A reachable state in which two delete handlers returned the same trigger and the second removed another one. |
| `Races.AllowMissingDeleteRefused` | internal/server/server.go:342-358 | A reachable state in which a delete with allow_missing was refused with NotFound. |
| `Races.OtherEtagRemoved` | internal/server/server.go:342-358 | A reachable state in which a delete whose etag matched at its read removed the trigger at another etag. |
| `Races.AllowMissingUpdateRefused` | internal/server/server.go:296-312 | A reachable state in which an update with allow_missing was refused with AlreadyExists. |
| `ChannelConfig.InvAlways` | internal/server/storage_channel.go:241-299 | In every interleaving of Gets and Updates at lock, map and field granularity: the lock admits a writer alone, pointers are those of the thread's own name, locked copies are faithful. |
| `ChannelConfig.EntriesStay` | internal/server/storage_channel.go:241-299 | Once a name is stored its pointer is never replaced, Updates included. |
| `ChannelConfig.DefaultInstalledAtMostOnce` | internal/server/storage_channel.go:248-260 | Over every interleaving a name is given a default at most once. |
| `ChannelConfig.QuietGetsAgree` | internal/server/storage_channel.go:241-261 | While no Update of the name has arrived, all its Gets, whenever they return, return one value: the default with one update time. |
| `ChannelConfig.LockedCopyIsCurrent` | internal/server/storage_channel.go:248-261 | A copy completed under the write lock is the stored config, Updates or not. |
| `ChannelConfig.UpdateReturnsMerge` | internal/server/storage_channel.go:266-299 | Whatever else runs, an Update returns the config it found on entering the lock, with the masked fields merged and a new update time. |
| `ChannelConfig.WritesMerge` | internal/server/storage_channel.go:279-294 | The field writes of a mask loop, in any order and with any repetition, merge exactly the masked fields. |
| `ChannelConfig.MergedByPath` | internal/server/storage_channel.go:279-294 | What an Update merges without a mask, for `*` and for each path. |
| `ChannelConfig.FailsIffNameless` | internal/server/storage_channel.go:270-273 | In every run no Get fails, and an Update that has ended has failed if and only if its config has no name. |
| `ChannelOverlaps.SteadyGetIsCurrent` | internal/server/storage_channel.go:241-261 | A Get returns exactly the config that is stored throughout its copy, if no Update of the name is at its field writes before the copy ends, whatever Updates came before or come after. |
| `ChannelOverlaps.GetAfterUpdate` | internal/server/storage_channel.go:241-299 | A Get that arrives after an Update has returned, with no other Update of the name writing until it returns, returns what the Update returned. |
| `ChannelOverlaps.OverlapReturnsMixture` | internal/server/storage_channel.go:242-299 | The one-Update case: a Get that overlaps just one Update returns, field by field, what was stored before it or what it returned, in every run and for every order of copying. |
| `ChannelOverlaps.OverlapReturnsWhole` | internal/server/storage_channel.go:242-299 | The one-Update case: so it returns one of the two whole, unless they differ in two fields. |
| `ChannelMixtures.ResultWasStored` | internal/server/storage_channel.go:241-299 | In every run, whatever Updates overlap it, each field of a Get's result was a field of the stored config at some step of its copy. |
| `ChannelMixtures.ResultIsCommitted` | internal/server/storage_channel.go:241-299 | And it is the field of a config that the name held, with no Update inside, between any two such moments before and after the copy. |
| `ChannelMixtures.ClosedIsWhole` | internal/server/storage_channel.go:241-299 | If the configs committed around the copy are closed under taking key, labels and update time from different ones, the Get returns one of them, whatever Updates overlap it. |
| `ChannelMixtures.PairIsClosedIff` | internal/server/storage_channel.go:279-299 | Two configs are closed in this sense if and only if they do not differ in two fields. |
| `ChannelTears.UpdatesTearIff` | internal/server/storage_channel.go:241-299 | From any state with a free lock and the name stored, a run of any Updates one after another can go on so that a Get returns none of the configs before, between and after them, if and only if those are not closed. |
| `ChannelTears.UpdateTearsIff` | internal/server/storage_channel.go:242-299 | The one-Update case: an Update with any mask can make a Get that overlaps just it return neither the old config nor the new one, if and only if the two differ in two fields. |
| `ChannelTears.GetCanTear` | internal/server/storage_channel.go:242-246 | A run in which a Get that overlaps an Update returns a config that was never committed in the whole run. |
| `ChannelTears.TwoUpdatesTear` | internal/server/storage_channel.go:242-299 | A run in which a Get that overlaps two Updates, neither of which changes two fields, returns a config that was never committed in the whole run. |

## Left out

- Channel, ChannelConnection, GoogleApiSource and MessageBus CRUD, and Get and List of enrollments and pipelines: they repeat the trigger, enrollment and pipeline methods. The publisher's channel store is a set of names.
- Handlers of the other resources: they follow the trigger handlers, with the parent found by dropping two segments; what differs in the names is `Names.ResourceUpsertKey`.
- Providers: a read-only table and a suffix lookup.
- CEL compilation and evaluation, and the decoding of packed messages: parameters, any total function. The CloudEvents SDK is not part of this model: under which name it keeps an extension, if at all, is a parameter.
- Permission checks: assumed granted. Field violations and error texts: only the status code is modelled.
- The HTTP dispatcher: a delivery is recorded with an arbitrary status and error.
- The generated gateway: assumed to take paths under `/v1/operations/` and to bind the name to all that follows `/v1/`.
- Clear and TriggerCount: Clear is a step of `TriggerRuns`, and is excluded from the interleavings.
- `Interleaving.InvAlways`: the lookups of the operation store are not interleaved, because each is one step on a map that no trigger handler reads.
- `ChannelConfig.InvAlways`: field reads and writes are taken as atomic and sequentially consistent; the race in the Go memory model is not modelled, because the torn result already shows at this granularity.
- `TriggerStorage.SortSlice` is one sorted rearrangement, by insertion; only sortedness and contents are used of it.
- Sub-messages: each label map, list and nested message is one shared cell, so sharing inside a list is not modelled.
- Timestamps are integers, and conditions a map of codes. White space and letter case are ASCII in the order and filter arguments.
- `Pagination.PaginatePage`: lists are at most an eighth of the largest int long, as no Go slice of pointers or strings is longer.
