# Verification of the backend's stateful cores

A Dafny model of the parts of the backend that hold real state machines, reconciliations, recursive
transformations and arithmetic, with proofs of what they promise. Check everything with
`dafny verify dfyconfig.toml`.

What is modelled, hardest first:

- **The two-level cache** (`CacheProtocol`, `CacheSchedules`, `CacheGap`, `CacheRaces`, `CacheCalls`,
  `MemoryCaches`, `RawCaches`). Any number of processes keep values in memory in front of one Redis, which is
  filled from the database; writers delete, then publish the key. The protocol is a step system in which every
  `await` ends a step, so a value may be on its way into a cache while its key is invalidated; a reconnecting
  process clears its memory first and is
  subscribed later. Proved, key by key: **a key stays in step through a run exactly when no step strands a
  copy of it**, that is, stores a value read before a change of the key, or subscribes a process that holds
  one, when no writer has the key still to delete or publish and no message is queued. If no write brings a
  value back, this is exactly coherence by values. The code excludes none of the three kinds of such
  steps: three reachable runs, one of them with reads that store at once, end with a process serving an old
  value and nothing pending. Two conditions on schedules that exclude them are given. The classes update their
  fields as the services do, and undisturbed the protocol's steps come to the same; the batch lookup
  `cachedByKeys` refines a direct lookup and leaves nothing of the source to be missed again.
- **Route counters** (`RouteCounters`, `RouteCounterServices`). Counting goes on while a flush is at its
  `await`; a rejected flush gives its deltas back. Over all interleavings of all processes, Redis total +
  local counts + deltas in flight equals the number of increments, in all states of a run **exactly when the
  run's flushes end all-or-nothing**. (ioredis resolves `exec` even when single commands failed; such a
  resolved, partly applied pipeline is the case the condition shuts out. A reachable run loses a count so,
  and the drift of every step is given exactly.)
- **The hashed set** (`Words`, `HexPrinter`, `HashedSets`). Wrapped polynomial hashes, exclusive or on
  signed words, a printer that may print minus signs, and a fast equality. Two strings of three units
  with the same hash show that `fastEquals` is one-sided.
- **The subscription page** (`SubscriptionPages`, `SubscriptionPageValidators`, `SubscriptionPageContents`,
  `SubscriptionPageSchemas`, `SubscriptionPageSaving`). Three recursive walks over JSON, and the page's schema
  around them. Address by address: **which values the cleaned page has, which texts and icons are reported**,
  and from that exactly which pages are saved and as what. For every
  input: **what is saved is accepted again as it is, and saving it again stores the same**. (Every start
  parses the stored pages again and deletes those that fail.) The schema lets no own `__proto__` entry
  through. Taken by itself, over arbitrary JSON, the cleaner has an exception: such an entry (as JSON.parse
  creates it) is lost by the cleaner's assignment, and what is left may then look like a localized text.
  Fusion and idempotence hold of a value exactly when it has no such node; the stored value stays free of
  missing locales exactly when every text uncovered this way has them all. Cleaned values are compared as
  they are stored, by their own entries. Taken as given of the schema library: objects drop unknown keys,
  records pass an own `__proto__` over, and reading an address that was read before changes nothing.
- **Inbound reconciliation** (`InboundSync`, `InboundSyncServices`, `InboundSeed`). Delete and add, or
  update in place. Tags are unique over the whole table of all profiles, so the insert can fail; it does
  **exactly when a tag of the configuration is on a row of another profile**. Otherwise tags and kinds
  agree after one run, everything after two, and the third writes nothing. The seed over all profiles
  fails exactly when **a tag moved from a profile to one whose turn is earlier (or from one that has no
  turn), or two stored configurations share a tag** (nothing but the inbound table keeps tags apart);
  then every later pass fails as well. Otherwise it converges likewise.
- **User status and node events** (`Users`, `UsersServices`, `UsersInterleaved`). A user that is not
  active is off the nodes, and an active one in a squad on them, but for queued jobs: over whole runs of the
  service's operations, the watchdog, the periodic reset and the jobs these two queue, **exactly as long as
  no operation is one of three kinds**: an update that disables an active user and changes its squads to a
  list that is not empty; a late notice of the watchdog, for a user that became active again; a late welcome
  of the periodic reset, for a user that became inactive again. Each has its run. Then reading, storing and
  publishing of the service's operations are separate, interleaving steps, each of which the database may
  refuse. As long as operations on one user do not overlap, **every user on which none is under way is in step in all states
  exactly when no move spoils one**: completing an update that moves while disabling; refusing an operation
  that has stored what its pending event would have to fit (inactive with an Add last, or active in a squad
  without); refusing a reset that has published for a limited user. Runs show that overlapping and both
  refusals are reachable.
- **Squad changes** (`Squads`), **cached node state** (`NodeCaches`), **batched deletion**
  (`BatchedDeletes`), **date windows** (`Calendar`, `DateRanges`, `DateRangeArrays`) and **the cookie
  reader** (`Cookies`).

`Collections` and `Text` hold what the modules share. Clocks, generated uuids, query results and parsers
of foreign formats are parameters.

## Model

| member | source | states |
|---|---|---|
| CacheProtocol.StepExactly | src/common/raw-cache/memory-cache.service.ts:22-50 | along every step of any process (change of the source, the three steps of `del`, delivery, clear-all, read, fill, expiry, eviction, disconnect, clearing on ready, subscribing) a key stays in step if and only if the step strands no copy of it |
| CacheProtocol.RunInStepExactly | src/common/raw-cache/raw-cache.service.ts:17-31 | over a whole run: in every state each copy in Redis or in the memory of a subscribed process is unchanged since it was read or has an invalidation on its way, if and only if no step of the run strands a copy |
| CacheProtocol.RunCoherentExactly | src/common/raw-cache/raw-cache.service.ts:17-31 | by values: without such a step every outdated hit has its invalidation on its way in all states; and conversely in runs whose writes bring no earlier value back |
| CacheProtocol.OutdatedHitWasStranded | src/common/raw-cache/raw-cache.service.ts:17-31 | any outdated hit in a subscribed process with nothing on its way goes back to an earlier stranding step of that key |
| CacheSchedules.PromptRunsAreCoherent | src/common/raw-cache/memory-cache.service.ts:25-50 | a key is coherent in all states when no invalidation of it is processed, lost with the connection, or missed where a transfer of it is under way, and none is published while a process that is up but not subscribed holds it |
| CacheSchedules.AtomicRunsExactly | src/common/raw-cache/raw-cache.service.ts:17-31 | with each get-and-fill taken as one step, only the gap of a reconnect strands copies: a run stays in step if and only if no process subscribes holding a copy changed since it was read that no writer is left to publish |
| CacheGap.AtomicRunsByPublishings | src/common/raw-cache/memory-cache.service.ts:25-36 | the same by publishings: a run with atomic reads stays in step if and only if no process subscribes that has missed, while up, the publishing of a key it holds and that was changed since it read it, unless a further publishing of the key is to come |
| CacheSchedules.AtomicRunsAreCoherent | src/common/raw-cache/raw-cache.service.ts:17-31 | with atomic reads a key is coherent throughout when it is not published while a process between clearing and subscribing holds it |
| CacheRaces.MemoryFillRace | src/common/raw-cache/raw-cache.service.ts:23-28 | a reachable state in which nothing is pending and memory serves an outdated value, because a read stored it after the invalidation came through |
| CacheRaces.RedisFillRace | src/common/raw-cache/raw-cache.service.ts:83-86 | the same through Redis: a loader writes the old row back after the key was deleted |
| CacheRaces.SubscriptionGap | src/common/raw-cache/memory-cache.service.ts:25-29 | the same with atomic reads: a value read after the clearing is changed and published before the new subscription is there |
| CacheCalls.ChangeAndDelete | src/common/raw-cache/raw-cache.service.ts:83-86 | undisturbed, a change of a row and `del` of its key: the key is gone from Redis and from the own memory, every subscribed process has it in its queue, and nothing else has changed |
| CacheCalls.GetFromRedis | src/common/raw-cache/raw-cache.service.ts:17-31 | undisturbed, a read that misses in memory keeps what Redis has and changes nothing else |
| CacheCalls.GetFromSource | src/common/raw-cache/raw-cache.service.ts:39-46 | undisturbed, filling Redis from the database stores the row as it is and changes nothing else |
| CacheCalls.Reconnect | src/common/raw-cache/memory-cache.service.ts:25-36 | a lost connection and its return: queued messages are lost, the memory is empty unless this was the first connection, and the process is subscribed |
| CacheCalls.Messages | src/common/raw-cache/memory-cache.service.ts:31-34 | a process handles its oldest message, by which the key, or everything, leaves its memory |
| CacheCalls.Losses | src/common/raw-cache/memory-cache.service.ts:12-15 | an entry may leave either level at any time |
| MemoryCaches.MemoryCacheService.OnReady | src/common/raw-cache/memory-cache.service.ts:25-29 | the first connection keeps the memory, every later one empties it |
| MemoryCaches.MemoryCacheService.OnMessage | src/common/raw-cache/memory-cache.service.ts:31-34 | a key removes that entry only, the star all entries |
| MemoryCaches.HitIsLastKept | src/common/raw-cache/memory-cache.service.ts:25-50 | over any history of fills, messages and connections, a key hits with a value exactly when that value was stored last for it and no message for it, message for all keys, or connection other than the first came later |
| MemoryCaches.MemoryCacheService.Set | src/common/raw-cache/memory-cache.service.ts:43-45 | one entry changes, nothing is published |
| MemoryCaches.MemoryCacheService.Invalidate | src/common/raw-cache/memory-cache.service.ts:47-50 | the own copy is gone and exactly the key is published |
| RawCaches.RawCacheService.Get | src/common/raw-cache/raw-cache.service.ts:17-31 | the value in memory when asked for and there, what Redis has otherwise; only values other than null are kept in memory |
| RawCaches.RawCacheService.Del | src/common/raw-cache/raw-cache.service.ts:83-86 | the key leaves both levels and is published once |
| RawCaches.RawCacheService.Mget | src/common/raw-cache/raw-cache.service.ts:33-37 | one answer per key, in order, null for absent keys |
| RawCaches.RawCacheService.SetMany | src/common/raw-cache/raw-cache.service.ts:115-129 | every key is stored with the value of its last entry, and no other key is touched |
| RawCaches.RawCacheService.CachedByKeys | src/common/raw-cache/raw-cache.service.ts:177-207 | the two loops compute the hits, fetch exactly the missed ids, write the rows back and complete the answer |
| RawCaches.HitsAre | src/common/raw-cache/raw-cache.service.ts:189-193 | hits and misses split the requested ids by what Redis holds, with repeated ids too |
| RawCaches.WithRowsAre | src/common/raw-cache/raw-cache.service.ts:204-204 | fetched rows add their ids and override nothing else |
| RawCaches.StoredAre | src/common/raw-cache/raw-cache.service.ts:197-203 | with distinct keys for distinct ids, writing source rows back keeps the cache coherent |
| RawCaches.CachedByKeysRefinesDirect | src/common/raw-cache/raw-cache.service.ts:177-207 | for any coherent cache contents and repeated ids, the answer maps each requested id of the source to the value of its row and nothing else; the cache stays coherent, each of these ids is then found in Redis, and asking again misses exactly the ids outside the source |
| RouteCounters.RegisterHolds | src/modules/system/route-counter.service.ts:25-34 | registering keeps slots and keys in bijection and every key's count |
| RouteCounters.IncrementHolds | src/modules/system/route-counter.service.ts:36-38 | one more for the slot's key, nothing for the others |
| RouteCounters.StartFlushHolds | src/modules/system/route-counter.service.ts:84-106 | draining moves counts into flight without changing any key's holding, nothing when a flush is running |
| RouteCounters.EndFlushHolds | src/modules/system/route-counter.service.ts:107-115 | a resolved flush lets go of exactly its deltas, a rejected one gives all of them back, also beside increments made meanwhile |
| RouteCounters.GivenBackAt | src/modules/system/route-counter.service.ts:108-111 | each slot gets back its own delta on top of what it has counted since |
| RouteCounters.StepDoes | src/modules/system/route-counter.service.ts:25-116 | what each step does to its own process and that no other notices: the key has a slot, one more in one slot, all counts taken exactly when there are some and no flush runs, counts touched by a flush end only when it was rejected |
| RouteCounters.DrainedDelta | src/modules/system/route-counter.service.ts:88-95 | for each key the drain holds what its slot held |
| RouteCounters.StepDrift | src/modules/system/route-counter.service.ts:84-116 | how far any step moves a total away from the number of increments: only the end of a flush, by what was applied and also given back, or neither |
| RouteCounters.StepConservesExactly | src/modules/system/route-counter.service.ts:102-115 | a step keeps every key's total equal to its increments if and only if it is not the end of a flush whose applied fields differ from its outcome |
| RouteCounters.RunConservesExactly | src/modules/system/route-counter.service.ts:84-116 | every total is right in every state of a run if and only if every flush of the run ends all-or-nothing |
| RouteCounters.LostCount | src/modules/system/route-counter.service.ts:102-115 | a run in which a count is lost: a pipeline resolves although its command was not applied |
| RouteCounters.AtMostOneFlush | src/modules/system/route-counter.service.ts:85-86 | in every reachable state one flush is in flight in a process that is flushing, none in one that is not |
| RouteCounters.SlotsNeverMove | src/modules/system/route-counter.service.ts:25-34 | once a key has a slot it keeps it, and no other key gets it, for the rest of every run |
| RouteCounters.AtRestRedisIsExact | src/modules/system/route-counter.service.ts:36-38 | with all counters flushed, the stored count of a key is the number of its increments |
| RouteCounterServices.RouteCounterService.Register | src/modules/system/route-counter.service.ts:25-34 | returns the key's own slot, the old one for a known key, and steps as the protocol does |
| RouteCounterServices.RouteCounterService.Increment | src/modules/system/route-counter.service.ts:36-38 | the protocol's increment, keeping the bijection |
| RouteCounterServices.RouteCounterService.DrainCounts | src/modules/system/route-counter.service.ts:88-95 | the in-place loop collects the non-zero counters in slot order and leaves only zeros |
| RouteCounterServices.RouteCounterService.GiveBack | src/modules/system/route-counter.service.ts:109-111 | the in-place loop returns every delta |
| RouteCounterServices.RouteCounterService.FlushUntilAwait | src/modules/system/route-counter.service.ts:84-106 | up to its await the method is the protocol's flush start; it awaits exactly when no flush runs and some counter is not zero |
| RouteCounterServices.RouteCounterService.FlushAfterAwait | src/modules/system/route-counter.service.ts:107-115 | from its await on it is the protocol's flush end, for both outcomes, and the flag is down again |
| RouteCounterServices.ParseRouteOfKey | src/modules/system/interceptors/route-counter.interceptor.ts:58-58 | a key built from a verb without a space and any path is taken apart into them again |
| RouteCounterServices.ParseRouteWithoutVerb | src/modules/system/route-counter.service.ts:54-56 | a key without a space is a path without a verb |
| RouteCounterServices.GetStats | src/modules/system/route-counter.service.ts:40-68 | every entry of the hash once, larger counts first, and the sum of all counts |
| RouteCounterServices.StatsTotalIsExact | src/modules/system/route-counter.service.ts:50-63 | across the whole path, with nothing in memory or in flight the reported total is the number of requests counted |
| Words.XorAssociates | libs/hashed-set/src/hashed-set.ts:9-10 | exclusive or on signed 32-bit words is associative, over the bits of either reading |
| Words.ReadingsAgree | libs/hashed-set/src/hashed-set.ts:25-28 | reading a word as unsigned and back as signed changes no bit |
| Words.XorCancels | libs/hashed-set/src/hashed-set.ts:34-44 | applying the same word twice gives the first one back |
| HexPrinter.PrintedWord | libs/hashed-set/src/hashed-set.ts:68-68 | a word is printed as zeros up to eight characters, then the minus sign of a negative word, then the hexadecimal digits of its magnitude without a leading zero |
| HexPrinter.ReadPrintedWord | libs/hashed-set/src/hashed-set.ts:68-68 | a word printed with eight or nine characters, with or without a minus sign, is read back |
| HexPrinter.ReadPrintedWords | libs/hashed-set/src/hashed-set.ts:66-70 | both words are read back from their concatenation, whatever the two widths |
| HexPrinter.PrintWordsInjective | libs/hashed-set/src/hashed-set.ts:66-70 | two pairs of signed words print the same string exactly when they are equal |
| HashedSets.PolyConcat | libs/hashed-set/src/hashed-set.ts:18-23 | the polynomial hash of s + t is the hash of t seeded with the hash of s |
| HashedSets.Djb2Concat | libs/hashed-set/src/hashed-set.ts:14-29 | the same law for the wrapped words |
| HashedSets.Djb2Empty | libs/hashed-set/src/hashed-set.ts:14-16 | the seeds: the hash of the empty string, from which the concatenation law leads to every other |
| HashedSets.Djb2Dual | libs/hashed-set/src/hashed-set.ts:14-29 | the loop computes both polynomial hashes modulo 2^32 (multipliers 33 and 65, seeds 5381 and 5387), with every sum a safe integer |
| HashedSets.SetHashPick | libs/hashed-set/src/hashed-set.ts:7-11 | the hash of a set does not depend on the order in which members are combined |
| HashedSets.SetHashOne | libs/hashed-set/src/hashed-set.ts:7-11 | the words of a set of one are its member's hash, high and low, read as signed words |
| HashedSets.SetHashToggle | libs/hashed-set/src/hashed-set.ts:31-47 | adding a new member and deleting an old one both combine its hash once |
| HashedSets.SetHashSymmetricDifference | libs/hashed-set/src/hashed-set.ts:31-47 | the symmetric difference of two sets hashes to the exclusive or of their hashes |
| HashedSets.SameWordsExactly | libs/hashed-set/src/hashed-set.ts:62-64 | two sets have equal words exactly when their symmetric difference hashes to zero |
| HashedSets.FastEqualsMayErr | libs/hashed-set/src/hashed-set.ts:72-74 | two different sets of the same size with the same words |
| HashedSets.HashedSet.constructor | libs/hashed-set/src/hashed-set.ts:5-12 | the words are the hash of the given members, although the inherited constructor already calls the overriding `add` |
| HashedSets.HashedSet.Add | libs/hashed-set/src/hashed-set.ts:31-38 | keeps the words equal to the hash of the members; a known member changes nothing |
| HashedSets.HashedSet.Delete | libs/hashed-set/src/hashed-set.ts:40-47 | likewise, and tells whether the member was there; the order of the others stays |
| HashedSets.HashedSet.Clear | libs/hashed-set/src/hashed-set.ts:49-53 | from any state, the empty set with its hash |
| HashedSets.HashedSet.HasSameHash | libs/hashed-set/src/hashed-set.ts:62-64 | true exactly when the symmetric difference hashes to zero |
| HashedSets.HashedSet.FastEquals | libs/hashed-set/src/hashed-set.ts:72-74 | always true of equal sets; true exactly for sets of one size whose symmetric difference hashes to zero |
| HashedSets.HashedSet.HashStringsAgree | libs/hashed-set/src/hashed-set.ts:66-70 | the printed hash is read back as the two words, the high one first, and two sets print the same exactly when their words agree |
| SubscriptionPages.TurnsLocalizedExactly | libs/subscription-page/models/subscription-page-config.validator.ts:114-122 | a node that is not a localized text becomes one by cleaning exactly when only an own `__proto__` entry kept it from being one |
| SubscriptionPageContents.LocalizedTextExactly | libs/subscription-page/models/subscription-page-config.validator.ts:5-15 | a localized text is an object of strings only, with some key of two characters |
| SubscriptionPageContents.CleanedTextHas | libs/subscription-page/models/subscription-page-config.validator.ts:99-112 | a cleaned text has exactly the entries of allowed locales whose text is not blank, each trimmed |
| SubscriptionPageContents.CleanedTextsJoin | libs/subscription-page/models/subscription-page-config.validator.ts:102-110 | entries are cleaned one by one and keep their order |
| SubscriptionPageContents.CleanedLeaves | libs/subscription-page/models/subscription-page-config.validator.ts:93-123 | for every value: the cleaned one has exactly the leaves at addresses without `__proto__` that are in no localized text, and the trimmed texts of allowed locales, everything at its address |
| SubscriptionPageContents.CleanedNode | libs/subscription-page/models/subscription-page-config.validator.ts:114-122 | lists keep their length, objects their keys in order but for `__proto__` |
| SubscriptionPageContents.OnlyProtoIsLost | libs/subscription-page/models/subscription-page-config.validator.ts:118-121 | that key is the only one an object loses |
| Text.TrimIsTrimmed | libs/subscription-page/models/subscription-page-config.validator.ts:105-105 | trimming takes white space off both ends, all there is and nothing else |
| Text.SpacesListed | libs/subscription-page/models/subscription-page-config.validator.ts:105-105 | what counts as white space, one by one (sections 12.2 and 12.3 of ECMA-262) |
| SubscriptionPages.CleanTextsFuse | libs/subscription-page/models/subscription-page-config.validator.ts:99-112 | on a localized text, cleaning twice keeps the trimmed texts of the shared locales |
| SubscriptionPages.CleanFuses | libs/subscription-page/models/subscription-page-config.validator.ts:93-123 | cleaning with A and then with B is cleaning with what they share, for every value without masked nodes |
| SubscriptionPages.FusionExactly | libs/subscription-page/models/subscription-page-config.validator.ts:93-123 | the fusion law holds of a value for all lists of known codes if and only if it has no masked node |
| SubscriptionPages.CleanIdempotentExactly | libs/subscription-page/models/subscription-page-config.validator.ts:93-123 | cleaning is idempotent on a value for all lists if and only if it has no masked node |
| SubscriptionPages.CleanedTextIsTextOrEmpty | libs/subscription-page/models/subscription-page-config.validator.ts:99-112 | a cleaned localized text is one still, or empty |
| SubscriptionPageValidators.RefinementContext.CheckLocalizedText | libs/subscription-page/models/subscription-page-config.validator.ts:27-57 | the recursion pushes exactly the missing locales of every localized text, in order, behind the earlier issues |
| SubscriptionPageValidators.RefinementContext.CheckTexts | libs/subscription-page/models/subscription-page-config.validator.ts:30-43 | one issue for each required locale whose text is absent or blank |
| SubscriptionPageValidators.RefinementContext.CheckLocalizedItems | libs/subscription-page/models/subscription-page-config.validator.ts:45-50 | the items' issues, with their indices in the path |
| SubscriptionPageValidators.RefinementContext.CheckLocalizedEntries | libs/subscription-page/models/subscription-page-config.validator.ts:52-56 | the issues of the entries that are objects or arrays |
| SubscriptionPageValidators.RefinementContext.CheckSvgRef | libs/subscription-page/models/subscription-page-config.validator.ts:69-88 | the recursion pushes exactly the unknown icon keys, array elements included |
| SubscriptionPageValidators.RefinementContext.CheckSvgEntry | libs/subscription-page/models/subscription-page-config.validator.ts:72-87 | one entry's issues: an icon key that is a string is compared, arrays and objects are entered |
| SubscriptionPageValidators.NoTextIssues | libs/subscription-page/models/subscription-page-config.validator.ts:30-43 | no issue exactly when every required locale has a text that is not blank |
| SubscriptionPageContents.MissingExactly | libs/subscription-page/models/subscription-page-config.validator.ts:31-33 | a locale is missing unless the first entry of its name is a string that is not blank |
| SubscriptionPageContents.ReportedExactly | libs/subscription-page/models/subscription-page-config.validator.ts:26-60 | reported are exactly the required locales that some localized text of the value lacks, each with the address of the text |
| SubscriptionPageContents.IconsReportedExactly | libs/subscription-page/models/subscription-page-config.validator.ts:62-91 | reported are exactly the strings under a key `svgIconKey` that name no known icon, each with its address as this walk prints it |
| SubscriptionPageValidators.CleaningKeepsLocalesExactly | libs/subscription-page/models/subscription-page-config.validator.ts:27-57 | of a value without missing locales, the cleaned value as it is stored has none if and only if every text that cleaning uncovers has them all |
| SubscriptionPageValidators.UnmaskedComplete | libs/subscription-page/models/subscription-page-config.validator.ts:118-122 | a value without masked nodes meets that condition |
| SubscriptionPageValidators.CleaningAddsNoSvgIssue | libs/subscription-page/models/subscription-page-config.validator.ts:69-88 | for every value, the icon issues of the cleaned value are among those of the value, counted with multiplicity |
| SubscriptionPageSchemas.ParseTwice | libs/subscription-page/models/subscription-page-config.schema.ts:16-136 | what a schema with distinct names gives back it accepts again, unchanged: unknown keys dropped, fields in the order of the schema, defaults filled in |
| SubscriptionPageSchemas.LeavesGiven | libs/subscription-page/models/subscription-page-config.schema.ts:15-20 | strings are given back as they are read and flags as they are; a localized text needs an entry, keys of two lower-case letters and strings |
| SubscriptionPageSchemas.FindIsFirst | libs/subscription-page/models/subscription-page-config.schema.ts:38-137 | a field is read from the first entry of its name |
| SubscriptionPageSchemas.FieldsRefused | libs/subscription-page/models/subscription-page-config.schema.ts:38-137 | an object is refused exactly for a field that is missing though required or that its own schema refuses |
| SubscriptionPageSchemas.FieldsGiven | libs/subscription-page/models/subscription-page-config.schema.ts:38-137 | otherwise each field has what its schema makes of the entry, or its default |
| SubscriptionPageSchemas.FieldsInOrder | libs/subscription-page/models/subscription-page-config.schema.ts:38-137 | fields are given back in the order of the schema |
| SubscriptionPageSchemas.EntriesRefused | libs/subscription-page/models/subscription-page-config.schema.ts:22-27 | a record is refused exactly for a key that is not allowed or a value that is refused, `__proto__` passed over |
| SubscriptionPageSchemas.EntriesGiven | libs/subscription-page/models/subscription-page-config.schema.ts:22-27 | otherwise its entries are given back in their places |
| SubscriptionPageSchemas.ItemsGiven | libs/subscription-page/models/subscription-page-config.schema.ts:68-94 | a list is refused exactly for an item that is refused; its items are given back in their places |
| SubscriptionPageSchemas.ParsedHasNoProto | libs/subscription-page/models/subscription-page-config.schema.ts:16-136 | an accepted value has no own `__proto__` entry at any depth |
| SubscriptionPageSchemas.NoProtoIsUnmasked | libs/subscription-page/models/subscription-page-config.schema.ts:16-136 | such a value has no masked node |
| SubscriptionPageSaving.CleanedIsAccepted | libs/subscription-page/models/subscription-page-config.schema.ts:16-111 | cleaning what a schema accepted, with no locale missing, gives what the schema accepts again |
| SubscriptionPageSaving.PageFits | libs/subscription-page/models/subscription-page-config.schema.ts:127-142 | the page's schema, with its ten parts, is of that kind |
| SubscriptionPageSaving.ValidatedAgain | libs/subscription-page/models/subscription-page-config.schema.ts:127-142 | for every input, the page that validation gives back validates to itself and has no own `__proto__` anywhere |
| SubscriptionPageSaving.CleanedPageAccepted | src/modules/subscription-page-configs/subpage-configs.service.ts:86-96 | the cleaned page is accepted by the schema, has the same locales and no issue of either validator, and cleaning it again changes nothing; nothing is assumed of the input |
| SubscriptionPageSaving.SavedIsAcceptedAgain | src/modules/subscription-page-configs/subpage-configs.service.ts:70-103 | for every input that is saved: the stored page passes parsing and validation unchanged (so the next start keeps it), and saving it again stores the same |
| SubscriptionPageSaving.SavedExactly | src/modules/subscription-page-configs/subpage-configs.service.ts:70-97 | a page is saved exactly when the schema accepts it, no localized text of its platforms and translations lacks a locale of the page, and no icon is unknown |
| SubscriptionPageSaving.SavedAs | src/modules/subscription-page-configs/subpage-configs.service.ts:86-103 | saved is the page as the schema gave it back, its platforms and translations cleaned for its locales, every other field as it was, in the same order |
| SubscriptionPageValidators.MaskedExample | libs/subscription-page/models/subscription-page-config.validator.ts:118-122 | a value, outside the page's schema, on which cleaning makes a localized text, is not idempotent, and adds a missing locale |
| InboundSync.ConflictExactly | src/modules/config-profiles/config-profile.service.ts:368-380 | the insert is refused if and only if an inbound of the configuration has a tag that a row of another profile has |
| InboundSync.ForeignTagConflicts | src/modules/config-profiles/config-profile.service.ts:368-380 | a table and a configuration that are refused so |
| InboundSync.AfterOneRun | src/modules/config-profiles/config-profile.service.ts:349-453 | after a run tags and kinds agree with the configuration, rows with tag and kind as wanted keep their uuid, other profiles are untouched and tags stay unique |
| InboundSync.WrittenExactly | src/modules/config-profiles/config-profile.service.ts:349-453 | a run that finds tags and kinds in agreement changes rows in place; any other deletes the rows not wanted, adds the inbounds not held under new uuids and changes no row; one write is counted for each row that differs afterwards |
| InboundSync.RefusedRun | src/modules/config-profiles/config-profile.service.ts:349-453 | a refused run leaves what it has deleted deleted and nothing else changed |
| InboundSync.CreatedUnique | src/modules/config-profiles/config-profile.service.ts:368-380 | tags are unique after the delete and the insert |
| InboundSync.AgreedRunSettles | src/modules/config-profiles/config-profile.service.ts:382-441 | with tags and kinds in agreement a run only updates, and every field agrees after it |
| InboundSync.SettledExactly | src/modules/config-profiles/config-profile.service.ts:349-453 | a run writes nothing and changes nothing if and only if every field of every row already agrees |
| InboundSync.OneRunSettlesExactly | src/modules/config-profiles/config-profile.service.ts:349-453 | one run is enough if and only if there is nothing to delete and add, or no row that is kept differs from the configuration |
| InboundSync.Converges | src/modules/config-profiles/config-profile.service.ts:349-453 | without a conflict, the second run leaves every field agreeing and the third writes nothing |
| InboundSyncServices.SyncInbounds | src/modules/config-profiles/config-profile.service.ts:349-453 | the imperative code, over fetched entities changed in place, computes that run; its "not found" error cannot occur |
| InboundSyncServices.InboundsToAdd | src/modules/config-profiles/config-profile.service.ts:359-366 | the inbounds of the configuration of which no stored row has tag and kind, in their order |
| InboundSyncServices.ChangedInbounds | src/modules/config-profiles/config-profile.service.ts:383-413 | the inbounds that differ from their stored row in some field, and no others |
| InboundSyncServices.AssignAll | src/modules/config-profiles/config-profile.service.ts:414-430 | every changed inbound is assigned to its row's entity, and the entity is always found |
| InboundSyncServices.UpdateInPlace | src/modules/config-profiles/config-profile.service.ts:382-441 | rows get the fields of their tag's inbound; uuids and all other rows stay |
| InboundSyncServices.UpdateConfigProfileTransactional | src/modules/config-profiles/config-profile.service.ts:257-302 | fails exactly on a tag of another profile and then leaves the table as it was; otherwise tags and kinds agree |
| InboundSeed.SeedPassExactly | prisma/seed/seeders/6_sync-inbounds.ts:7-127 | a pass over all profiles fails if and only if some configuration has the tag of another profile's row whose own turn is not earlier, or two configurations share a tag; otherwise it makes all profiles agree in tag and kind, settles them from agreement and writes nothing from there |
| InboundSeed.SeedInTurn | prisma/seed/seeders/6_sync-inbounds.ts:7-127 | the profiles are done in turn, each from the table the earlier ones left, up to the first refusal |
| InboundSeed.SeedOneJob | prisma/seed/seeders/6_sync-inbounds.ts:12-123 | one profile's turn is one run of the reconciliation |
| InboundSeed.SeedConverges | prisma/seed/seeders/6_sync-inbounds.ts:7-127 | unless the first pass fails so, two passes settle every profile and the third writes nothing |
| InboundSeed.SeedStuck | prisma/seed/seeders/6_sync-inbounds.ts:25-123 | a pass that fails leaves a reason behind, so that the next pass over the same configurations fails as well, and so on |
| InboundSeed.MovedTagBlocks | prisma/seed/seeders/6_sync-inbounds.ts:25-123 | a seed that is blocked: a tag moved to the profile whose turn comes first |
| InboundSeed.SharedTagFails | prisma/seed/seeders/6_sync-inbounds.ts:25-123 | a seed that fails on an empty table: two configurations with one tag |
| InboundSeed.SeedLeaves | prisma/seed/seeders/6_sync-inbounds.ts:25-123 | a pass, also one that fails, changes no row of a profile without a job |
| InboundSeed.SyncAllProfiles | prisma/seed/seeders/6_sync-inbounds.ts:7-127 | the imperative loop, fetching each profile's rows, computes that pass and stops at the first refusal |
| Users.StepExactly | src/modules/users/users.service.ts:160-234 | an operation takes a state out of step if and only if it is one of the three kinds named above |
| Users.RunInStepExactly | src/queue/_users/processors/user-events.processor.ts:74-145 | a run of service operations, watchdog, periodic reset and their queued jobs is in step in all its states if and only if none of its operations is of these kinds |
| Users.ServiceRun | src/modules/users/users.service.ts:61-557 | for the service's operations alone: no user that is not active has an Add as last event, and a user in a squad has one exactly when it is active, unless an update disables and moves at once |
| Users.MoveWhileDisabling | src/modules/users/users.service.ts:207-234 | a run in which an update disables a user, changes its squads and publishes nothing |
| Users.LateNotice | src/queue/_users/processors/user-events.processor.ts:74-89 | a run in which a queued notice removes a user from the nodes that is active again |
| Users.LateWelcome | src/queue/_users/processors/user-events.processor.ts:135-145 | a run in which a queued job adds a disabled user: the periodic reset had lifted its limit before it was disabled |
| Users.HasChangesExactly | src/modules/users/users.service.ts:207-211 | the comparison tells whether the sets of squads differ, for all stored lists, if and only if the requested list has no duplicates |
| Users.UpdatedStatus | src/modules/users/users.service.ts:158-192 | the status an update leaves: an inactive user becomes active exactly when it is enabled, or is limited and given a higher limit or none, or is expired, given no status, and given another expiry that lies ahead; an active one is disabled exactly when told so |
| Users.UpdatedFields | src/modules/users/users.service.ts:194-217 | an update stores the limit, the expiry and the squads it is given, and nothing it is not given |
| Users.UpdatedEvents | src/modules/users/users.service.ts:207-234 | what an update publishes, by the user before and after it: a user moved out of all squads is removed, one moved to others added if it is active; one that stays is removed or added when it stops or starts being active |
| UsersServices.UsersService.CreateUser | src/modules/users/users.service.ts:61-126 | stores the user under a new id; an Add exactly for an active user |
| UsersServices.UsersService.UpdateUser | src/modules/users/users.service.ts:128-250 | the flag-driven branches compute the specified status, fields and event: a change of squads overrides what a change of status would publish |
| UsersServices.UsersService.RevokeUserSubscription | src/modules/users/users.service.ts:302-355 | an active user is published again with its previous uuid |
| UsersServices.UsersService.DeleteUser | src/modules/users/users.service.ts:357-384 | removes the row and publishes a Remove, or fails for an unknown user |
| UsersServices.UsersService.DisableUser | src/modules/users/users.service.ts:386-421 | fails exactly for unknown and disabled users; otherwise a Remove |
| UsersServices.UsersService.EnableUser | src/modules/users/users.service.ts:423-457 | fails exactly for unknown and active users; otherwise an Add |
| UsersServices.UsersService.ExtendUserExpirationDate | src/modules/users/users.service.ts:459-506 | extends from the later of expiry and now; an expired user becomes active with an Add |
| UsersServices.UsersService.ResetUserTraffic | src/modules/users/users.service.ts:508-557 | a limited user becomes active with an Add, others publish nothing |
| UsersServices.UsersService.LimitOrExpire | src/queue/_users/processors/users-watchdog.processor.ts:55-135 | limits active users, expires active and limited ones, and queues one notice each |
| UsersServices.UsersService.ResetLimited | src/queue/_users/processors/reset-user-traffic.processor.ts:75-112 | makes limited users active, and queues one welcome each; publishes nothing itself |
| UsersServices.UsersService.FireEnabledEvent | src/queue/_users/processors/user-events.processor.ts:135-145 | a handled welcome adds a known user to the nodes, whatever its status |
| UsersServices.UsersService.FireUserEvent | src/queue/_users/processors/user-events.processor.ts:51-89 | a handled notice removes a known user from the nodes, whatever its status |
| UsersInterleaved.MoveExactly | src/modules/users/users.service.ts:61-557 | while operations on one user do not overlap, a read, store, publishing or refusal takes the idle users out of step if and only if it is one of the three named above |
| UsersInterleaved.RunExactly | src/modules/users/users.service.ts:61-557 | over all such interleavings: every idle user is in step in all states if and only if no move of the run is one of these |
| UsersInterleaved.CompletedFits | src/modules/users/users.service.ts:61-557 | a completed operation on a user that fits its last event leaves one that does, unless it is an update that moves while disabling |
| UsersInterleaved.EffectIsLocal | src/modules/users/users.service.ts:61-557 | an operation does to the whole state what it does to the one user it read |
| UsersInterleaved.UndisturbedIsAtomic | src/modules/users/users.service.ts:61-557 | undisturbed, reading, storing and publishing come to what the operation does at once |
| UsersInterleaved.HalfWay | src/modules/users/users.service.ts:386-421 | half way an operation has stored and published nothing, resetting the traffic has published and stored nothing, and a refusal leaves it at that |
| UsersInterleaved.Overlap | src/modules/users/users.service.ts:386-457 | two overlapping operations leave a disabled user with an Add as last event |
| UsersInterleaved.RefusedDisable | src/modules/users/users.service.ts:398-405 | disabling stores, is then refused, and leaves a disabled user with an Add as last event |
| UsersInterleaved.RefusedReset | src/modules/users/users.service.ts:518-523 | a reset that publishes and is then refused leaves a limited user with an Add as last event |
| Squads.ChangedExactly | src/modules/internal-squads/internal-squad.service.ts:156-170 | a profile is restarted if and only if one of its inbounds was gained or lost |
| Squads.NoRestartExactly | src/modules/internal-squads/internal-squad.service.ts:163-187 | nothing is restarted if and only if the squad's inbounds are the same as before |
| Squads.NotRestartedIsCurrent | src/modules/internal-squads/internal-squad.service.ts:129-187 | over any run of updates of any squads, a profile whose nodes were not asked to restart since has in every squad the inbounds it had at the beginning |
| Squads.ProfilesMap | src/modules/internal-squads/internal-squad.service.ts:134-140 | one entry per listed profile, holding exactly its inbounds |
| Squads.AffectedProfiles | src/modules/internal-squads/internal-squad.service.ts:156-170 | each profile of either map once, exactly when its sets differ, a missing entry counting as empty |
| Squads.LinkedAfter | src/modules/internal-squads/internal-squad.service.ts:209-221 | after the replacement the squad has the new inbounds and every other squad its old ones |
| Squads.InternalSquadService.InboundsBySquad | src/modules/internal-squads/repositories/internal-squad.repository.ts:312-328 | the rows of one squad, each with its inbound's profile |
| Squads.InternalSquadService.CreateInbounds | src/modules/internal-squads/repositories/internal-squad.repository.ts:232-248 | succeeds exactly for a list without repeated and unknown inbounds |
| Squads.InternalSquadService.SyncInternalSquadInbounds | src/modules/internal-squads/internal-squad.service.ts:209-221 | replaces the squad's links by the list, or fails and leaves them |
| Squads.InternalSquadService.UpdateInternalSquad | src/modules/internal-squads/internal-squad.service.ts:106-206 | each outcome exactly; restarts asked for are the changed profiles, each once, also those that appear or vanish; a refused list leaves links and restarts alone but keeps the new name |
| Squads.OutcomeExactly | src/modules/internal-squads/internal-squad.service.ts:106-206 | which input has which outcome: unknown squad; neither a name of some characters nor a list; the name of another squad; a list with a repeated or unknown inbound; success otherwise |
| NodeCaches.ReadsAgreeExactly | src/modules/nodes/nodes-system-cache.service.ts:39-61 | for every store, the pipelined read of a node and its single reads have the same outcome if and only if the pipelined one throws, or no command fails, no half of a system is malformed while the other is missing, and no stored system value is falsy |
| NodeCaches.ReadsDiffer | src/modules/nodes/nodes-system-cache.service.ts:48-54 | a store on which they differ: the stored text of one half of the system is null |
| NodeCaches.ReplyMeans | src/modules/nodes/nodes-system-cache.service.ts:48-59 | a reply has usable text exactly when its key is stored, is not empty and its command did not fail |
| NodeCaches.PipelinedReports | src/modules/nodes/nodes-system-cache.service.ts:39-61 | the pipelined read reports the numbers and versions that are stored, zero or null where none are, and a system exactly when both of its texts are there |
| NodeCaches.PipelineAt | src/modules/nodes/nodes-system-cache.service.ts:15-21 | the five keys of the node at i stand from five times i on |
| NodeCaches.PipelineReplies | src/modules/nodes/nodes-system-cache.service.ts:40-45 | each index read by the loop is the reply for that field of that node |
| NodeCaches.NodesSystemCacheService.GetMany | src/modules/nodes/nodes-system-cache.service.ts:13-64 | an entry for every listed node and no other, each that node's own read; nothing known for all when no pipeline runs; throws exactly when some node's texts are malformed |
| NodeCaches.NodesSystemCacheService.GetOne | src/modules/nodes/nodes-system-cache.service.ts:66-84 | throws exactly on a failed command or a malformed text; otherwise returns what the pipelined read reports for the node, except that a system with a falsy half is none |
| NodeCaches.NodesSystemCacheService.GetTotalOnlineUsers | src/modules/nodes/nodes-system-cache.service.ts:96-106 | the sum over the list, failed and missing counts as zero |
| NodeCaches.SumSplits | src/modules/nodes/nodes-system-cache.service.ts:105-105 | the sum over a list is that of its parts together, and of one node its own number |
| NodeCaches.TotalIsSum | src/modules/nodes/nodes-system-cache.service.ts:96-106 | that total is the sum of the online users that the pipelined read reports, repeated nodes repeated |
| BatchedDeletes.RunBatchedDelete | src/bin/cli/cli.ts:364-422 | terminates with the table and the count of the single statement, after just enough batches |
| BatchedDeletes.RunSingleDelete | src/bin/cli/cli.ts:424-436 | deletes the rows of the range, both ends included, and no others |
| BatchedDeletes.OneDate | src/bin/cli/cli.ts:384-385 | a range from a date to itself holds the rows of that date |
| BatchedDeletes.RangeSplits | src/bin/cli/cli.ts:384-385 | a range holds the rows of both its end dates and those between, and splits at any date into two that share no row |
| BatchedDeletes.BatchEffect | src/bin/cli/cli.ts:379-387 | whichever rows the database picks, a batch shrinks the range by its count and nothing outside changes |
| BatchedDeletes.JustEnoughIsCeiling | src/bin/cli/cli.ts:377-398 | just enough batches of b for n rows is n / b rounded up |
| BatchedDeletes.InterleavedRun | src/bin/cli/cli.ts:377-398 | with other writers between the batches: deleted + left = there before + come in, and outside the range only their new rows appear |
| Calendar.DateOf | src/common/utils/get-date-ranges.uti.ts:3-33 | every day number has a valid date with that number |
| Calendar.DateOfDayNumber | src/common/utils/get-date-ranges.uti.ts:3-33 | every valid date is found again from its number |
| Calendar.DayNumberMonotone | src/common/utils/get-date-range-array.util.ts:18-26 | day numbers order valid dates as the calendar does, both ways |
| Calendar.YearsCounted | src/common/utils/get-date-ranges.uti.ts:19-33 | the leap-year count of the Gregorian calendar, for all years |
| Calendar.MonthsCounted | src/common/utils/get-date-ranges.uti.ts:3-17 | the days before each month, looked up in a table, one more after February of a leap year |
| DateRanges.EpochDay | src/common/utils/get-date-ranges.uti.ts:3-33 | the scale of instants is anchored: the Unix epoch is the first of January 1970 |
| DateRanges.MonthRangesAdjoin | src/common/utils/get-date-ranges.uti.ts:3-17 | at every instant, by the table of months: the current window starts on the first of the month and ends with today, the previous one starts on the first of the month before and ends 1 ms before the current |
| DateRanges.YearRangesAdjoin | src/common/utils/get-date-ranges.uti.ts:19-33 | likewise for years, of 365 or 366 days, also on the 29th of February |
| DateRanges.Last30DaysAdjoin | src/common/utils/get-date-ranges.uti.ts:45-58 | two adjoining windows of exactly 30 days, the second holding now |
| DateRanges.LastTwoWeeksAdjoin | src/common/utils/get-date-ranges.uti.ts:60-73 | two adjoining windows of exactly 7 days, the second holding now |
| DateRanges.DateRangeIsOneDay | src/common/utils/get-date-ranges.uti.ts:35-43 | exactly the day that many days before today |
| DateRangeArrays.OneDatePerDayExactly | src/common/utils/get-date-range-array.util.ts:20-25 | as many dates as days in the range if and only if it does not end on the day before it starts; then there is one date for no day |
| DateRangeArrays.DatesEndPoints | src/common/utils/get-date-range-array.util.ts:18-26 | the first and the last date are those of the end points |
| DateRangeArrays.DatesAscend | src/common/utils/get-date-range-array.util.ts:25-25 | in the years 0 to 9999 the strings ascend strictly and are distinct |
| DateRangeArrays.DatesCoverExactly | src/common/utils/get-date-range-array.util.ts:18-26 | an instant lies between start and end date exactly when its day's string is among the dates |
| DateRangeArrays.PrintedOrder | src/common/utils/get-date-range-array.util.ts:25-25 | full dates (section 5.6 of RFC 3339) are ordered as strings as the dates are |
| DateRangeArrays.FormatSpells | src/common/utils/get-date-range-array.util.ts:25-25 | a date is printed as four decimal digits that spell the year, two that spell the month and two the day |
| Cookies.GetCookie | src/common/middlewares/tools-auth.middleware.ts:77-93 | the loop looks the name up among the header's pairs; null without a header |
| Cookies.LookupIsFirst | src/common/middlewares/tools-auth.middleware.ts:84-92 | the value of the first pair with the name, and null exactly when there is none |
| Cookies.PartRead | src/common/middlewares/tools-auth.middleware.ts:84-90 | the name of a part is what stands before its first equals sign, the value all that follows, white space around the part taken off; without an equals sign the whole part is the name |
| Cookies.HeaderRead | src/common/middlewares/tools-auth.middleware.ts:84-92 | the pairs are those of the parts between semicolons, in their order |
| Cookies.HeaderRoundTripExactly | src/common/middlewares/tools-auth.middleware.ts:77-93 | a header printed for a list of pairs (section 4.2.1 of RFC 6265) is read as that list, equals signs in values included, if and only if names have no equals sign, nothing has a semicolon, and trimming takes nothing off |
| Cookies.ReprintedReadsTheSame | src/common/middlewares/tools-auth.middleware.ts:77-93 | for every header, printing the pairs read from it gives a header that is read the same |
| Cookies.JoinSplit | src/common/middlewares/tools-auth.middleware.ts:85-88 | joining the parts of a split gives the string back, and no part holds the separator |

## Left out

- Authentication, settings validation, controllers, queues, templates, key generation, and all bulk user operations.
- Failing commands: a rejected Redis or database call ends the operation in the code; apart from the flush of the counters, the pipelined node reads and the refused inserts it is not modelled.
- The limits of the memory cache (number of entries, time to live): any entry may leave at any time.
- `delMany` and `setString`, which change Redis without telling the memory of any process, and the memory-cached `getString`, which reads like `get`.
- Strings: sequences of Dafny characters in the JSON, cookie and date modules, so that lone surrogates cannot be written and a length counts characters where the code counts UTF-16 units (a key or name that is one emoji has length two there, one here); the hashed set uses UTF-16 code units.
- The order in which JavaScript lists integer-like keys: entries keep the order they have.
- `getHashStats`: counts bits.
- Counts that a process had not flushed when it ended.
- The bulk branches of the watchdog and the periodic reset for 10,000 users and more, which restart nodes instead of queueing jobs, and what the periodic reset does to users that are not limited.
- Stores that write some fields only: in the interleaved model an operation stores the whole user it read, which differs only where operations on one user overlap.
- A process that ends between storing and publishing.
- Redis expiry of written entries (`ttlSeconds`): in the protocol an entry may expire at any time, in the batch lookup it stays.
- Number parsing of cached counters beyond integers: text that is not a number gives NaN in the code.
- Progress output and timings of the deletion, and the confirmation before it.
- Time zones other than UTC.
- Percent-decoding of the cookie's value.
- Cookies.GetCookie: returns the value still encoded; the decoding it is passed to may throw and is not part of this model.
- RawCaches.RawCacheService.SetMany: does not model the expiry of the entries it writes; in the protocol they may expire at any time.
- UsersServices.UsersService.ResetUserTraffic: takes publishing and storing as one step; the interleaved model takes them apart.
- UsersServices.UsersService.LimitOrExpire: does not model the bulk branch for 10,000 users and more.
- UsersServices.UsersService.ResetLimited: likewise.
- UsersInterleaved.RunExactly: covers the operations of the service; the watchdog, the periodic reset and their jobs are single steps of Users.RunInStepExactly.
- MemoryCaches.MemoryCacheService.Set: does not model the time to live of one entry.
- HashedSets.HashedSet.FastEquals: is not an equality, since strings collide; the exact condition is stated instead.
