# A model of Avery's data plane

Avery runs functions. Its services keep functions and attachments in registries, merge the listings of
several registries, stream typed data between functions, queue executions, and let users ask for remote
access. This project models that state and a few string and arithmetic kernels around it, and proves what
each step keeps, what whole runs guarantee, and which fast form agrees with which simple one. Where the
code does not do what it promises, the code is modelled as it is, and the exact condition under which the
promise holds is proved, with an input that shows the failure.

The modules, by component:

- **Registries and listings.** `Order` and `Semver` give the orders; versions are ordered by section 11 of
  SemVer 2.0.0. `Listing` specifies a sorted listing of a set and the pages cut from it, for unstable sorts
  and hash maps that iterate in any order. `Catalog` holds functions, filters and grouping by newest.
  `Registry` and `RegistryService` are Avery's registry, `Quinn` is the other registry's memory storage and
  request conversion. `Names` is the regular expression both check names with.
- **The proxy.** `Pushdown` is the theory of merging lists of which only the beginnings are known; `Proxy`
  is the conflict fold, `ProxyListing` the theorems about limits and offsets, `ProxyConflicts` what limits
  do to failures, `ProxyClamps` sources that clamp the limit, `ProxyService` the requests.
- **Channels.** `ChannelData` is typed data and cursor arithmetic in machine words. `ChannelProtocol` lets
  loads, compare-exchanges, checks of the closed flag, appends, closes and seeks of all parties interleave.
  `Channels` has the same operations as methods of the objects, and sets of channels.
- **Remote access.** `ExpireMap` is a map with timers, `RemoteAccess` the requests and approvals with their
  two clocks, `Waiting` those who wait for an approval.
- **From a manifest to an execution.** `Arguments` reads the client's arguments, `Validation` checks named
  channels against specs (both the service and the client library do it the same way), `Streams` joins
  manifest, parsing and validation, `Execution` is the queue, `ExecutionLookup` how a request finds its
  function through the proxy, `Printer` prints a function's output.
- **Kernels.** `CertVersion` (a hash of names), `Secrets` (placeholders in configuration), `Upload`
  (attachments in chunks, up to the registry's file), `WindowsRegistry` (the installer's edits) and
  `Changelog` (padded versions).

Where code and documentation disagree:

- `remove_from_path` is commented as sparing `C:\Program Files\Firmware` when it removes
  `C:\Program Files\Firm`. Once anything is removed it does not: `RemovesEntriesExactly`, `FirmwareIsBroken`.
- `approve_remote_access_request` grants access whatever the request's `approved` says, so also when it says
  no: `AuthService.Approve`.
- A closed channel is documented as taking no more data. An append that found it open may still follow:
  `ClosedLogGrowsExactly`, `CloseOvertakesAppend`; only with a single handle not, `OneHandleClosesForGood`.
- A pending read is documented nowhere as consuming data, but it does:
  `ParkedReadsDeliverNothing`, `WaitingReadSkips`.
- The client reports a failed upload for every file whose size is a multiple of the chunk size:
  `CountsExactly`, `OneChunkMiscounts`.
- What cannot be read is meant to be sorted last, and is not always: `UnreadableIsLastExactly`,
  `ZeroComesAfterUnreadable`.
- Execution looks a function up by its name, but through the proxy's listing, which matches parts of names:
  `LookupAmongExactly`, `FindsAhello`.

Outside values are parameters: clocks, new uuids, digests, hex and UTF-8 decoding, version parsing, the two
registries' different requirement parsers, secret resolvers, the replies of other registries, the sizes of
file reads, whether a transaction commits, and the character classes `\s`, `\w` and emoji.

## Model

| member | source | states |
|---|---|---|
| Semver.VersionTrichotomy | services/avery/src/registry.rs:299-331 | any two versions compare as exactly one of less, greater or the same version, build metadata aside |
| Semver.VersionLessExactly | services/avery/src/registry.rs:299-331 | one version is below another exactly by section 11 of SemVer 2.0.0: the three numbers decide; then a prerelease is below its release; then the first differing field, where a missing one is below any, numbers compare as numbers and stand below texts, and texts compare by character |
| Semver.VersionLessWeak | services/avery/src/registry.rs:299-331 | that order is a strict weak order whose ties are exactly versions equal up to build metadata |
| Order.StringLessExactly | services/avery/src/registry.rs:344-362 | texts compare at the first place where they differ, or the shorter is the lesser |
| Listing.ListingUnique | services/avery/src/registry.rs:344-380 | without ties a set has one sorted listing, so an unstable sort over any hash map order gives one result |
| Listing.PagesConcatenate | services/avery/src/registry.rs:366-380 | pages at offsets 0, L, 2L, ... concatenate to the listing |
| Catalog.GroupingFindsNewest | services/avery/src/registry.rs:300-330 | the fold that groups by name ends with exactly the newest function of each name, whatever order it meets them in |
| Catalog.Groups | services/avery/src/registry.rs:300-330 | the loop yields each name's newest function once, in some order |
| Catalog.SelectAndSortLists | services/avery/src/registry.rs:284-370 | filter, group, filter again and sort is a sorted listing of the selected set, however stored and iterated |
| Catalog.PageDetermined | services/avery/src/registry.rs:344-380 | a page in either direction depends on the stored set alone when no two functions share a key |
| Registry.RegisterRefinesMap | services/avery/src/registry.rs:433-548 | register on the vector refines a map from name and suffixed version: an early failure changes nothing, a late failure is a removal, success replaces; the invariant is kept and the answer is the stored function |
| Registry.RunKeepsInv | services/avery/src/registry.rs:433-655 | over every run of register and register_attachment no two functions share a key and every reference is stored |
| Registry.ResolveAllDropsNothing | services/avery/src/registry.rs:230-262 | resolving a listing of stored functions drops none of them |
| Registry.RegistrationsCommute | services/avery/src/registry.rs:433-548 | registrations under different keys give the same map in either order, failures included |
| Registry.AttachKeepsInv | services/avery/src/registry.rs:551-655 | adding an attachment keeps every reference valid |
| Registry.RegisterEndsSo | services/avery/src/registry.rs:433-548 | a request succeeds exactly with a valid name and version, a runtime, all its attachments stored and a publisher with name and email; then what is stored is what it asks for, with a digest of the attachments' checksums, in order and then the code's, added to its metadata; otherwise the first of these that fails is the error |
| RegistryService.RegistryService.Register | services/avery/src/registry.rs:433-548 | the method does exactly that: on success the function stands in the place of what had its name and version, an early failure changes nothing and a late one removes that; and seen as a map this is the map's registration |
| RegistryService.RegistryService.RegisterAttachment | services/avery/src/registry.rs:551-655 | the first check that fails is the error; then an empty new file, then an entry with the request's name, checksum, publisher and content; the file stays when its path is no URL |
| RegistryService.RegistryService.Get | services/avery/src/registry.rs:400-431 | the answer is the function registered last with that name and version text, with exactly its attachments, and there is none exactly if it fails |
| RegistryService.ListedExactly | services/avery/src/registry.rs:264-343 | listed is exactly what is stored, has the wanted name (a part of it if grouped) and a version that meets the requirement, is the newest such of its name if grouped, and has the wanted metadata and publisher |
| RegistryService.RegistryService.List | services/avery/src/registry.rs:264-381 | the answer is a page of the listing of exactly those, by name and newest version first or the other way round, at most the limit or 100, each with exactly its attachments |
| RegistryService.ListDetermined | services/avery/src/registry.rs:264-381 | two registries with the same content answer a list request identically |
| RegistryService.ExecutesTheNewest | services/avery/src/registry.rs:264-381 | a registry asked directly for one version of a name that meets a requirement answers with the newest such function, and with nothing only if there is none |
| ExecutionLookup.InternalAnswer | services/avery/src/proxy_registry.rs:308-316 | asked by the proxy, the internal registry answers with the newest eligible version of the first name that contains the wanted one, and with nothing exactly if no such function meets the requirement |
| ExecutionLookup.FindsRunnableExactly | services/avery/src/proxy_registry.rs:308-316 | that has the wanted name exactly if something runnable is stored and no eligible name comes before; then it is the newest; if nothing runnable is stored, nothing is found exactly if nothing is eligible |
| ExecutionLookup.FindsAhello | services/avery/src/proxy_registry.rs:308-316 | after "hello" and "ahello" have been registered, or only the second, the proxy answers a request for "hello" with "ahello" and nothing else |
| ExecutionLookup.FirstEntryExactly | services/avery/src/proxy_registry.rs:281-395 | whatever the registries answer, the proxy's first entry has the wanted name exactly if somebody lists it and nobody a name before it; it is the newest listed of its name, from the first registry that has that version |
| ExecutionLookup.LookupAmongExactly | services/avery/src/proxy_registry.rs:281-395 | with any other registries, exact names or parts: the function found has the wanted name exactly if another registry lists it or a runnable one is stored, and no listed or eligible name comes before; and nothing is found exactly if nothing is listed or eligible |
| ExecutionLookup.FoundIsNewest | services/avery/src/proxy_registry.rs:281-395 | and then no registry lists a newer version of that name, and no newer one that meets the requirement is stored |
| ExecutionLookup.StoredNamesAreColonless | services/avery/src/registry.rs:433-548 | in every run of the registry no stored name has a colon, so name and version can be told apart in the key they are joined to |
| ExecutionLookup.LookupExactly | services/avery/src/run.rs:126-128 | through the proxy without other registries: which function an execution request finds, when it has the wanted name, and when none is found |
| ExecutionLookup.AskProxy | services/avery/src/executor.rs:141-161 | the answer is one the proxy can give for the stored functions, or the registries' failure |
| ExecutionLookup.QueueByName | services/avery/src/executor.rs:135-212 | what is queued is the proxy's first answer, exactly if the arguments fit it |
| RegistryService.UploadEndsSo | services/avery/src/registry.rs:75-196 | a stream of chunks that all name stored attachments is accepted exactly if the digest of their contents is the checksum of the first one's attachment, and its file holds them over what it held; otherwise the first chunk that is broken or names none decides, and its file is gone or holds what came before |
| RegistryService.RegistryService.UploadStreamAttachment | services/avery/src/registry.rs:75-196 | the loop over the chunks leaves the files and the answer so |
| Names.NameLanguage | services/avery/src/registry.rs:675-697 | the nested regular expression is exactly: three characters or more, a lower-case letter first, alphanumeric second and last, no two dashes in a row |
| Names.ValidatorsAgree | services/quinn/src/validation.rs:29-47 | counting bytes or characters, both registries accept the same names, those of that shape with 3 to 128 characters |
| Names.ReasonsDiffer | services/quinn/src/validation.rs:29-47 | when the two give different reasons the name has a character of more than one byte |
| Names.BytesCounted | services/avery/src/registry.rs:675-697 | the length in bytes is that of UTF-8 |
| Quinn.MemoryStorage.Insert | services/quinn/src/storage/memory.rs:114-144 | a taken name and version is refused and nothing changes, any other is stored with the given time |
| Quinn.MemoryStorage.Get | services/quinn/src/storage/memory.rs:172-186 | the stored function of that name and version, or not found exactly if there is none |
| Quinn.ConvertsExactly | services/quinn/src/storage_conversions.rs:52-86 | a request is refused exactly if its requirement does not parse; otherwise all it asks for is kept, an empty value asks for the key alone, and the limit becomes 100 for 0 and 1000 for more |
| Quinn.ListedExactly | services/quinn/src/storage/memory.rs:24-75 | listed is exactly what is stored, has the wanted name as a part of its own and a version that meets the requirement, is the newest such of its name if grouped, and has the wanted keys, values and publisher |
| Quinn.MemoryStorage.List | services/quinn/src/storage/memory.rs:24-109 | the page is one of the listing of exactly those, in order, at most the limit or 100 |
| Quinn.GroupedSelectionsAgree | services/quinn/src/storage/memory.rs:24-75 | when each registry's own requirement parser gives a predicate and the two agree on the functions whose names match, both select the same functions for a grouped listing |
| Quinn.GroupedPagesAgree | services/quinn/src/storage_conversions.rs:52-86 | with parsers that agree so, both give the same grouped page exactly when clamping the limit does not change what the page shows |
| Quinn.UngroupedSelectionsAgree | services/quinn/src/storage/memory.rs:24-75 | with parsers that agree so, ungrouped selections agree exactly when no function Quinn selects has another name than the wanted one |
| Quinn.DisagreeingParsersShow | services/quinn/src/storage_conversions.rs:69-80 | a function that is the only version of its name, and that both would otherwise show, is in both grouped selections or neither exactly if the parsers agree about it |
| Quinn.PagesCoverListing | services/quinn/src/storage/memory.rs:76-109 | reading page after page in either direction reads every selected function exactly once, in order |
| Pushdown.TopsAgree | services/avery/src/proxy_registry.rs:290-395 | merging the first n entries of each strictly sorted source has the same possible top n as merging everything |
| Pushdown.ListFitsMerge | services/avery/src/proxy_registry.rs:290-395 | no source lists more entries than the merge has keys |
| Proxy.FunctionMergeCharacterized | services/avery/src/proxy_registry.rs:201-244 | under errors the function-mode fold fails exactly if an incoming version equals the running maximum of its name or cannot be compared with it; under priorities the earliest holder of the maximum survives |
| Proxy.VersionMergeCharacterized | services/avery/src/proxy_registry.rs:246-274 | the version-mode fold keeps the earliest source's entry for each name and version, and under errors fails exactly if two share one, reporting the first that repeats |
| ProxyConflicts.FailureBlames | services/avery/src/proxy_registry.rs:201-274 | what a failed merge reports names the registries of two entries with the same key, the later one's first, or the later one's version if it cannot be read |
| ProxyListing.FoldByKey | services/avery/src/proxy_registry.rs:201-274 | what is kept for a key depends on the entries with that key alone, in their order |
| ProxyListing.UnreadableIsLastExactly | services/avery/src/proxy_registry.rs:332-343 | a version that cannot be read sorts last of its name exactly against versions not below 0.0.1-invalid |
| ProxyListing.ZeroComesAfterUnreadable | services/avery/src/proxy_registry.rs:332-343 | version 0.0.0 comes after one that cannot be read |
| ProxyListing.PriorityMergeFails | services/avery/src/proxy_registry.rs:201-244 | with priorities the fold fails exactly on a later function of a known name whose version cannot be read |
| ProxyListing.LimitPushdown | services/avery/src/proxy_registry.rs:281-395 | at offset 0, in both modes and directions and whatever is done about conflicts, if every source serves at least the first `limit` entries and both merges succeed, then merging what is served, sorting and cutting gives exactly the possible first pages of the merge of the complete sources, each entry from the same registry |
| ProxyListing.ServingLessMergesToo | services/avery/src/proxy_registry.rs:201-274 | with priorities, and in version mode, what the sources serve merges if the complete listings do |
| ProxyConflicts.ServedFailsExactly | services/avery/src/proxy_registry.rs:201-244 | functions cut to a limit fail to merge exactly if a later source serves a version of a known name that cannot be read or, with conflicts as errors, equals the highest served until then |
| ProxyConflicts.LimitHidesFailureExactly | services/avery/src/proxy_registry.rs:201-244 | the complete merge of functions fails and the served one succeeds exactly if there is such a failure in all and none within the limit; the served one succeeds exactly if every failure of all reaches beyond the limit and, with conflicts as errors, no version served twice leads |
| ProxyConflicts.ErrorLimitPushdown | services/avery/src/proxy_registry.rs:201-244 | with conflicts as errors, when the complete merge of functions succeeds the served one fails exactly if two sources serve the same version and it is the highest served until then; and then an earlier source keeps a higher or unreadable one beyond its limit |
| ProxyConflicts.ErrorVersionsPushdown | services/avery/src/proxy_registry.rs:246-274 | in version mode with conflicts as errors the complete merge fails exactly if a name and version is listed twice, and the served one succeeds exactly if none is listed twice within the limit |
| ProxyConflicts.ErrorModePushdownFails | services/avery/src/proxy_registry.rs:281-345 | three concrete sources, with versions 1.0.0 and 2.0.0, whose complete merge succeeds although the merge of their first entries fails |
| ProxyListing.OffsetPushdown | services/avery/src/proxy_registry.rs:281-395 | in function mode, and in version mode when no two different keys tie, passing the offset down and applying it again can give an answer of the complete merge exactly if the offset or limit is 0 or the complete merge has no more entries than the offset |
| ProxyListing.HarmlessOffsets | services/avery/src/proxy_registry.rs:281-395 | in both modes, ties or not, those offsets and limits do no harm |
| ProxyClamps.FirstThousandRight | services/quinn/src/storage_conversions.rs:52-68 | when sources clamp the limit as Quinn does, the first thousand entries of the proxy's page are a first page of the complete merge, and up to a limit of 1000 that is all of it |
| ProxyClamps.ClampShowsExactly | services/quinn/src/storage_conversions.rs:52-68 | with one clamping source, a page can be right exactly if the limit or the source's listing is no longer than 1000 |
| ProxyConflicts.TiedVersionsShareAnAnswer | services/avery/src/proxy_registry.rs:281-395 | two concrete sources with versions that differ in build metadata, for which a harmful offset goes unnoticed |
| ProxyService.CollectReplies | services/avery/src/proxy_registry.rs:281-328 | all replies in source order, or the first failure |
| ProxyService.FoldInto | services/avery/src/proxy_registry.rs:329-345 | the loop computes the fold, stopping at the first conflict |
| ProxyService.List | services/avery/src/proxy_registry.rs:276-402 | the answer is a page of the merged entries in order, each of them an entry of some registry with that registry's name added to its metadata and all else as it was; or the first failure of a registry, or the conflict and whom it is between |
| ProxyService.Get | services/avery/src/proxy_registry.rs:420-494 | the answer is what some registry found, with its name added to the metadata and all else as it was; sources without the function are ignored, the first other failure is the answer, and a conflict names two of those that found it |
| ProxyService.GetPrefersFirst | services/avery/src/proxy_registry.rs:420-494 | when all answers carry the same name and version the first source's is returned, or under errors a conflict if there are two |
| ChannelData.ReadsForwardExactly | services/avery/src/channels.rs:859-870 | a read moves a cursor forward exactly if position plus size fits 64 bits, and then to the cut sum |
| ChannelData.AnswersShowTheWindow | services/avery/src/channels.rs:873-887 | an answer is exactly the window the cursor moved over, all of the read or the rest of a closed log, and a pending poll has moved to the end |
| ChannelData.SeeksExactly | services/avery/src/channels.rs:706-716 | a seek lands on the position asked for, cut to the log, exactly if a relative one does not overflow 64 bits or the log is empty; otherwise on the start |
| ChannelData.SlicesStay | services/avery/src/channels.rs:584-614 | a slice of a log is the same slice of every log it grows to |
| ChannelData.ExtendAppends | services/avery/src/channels.rs:584-614 | extending gives exactly the elements there were, each at its place, and the new ones after them in order |
| ChannelData.SliceShows | services/avery/src/channels.rs:746-785 | a slice holds exactly the elements from its start up to its end |
| ChannelProtocol.StepKeepsInv | services/avery/src/channels.rs:537-740 | every step of every party keeps: positions inside the log, each cursor's history a legal sequence of atomic reservations and seeks, each request's length current, each answer backed by its own window |
| ChannelProtocol.OwnersAct | services/avery/src/channels.rs:537-740 | what each step changes: a clone is at its original's position with its seek, a first seek stays until completed, and so on |
| ChannelProtocol.WriteAppends | services/avery/src/channels.rs:584-614 | an append that gets the lock adds exactly its elements at the end, if the types agree |
| ChannelProtocol.RunKeepsInv | services/avery/src/channels.rs:537-740 | over whole runs that holds, the log only grows, its type stays and it stays closed |
| ChannelProtocol.CursorsStayInside | services/avery/src/channels.rs:537-740 | in every reachable state every cursor is at most the log's length and the type is the first one |
| ChannelProtocol.CursorMovesAtomically | services/avery/src/channels.rs:862-876 | a cursor moves only by one whole reservation when a compare-exchange succeeds, or a seek; all other steps leave it |
| ChannelProtocol.FailureMeansProgress | services/avery/src/channels.rs:862-876 | a failed compare-exchange means another read reserved since the cursor was loaded |
| ChannelProtocol.WindowsTile | services/avery/src/channels.rs:862-876 | between seeks each position the cursor passed is in exactly one reserved window, and no window reaches outside |
| ChannelProtocol.ViewShowsItsWindow | services/avery/src/channels.rs:560-576 | a ready view shows exactly the window its read reserved |
| ChannelProtocol.ViewsLast | services/avery/src/channels.rs:746-785 | what a view shows is at the same place in every later state of the log |
| ChannelProtocol.ReadsShareNoWindow | services/avery/src/channels.rs:862-876 | two reads of one handle never answer from the same window |
| ChannelProtocol.TilesInEveryRun | services/avery/src/channels.rs:859-888 | from a new channel, through every run with reads of at most 2^63 elements, each position a cursor advanced past between seeks was reserved by exactly one read |
| ChannelProtocol.AnswersInEveryRun | services/avery/src/channels.rs:560-576 | in every such run a read that has answered shows exactly its window, then and in every later state, and nothing if it had to wait |
| ChannelProtocol.ParkedReadsDeliverNothing | services/avery/src/channels.rs:878-887 | after a pending poll the cursor stays at the end, and if the read ever answers the channel is closed and the view empty |
| ChannelProtocol.WaitingReadSkips | services/avery/src/channels.rs:859-888 | a run from a new channel in which a read passes over an element while it waits and, when another handle closes the channel, shows nothing |
| ChannelProtocol.RequestsHoldTheLog | services/avery/src/channels.rs:560-576 | while a request lives no append takes effect |
| ChannelProtocol.ClosedLogGrowsExactly | services/avery/src/channels.rs:584-614 | a closed log can still grow exactly if an append that found it open is waiting with data of the right type, whoever reads meanwhile |
| ChannelProtocol.CloseOvertakesAppend | services/avery/src/channels.rs:584-614 | a run from a new channel with two handles that ends closed and empty, and then closed and not empty |
| ChannelProtocol.OneHandleClosesForGood | services/avery/src/channels.rs:551-614 | in every run without a second handle, what a closed channel holds is final |
| ChannelProtocol.AllRequestsEnd | services/avery/src/channels.rs:560-576 | from every reachable state all requests can be brought to their end without changing the log |
| ChannelProtocol.ExchangesSucceed | services/avery/src/channels.rs:560-570 | when requests hold their handle's waker, a step keeps every loaded position current, so a read's compare-exchange succeeds |
| ChannelProtocol.NoExchangeEverFails | services/avery/src/channels.rs:560-570 | in every run from a new channel in which requests take the waker, no read's compare-exchange ever fails |
| ChannelProtocol.VerdictSurvives | services/avery/src/channels.rs:118-175 | whatever runs the channels of a set go through, validation finds the same |
| Channels.Channel.Sharing | services/avery/src/channels.rs:537-548 | a clone shares the log and starts at the same position with the same seek |
| Channels.Channel.Close | services/avery/src/channels.rs:551-553 | the shared flag is set and nothing else changes |
| Channels.Channel.Append | services/avery/src/channels.rs:584-624 | closed, mistyped and successful appends; on success every old element stays and the new ones follow in order |
| Channels.Channel.PollRead | services/avery/src/channels.rs:859-888 | whatever other polls leave in the cursor between tries, the poll reserves one window from a position it found there |
| Channels.Channel.StartSeek | services/avery/src/channels.rs:683-690 | a second seek before completion is refused and changes nothing |
| Channels.Channel.PollComplete | services/avery/src/channels.rs:692-737 | the answer is the position before the seek, and a seek that meets a writer is forgotten |
| Channels.ChannelSet.FromSpecs | services/avery/src/channels.rs:331-341 | a set made from specs has exactly their names, each with a handle and a log of its own, open, empty, of the right type and at the start |
| Channels.KindMatchesExactly | services/avery/src/channels.rs:625-640 | each type takes the data of its own kind, and a spec without a type takes a channel without data |
| Channels.ChannelSet.Merge | services/avery/src/channels.rs:187-222 | new handles on the logs of both sets, the other set's where names clash, at their sources' positions |
| Channels.MergeLaws | services/avery/src/channels.rs:187-222 | merging is associative up to shared logs, and commutes exactly if the sets agree on common names |
| Channels.ChannelSet.Validate | services/avery/src/channels.rs:118-175 | succeeds exactly for conforming sets and otherwise reports exactly what is wrong |
| Channels.ChannelSet.AppendChannel | services/avery/src/channels.rs:242-262 | the named log gets exactly the new elements behind the old ones, exactly if the channel is there, open and of the type; else nothing changes |
| Channels.ChannelSet.Reader | services/avery/src/channels.rs:225-233 | new handles on the same logs at the same positions |
| Channels.ChannelSet.CloseChannel | services/avery/src/channels.rs:270-274 | the named log is closed with its data as it was; an unknown name changes nothing |
| Validation.ReportsExactly | libraries/rust/firm-types/src/stream.rs:361-408 | a problem is reported exactly if it is there, in whatever order the maps are walked |
| Validation.ValidExactly | libraries/rust/firm-types/src/stream.rs:361-408 | validation succeeds exactly if required channels are present and matching, optional ones match, and there are no others |
| Validation.ReportsOnce | libraries/rust/firm-types/src/stream.rs:361-408 | nothing is reported twice when no name is both required and optional |
| ExpireMap.StepKeepsInv | services/avery/src/auth/expiremap.rs:19-45 | every step keeps an outstanding timer for each entry that is to expire |
| ExpireMap.ExpiredEntriesAreGone | services/avery/src/auth/expiremap.rs:19-45 | once the timers due by t have fired, no key is left whose latest insert expires by t, in every interleaving |
| ExpireMap.VanishesEarlyExactly | services/avery/src/auth/expiremap.rs:19-29 | an untouched entry can vanish before it expires exactly if an older insert's timer for its key is outstanding |
| ExpireMap.InsertedExpires | services/avery/src/auth/expiremap.rs:19-29 | a key inserted with an expiry and not touched since is gone after it |
| ExpireMap.ExpireMap.Insert | services/avery/src/auth/expiremap.rs:19-29 | the map and timers after an insert are those of its two steps, the write and the spawn |
| ExpireMap.ExpireMap.Remove | services/avery/src/auth/expiremap.rs:39-45 | the key is gone, its value is the answer, and its timer stays |
| ExpireMap.ExpireMap.FireTimer | services/avery/src/auth/expiremap.rs:24-27 | a due timer removes its key, whoever inserted it last |
| RemoteAccess.DueExactly | services/avery/src/auth.rs:1223-1235 | there is a due time exactly if the request has not expired and the time can be represented; the wrapped subtraction never gives one |
| RemoteAccess.DueWithinASecond | services/avery/src/auth.rs:1223-1235 | the due time is less than a second after the deadline, and not after it exactly if the first clock was read by the start of the second the other was read in |
| RemoteAccess.ApprovalExpires | services/avery/src/auth.rs:1219-1238 | an access-list entry from an approval is gone once the timers due within a second of the deadline have fired |
| RemoteAccess.AuthService.RequestAccess | services/avery/src/auth.rs:1068-1116 | known subjects need no request; otherwise a new unapproved request with a timer, or a refusal that changes nothing |
| RemoteAccess.AuthService.Approve | services/avery/src/auth.rs:1187-1261 | access is granted and one waker taken whatever the flag, and the answer shows the request with that flag; an expired request is only marked and fails |
| RemoteAccess.AuthService.Cancel | services/avery/src/auth.rs:1363-1392 | the request is removed and answered with its subject, expiry and flag, or not found |
| RemoteAccess.AuthService.Wait | services/avery/src/auth.rs:1308-1335 | a waiter waits on the state the pending request holds |
| RemoteAccess.WaitState.Poll | services/avery/src/auth.rs:911-929 | ready exactly if the flag is set; otherwise this waiter's waker is the one stored; and that is the protocol's poll step |
| RemoteAccess.WaitState.Approve | services/avery/src/auth.rs:1240-1246 | the flag is set and the stored waker taken to be woken; and that is the protocol's approval step, waking whom it wakes |
| Waiting.NoLostWakeup | services/avery/src/auth.rs:911-929 | with one waiter, while it is parked its waker is stored and the flag unset, so it is never parked once the flag is set |
| Waiting.ParkedCompletes | services/avery/src/auth.rs:911-929 | a waiter that parks is woken by the approval and completes when it polls again |
| Waiting.CompletesOnlyWhenApproved | services/avery/src/auth.rs:1240-1246 | a waiter completes only after an approval |
| Waiting.ApprovalWakesOne | services/avery/src/auth.rs:1240-1246 | an approval wakes the last waiter to park and leaves every other parked |
| Waiting.LosesWakeupExactly | services/avery/src/auth.rs:911-929 | without newcomers a parked waiter can lose its wakeup exactly if its waker is not in the slot or somebody else waits |
| Waiting.RemovalStrands | services/avery/src/auth.rs:1363-1392 | after a removal without approval no waiter is ever woken or completes |
| CertVersion.VersionIsPolynomial | services/lomax/src/tls.rs:244-253 | the fold is the polynomial in 33 with leading coefficient 5381, modulo 2^32 |
| CertVersion.JoinsWithSpaces | services/lomax/src/tls.rs:244-249 | the names are joined by single spaces |
| CertVersion.StepBijective | services/lomax/src/tls.rs:250-252 | for each character the step is a bijection on 32-bit words |
| CertVersion.CommonEnding | services/lomax/src/tls.rs:250-252 | a common ending neither hides nor makes a difference |
| CertVersion.VersionsDiffer | services/lomax/src/tls.rs:244-253 | texts that differ in exactly one character have different versions |
| CertVersion.PairCollidesExactly | services/lomax/src/tls.rs:244-253 | changing two neighbouring characters keeps the hash exactly if the second change is minus 33 times the first |
| CertVersion.VersionsCollide | services/lomax/src/tls.rs:244-253 | two different names, and a name and the two it is made of, with equal versions |
| Secrets.HeadFinds | services/quinn/src/config.rs:88-90 | the matcher finds a placeholder whatever follows it |
| Secrets.HeadIsPlaceholder | services/quinn/src/config.rs:88-90 | and a match is always a well-formed placeholder at that place |
| Secrets.MatchesExactly | services/quinn/src/config.rs:88-90 | what is matched at a place is exactly two opening braces, spaces, a type of word characters, a colon, a value of those and `.-?&/_=`, spaces and two closing braces |
| Secrets.FirstMatchIsLeftmost | services/quinn/src/config.rs:92-93 | the first match is the leftmost, and there is none exactly if no place in the text has one |
| Secrets.CapturesAll | services/quinn/src/config.rs:92-93 | the captures of a text are its placeholders in order when opening braces occur in them only |
| Secrets.GroupsRead | services/quinn/src/config.rs:126-129 | what references in a replacement text stand for: type, value or the whole by name or number, in braces or bare, and two dollar signs for one |
| Secrets.SecretTextExactly | services/quinn/src/config.rs:103-131 | a placeholder's text is what the first resolver with its type as prefix makes of its value, in a URI encoded so that it decodes to it; without one, or when it fails, that is the error |
| Secrets.ResolvesSimultaneously | services/quinn/src/config.rs:92-131 | for texts with opening braces in placeholders only and secrets without them that read as themselves, replacing the first match again and again is replacing all placeholders at once, and the error is the first placeholder's that cannot be resolved |
| Secrets.ReadsAsItselfExactly | services/quinn/src/config.rs:126-129 | a replacement text stands for itself exactly if no dollar sign in it is before another, a word character or a closed pair of braces |
| Secrets.OneSecretExactly | services/quinn/src/config.rs:92-131 | a text that is one placeholder becomes its secret exactly if the secret reads as itself |
| Secrets.UriResolvesSimultaneously | services/quinn/src/config.rs:123-129 | with URI encoding that holds whatever the secrets contain |
| Secrets.EncodedIsPlain | services/quinn/src/config.rs:123-125 | encoded secrets have neither opening braces nor dollar signs |
| Secrets.EncodingReadsBack | services/quinn/src/config.rs:123-125 | the encoding of any bytes decodes to them |
| Secrets.UnreservedStand | services/quinn/src/config.rs:123-125 | and letters, digits and the signs `*-._` are not changed |
| Secrets.OpeningBraceMisdirects | services/quinn/src/config.rs:92-131 | around a placeholder in `{{type:` and `}}`, every secret of value characters completes the outer text to a placeholder, and the next secret lands there |
| Secrets.DollarsAreRead | services/quinn/src/config.rs:126-129 | without encoding, two dollar signs in a secret become one |
| Arguments.TokensExactly | clients/bendini/src/commands/run.rs:29-40 | what is matched at a place is exactly a run of token characters, or those and spaces between double quotes, single ones among them, or between single quotes |
| Arguments.ListTokens | clients/bendini/src/commands/run.rs:29-40 | the tokens of a printed list are its words, bare or quoted either way |
| Arguments.ListsReadBackExactly | clients/bendini/src/commands/run.rs:24-45 | a printed list reads back exactly if no word has a newline |
| Arguments.PaddedListsReadBackExactly | clients/bendini/src/commands/run.rs:24-45 | also with spaces around the brackets |
| Arguments.TrimsQuotesExactly | clients/bendini/src/commands/run.rs:41-44 | an argument that is no list is itself without all quotes at its two ends |
| Arguments.NumbersReadBackExactly | clients/bendini/src/commands/run.rs:82-93 | a number printed in decimal parses exactly if the type can hold it |
| Arguments.IntegersReadExactly | clients/bendini/src/commands/run.rs:82-113 | integers are read exactly from digits with or without a sign, a minus only where negative numbers are, within the bounds |
| Arguments.ArgumentsRead | clients/bendini/src/commands/run.rs:48-121 | an argument is refused exactly if it is not declared; otherwise every text of its value gives the element it stands for in the declared type, or the first that stands for none is the error |
| Arguments.IntegersRoundTrip | clients/bendini/src/commands/run.rs:82-93 | every list of 64-bit integers printed as a list parses back |
| Arguments.StringsRoundTrip | clients/bendini/src/commands/run.rs:67-69 | and every list of words as strings, exactly if they are one-line |
| Arguments.AllParse | clients/bendini/src/commands/run.rs:114-124 | there are no errors exactly if every argument parses |
| Arguments.ErrorsInOrder | clients/bendini/src/commands/run.rs:114-124 | the errors are exactly those of the arguments that do not parse, in the order of the arguments |
| Arguments.GatherHas | clients/bendini/src/commands/run.rs:114-124 | the stream has exactly the channels that were named |
| Arguments.GatherLast | clients/bendini/src/commands/run.rs:114-124 | a channel's value is that of the last argument of its name |
| Streams.ManifestSplits | clients/bendini/src/manifest.rs:241-279 | the required inputs are exactly those marked so and the optional ones the others, each with its type |
| Streams.TypeMatchesExactly | libraries/rust/firm-types/src/stream.rs:361-408 | each type takes the values of its own kind and none takes a channel without a value |
| Streams.ParsedChannelFits | clients/bendini/src/commands/run.rs:48-125 | the stream has exactly the named channels, all of them expected and of the right type |
| Streams.Stream.Validate | libraries/rust/firm-types/src/stream.rs:361-408 | the method succeeds exactly for conforming streams and reports exactly what is wrong |
| Streams.Stream.SetChannel | libraries/rust/firm-types/src/stream.rs:352-354 | the named channel is replaced or added |
| Streams.Stream.Merge | libraries/rust/firm-types/src/stream.rs:356-359 | the channels of both, the other stream's where names clash |
| Streams.ParsedStreamsMissOnly | clients/bendini/src/commands/run.rs:48-125 | if the arguments parse, validation reports one missing channel per required input nobody named, and nothing else |
| Execution.ExecutionService.QueueFunction | services/avery/src/executor.rs:135-212 | an entry is queued exactly if the function was found and the arguments conform; else nothing changes and the problems are exactly what is wrong |
| Execution.ExecutionService.RunFunction | services/avery/src/executor.rs:214-240 | takes the entry out, and what runs has arguments that conform |
| Execution.ExecutionService.FunctionOutput | services/avery/src/executor.rs:362-390 | the receiver is handed out once, while queued |
| Execution.OrderlyGrows | services/avery/src/executor.rs:178-233 | an event that may come next keeps the history orderly: each id queued first, nothing twice, nothing after the start; every method keeps the history of the queue so |
| Execution.RunsOnce | services/avery/src/executor.rs:214-233 | in such a history an id is started at most once, its output given at most once, and never after the start |
| Printer.BufferedChannelPrinter.Push | clients/bendini/src/commands/run.rs:261-275 | printed text and buffer together are always what was pushed, and only whole lines are printed |
| Printer.BufferedChannelPrinter.Finish | clients/bendini/src/commands/run.rs:277-287 | in the end everything pushed has been printed, with a newline added only after an incomplete last line |
| Upload.GenerateChunks | clients/bendini/src/commands/register/attachments.rs:259-276 | the loop ends with the specified chunks |
| Upload.SendsAllExactly | clients/bendini/src/commands/register/attachments.rs:259-276 | the chunks are the file exactly if every read before the end gives all it can |
| Upload.ChunkShape | clients/bendini/src/commands/register/attachments.rs:259-276 | with full reads all chunks but the last are full and there is one more than full ones fit |
| Upload.CountsExactly | clients/bendini/src/commands/register/attachments.rs:251-251 | the expected chunk count is right exactly for sizes that are no multiple of the chunk size, unless the last read fails |
| Upload.OneChunkMiscounts | clients/bendini/src/commands/register/attachments.rs:251-276 | a file of 8192 bytes is sent whole in two chunks where one is expected |
| Upload.UploadReassembles | services/avery/src/registry.rs:84-193 | with full reads the registry's file is the file sent over what was there, the same file exactly if that was no longer, and the answer is success exactly if the digest of the whole file is the attachment's checksum; only an empty file that cannot be read is not sent |
| Upload.UploadViaGrpc | clients/bendini/src/commands/register/attachments.rs:237-306 | client and registry together: with full reads the upload succeeds exactly if the digest is right and the size no multiple of the chunk size, unless the last read fails; the false failure and the others are told apart |
| WindowsRegistry.RemoveUndoesAddExactly | libraries/rust/windows-install/src/registry.rs:417-478 | for a location without semicolons, removing after adding restores the path exactly if it was absent or present where removal does not touch it |
| WindowsRegistry.RemoveUndoesAdd | libraries/rust/windows-install/src/registry.rs:417-478 | for every path and location: restored exactly if the location was present where removal does not touch it, or was absent and the path from where the semicolon and location first occur after adding commutes with them |
| WindowsRegistry.RemovesEntriesExactly | libraries/rust/windows-install/src/registry.rs:446-478 | removal takes exactly the equal entries off, unless it happens while another entry begins with the location |
| WindowsRegistry.OnPathExactly | libraries/rust/windows-install/src/registry.rs:460-464 | something is removed exactly if the location ends the path or stands between semicolons |
| WindowsRegistry.RemovesFirst | libraries/rust/windows-install/src/registry.rs:465-468 | what is before the first occurrence stays, the occurrence goes, and so on behind it |
| WindowsRegistry.FirmwareIsBroken | libraries/rust/windows-install/src/registry.rs:460-475 | removing `C:\Program Files\Firm` breaks the entry `C:\Program Files\Firmware` |
| WindowsRegistry.SemicolonsBreakUndo | libraries/rust/windows-install/src/registry.rs:417-478 | a location with a semicolon for which removing after adding does not restore the path |
| WindowsRegistry.PendingRoundTripExactly | libraries/rust/windows-install/src/registry.rs:507-571 | the list reads back as stored exactly if no entry is empty, has a newline or ends in a carriage return |
| WindowsRegistry.AnyLinesRead | libraries/rust/windows-install/src/registry.rs:507-548 | whatever is in the registry, its lines are read in order, without a carriage return at their ends, and empty ones left out |
| WindowsRegistry.MarkingAppendsExactly | libraries/rust/windows-install/src/registry.rs:585-600 | marking appends exactly the marked paths exactly if all entries can be stored |
| WindowsRegistry.CancelsExactly | libraries/rust/windows-install/src/registry.rs:480-505 | cancelling drops exactly the directory and what lies in it, the others in order, exactly if no entry is confused by a dot or continues the directory's name |
| WindowsRegistry.DroppedSplits | libraries/rust/windows-install/src/registry.rs:493-500 | filtering looks at the entries one after the other and keeps their order |
| WindowsRegistry.NamesContinue | libraries/rust/windows-install/src/registry.rs:480-492 | every directory without a separator at its end has entries that continue its name |
| WindowsRegistry.FirmwareIsCancelled | libraries/rust/windows-install/src/registry.rs:480-505 | cancelling for `C:\Firm` drops a pending deletion in `C:\Firmware` |
| WindowsRegistry.DotsConfuse | libraries/rust/windows-install/src/registry.rs:480-492 | every directory with a dot confuses some entry |
| WindowsRegistry.RegistryEditor.AddToPath | libraries/rust/windows-install/src/registry.rs:417-444 | after success the location occurs in the path; after failure nothing changed |
| WindowsRegistry.RegistryEditor.RemoveFromPath | libraries/rust/windows-install/src/registry.rs:446-478 | the new path is the removal the entry theorems are about; after failure nothing changed |
| WindowsRegistry.RegistryEditor.CancelPendingDeletions | libraries/rust/windows-install/src/registry.rs:480-505 | the entries left are those the pattern does not match, and those outside the directory exactly under the condition above; after failure nothing changed |
| WindowsRegistry.RegistryEditor.MarkPathsForDelete | libraries/rust/windows-install/src/registry.rs:585-600 | the entries afterwards are the former ones and the marked paths when they can be stored; after failure nothing changed |
| Changelog.TextReadsBack | extensions/shells/release/changelog.py:25-34 | a version reads back from its text |
| Changelog.PaddedOrder | extensions/shells/release/changelog.py:25-42 | below 1000, padded versions compare by their numbers, then by prerelease and build as strings |
| Changelog.ReleasesInOrder | extensions/shells/release/changelog.py:25-42 | for releases that is the order of SemVer |
| Changelog.OrdersReleasesExactly | extensions/shells/release/changelog.py:39-41 | and 1000 is the exact bound |
| Changelog.PrereleasesSortAboveExactly | extensions/shells/release/changelog.py:37-41 | a prerelease sorts above its release, against SemVer, exactly if it begins with a character from the dot on |
| Changelog.LatestIsGreatest | extensions/shells/release/changelog.py:44-52 | the latest is a released entry no other exceeds, and there is none only if nothing is released |
| Changelog.LatestIsLast | extensions/shells/release/changelog.py:44-52 | of several that no other exceeds it is the last in the file |
| Changelog.LatestReleaseIsNewest | extensions/shells/release/changelog.py:44-52 | among releases below 1000 it is the numerically greatest |

## Left out

- Connections, streams over the network, TLS, JWT, OIDC, key stores, service plumbing: foreign calls without state of interest here.
- The runtimes and their memory views, and what an execution does after it left the queue.
- The list of remote access requests: filters, a sort and a page, like the listings that are modelled.
- `token_store`, `create_alias_map` and the rest of `authenticate` before the access list is asked.
- Postgres and cloud storage, which are not visible or only build URLs.
- Attachment storage in the other registry's memory: two map inserts and lookups.
- `merge_with` with an arbitrary closure: only the closure that keeps everything is used, as `merge`.
- Wakers of channels: which tasks an append wakes is not modelled, only that no append can take effect while a request lives.
- Panics on arithmetic overflow in debug builds: the cursor arithmetic is that of release builds.
- A view whose start lies behind its end after a wrapped read: slicing would panic; the theorems name the sizes for which that cannot happen.
- Errors of a poisoned mutex.
- Floats beyond their bit patterns, and the text form of floats, which is a parameter.
- Python's `int` accepts spaces, underscores and other digits; the text form is modelled for plain digits.
- Regular expression characters other than the dot in a directory whose deletions are cancelled: the compiled pattern is a parameter, specified for paths without them.
- Failing to open a registry key, to begin a transaction or to roll one back.
- ProxyConflicts.ServedFailsExactly: the limit is one that all sources cut at; sources that clamp it to different numbers are covered when nothing fails (LimitPushdown).
- ProxyClamps.ClampShowsExactly: of several clamping sources only the first thousand entries are shown right; how many more are depends on what each has beyond them.
- Dropping an append that still waits for its lock: it has changed nothing.
- ProxyConflicts.TiedVersionsShareAnAnswer: which offsets go unnoticed among versions that tie is not characterized; without ties it is.
- ExecutionLookup.QueueByName: other registries that fail make the request fail like the own one, and which failure it is is not kept apart.
- Secrets.OpeningBraceMisdirects: the exact set of stray braces that do harm depends on the secrets; the lemma covers those around a placeholder, the theorem all texts without stray ones.
- Quinn's `limit` conversion from 32 bits: limits are natural numbers.
