# PulseWeaver, verified

PulseWeaver keeps a registry of the IP addresses that users' devices currently speak from, and answers allow or deny for a reverse proxy. This project models the parts of it whose correctness depends on several functions, transactions or goroutines at once, and proves what they promise.

| file | what it models |
|---|---|
| `Like`, `Sql`, `Filters`, `Keyset`, `Paging` | the list-query engine: LIKE escaping, SQL conditions under three-valued logic, filters, cursors, and a walk over pages of a table that changes between requests |
| `AccessLog`, `AccessLogHandler`, `Histogram`, `Listing` | the access-log view: its column registry, the joins its aggregates leave out, the handler that pages it by tokens, the time buckets of its chart, and what a query asks for, told in the columns' own names |
| `Registry`, `RegistryStore`, `History` | devices, API keys, addresses and the address audit log, transaction by transaction; and the event kinds the history view reads off the log |
| `LeaseProtocol`, `LeaseService`, `CapProtocol` | the two listeners that derive leases and cap enforcement from the registry through bounded channels, in any interleaving |
| `Risk`, `Tuning`, `Renewals` | the gaps between a device's renewals, told from the audit log; their lease-risk bands, the chart that counts each device once, and the 95th-percentile test for TTLs that are too short |
| `HostTables`, `HostGroups`, `HostReconcile`, `Slices` | hosts, host groups and memberships under unique indexes and foreign keys, and the two reconcilers |
| `Sink` | the access-log sink: bounded channel, reused batch buffer, drain on shutdown |
| `Pairing` | device pairing codes, redeemed at most once |
| `Cidr` | network-policy prefixes: normal form, breadth limit, and what the policy cache makes of them |

The parts that compute values are datatypes, functions and lemmas. The parts that change state are classes or methods over the same state, each tied by its contract to the function or state machine the lemmas are about. A transaction is one atomic step that commits or leaves the tables as they were; a protocol is a state machine whose steps may come in any order that its guards allow.

## What the proofs found

Where the code and its comments or neighbours disagree, the model follows the code.

- **Tuning.** A comment calls `p95 > ttl` "itself the >5% of renewals arrived late test" (`internal/device/address_history_tuning_view.go:143-146`). Late renewals count from the TTL itself, so for a positive TTL the two tests differ exactly when over a twentieth of the renewals reach it and no more than a twentieth outlast it (`Tuning.LateTestAgreesIff`); a device that always renews at its TTL is always late and never ranked (`Tuning.AlwaysLateNeverRanked`).
- **Zero TTL.** A ranked device has over a twentieth of its renewals late if and only if its TTL is not zero (`Tuning.RankedAreLateIff`): dividing by zero gives NULL, so every gap would read `ok` (`Tuning.ZeroTTLRanksWithNoneLate`). Only the HTTP layer rules that out: the request schema asks for at least 1 (`api/components/schemas/rules.yaml:19-22`) and is enforced before the handler (`internal/httpserver/routes.go:112`), while the service and the parser of stored configurations accept 0 (`internal/rule/rule.go:80-93`). The running program is right because of that outer check; the theorem says what the check protects.
- **Histogram.** The list reads a window end at Go's zero time as "no end"; the bucket sequence reads it as an instant. For any filters, chart and list agree on every log exactly when the end is given or nothing can pass the filters (`Histogram.ConservesIffEndGiven`).
- **Buckets.** Two comments put the sequence at no more than 168 buckets (`internal/accesslog/access_log_histogram_view.go:42`, `internal/timebucket/granularity.go:109`). A window of exactly seven days has 169, and a long enough one any number; `Histogram.LadderBoundsSequence` says exactly which.
- **Host names.** Deletes run first so that their names can be reused, says the comment in `internal/hosts/reconcile_hosts.go:105-107`; but planning has already refused any name in use by a host being deleted (`HostReconcile.RemovedNameIsRefused`).
- **Group names.** The comment in `internal/hosts/reconcile_groups.go:111-114` names only the exchange of two names as unhandled. Any update that takes a name a later update has yet to give up fails too, so whether a hand-off of names commits depends on the order of the request (`HostGroups.OrderDecides`). `HostGroups.ReconcileCommitsIff` gives the exact condition.
- **Mapped prefixes.** An IPv4 prefix and its IPv4-mapped twin match the same clients but have different normal forms, so the unique CIDR of a policy does not see that they are one (`Cidr.MappedTwinIsStoredApart`). Of two accepted prefixes with the same clients, the stored forms differ exactly when one is written as IPv4 and the other as IPv6 (`Cidr.StoredApartIff`).
- **Leases.** Three things can spoil the lease table. Two notices about one address may reach the channel in the other order than their transactions committed: a disabled address can then be left with a lease (`LeaseProtocol.OvertakenNoticeLeavesLease`), and when its device has no TTL nothing ends it (`LeaseProtocol.LeaseCanOutliveAddress`, a run from an empty system); with a TTL the expiry job disables the address again and so clears the lease (`LeaseService.ExpiryClearsLeases`). A full channel drops; and changes of the other rule type, which the listener only passes over, fill the rule channel too (`internal/lease/service.go:124-127`). Finally the send also gives up when the request's context is done (`internal/lease/service.go:71-73`, `84-85`), so a client that disconnects after the commit can lose a notice that was in turn for a channel with room: a new address is then enabled without a lease (`LeaseProtocol.CancelledRequestLosesLease`; `LeaseProtocol.LeaseCanBeMissed` gets there from an empty system), and the expiry job never finds it (`LeaseService.UnleasedNeverExpires`). `LeaseProtocol.SendTracksExactly` and `LeaseProtocol.SendRuleTracksExactly` say exactly which sends, kept or lost, keep the lease table right, and `LeaseProtocol.RestingLeaseIsRightIff` which address's lease is right when all is quiet again.
- **Caps.** If a full channel drops the only notice about a device over its cap, nothing is left that will enforce the cap (`CapProtocol.DroppedNoticeForgets`), and that lasts, whatever else commits, until an activation of the device is announced, one of its addresses is turned off or its cap is changed (`CapProtocol.ForgottenForGood`); a run from an empty system gets there (`CapProtocol.DropCanForget`). `CapProtocol.SendHoldsExactly` and `CapProtocol.SendRuleHoldsExactly` say exactly which sends are harmless.

## Model

| member | source | states |
|---|---|---|
| Like.ReplacementsEscapeOnce | internal/database/like.go:10-15 | The three successive replacements equal one escape applied to each character, so no escape is itself escaped again |
| Like.ContainsMeansSubstring | internal/database/like.go:10-15 | For all strings, `%` + escaped text + `%` matches a text exactly when the searched text occurs in it, ASCII case aside |
| Like.FoldMeans | internal/database/like.go:10-15 | Two characters compare alike exactly when they are the same or the two cases of one ASCII letter |
| Like.WildcardsMean | internal/database/like.go:10-15 | Unescaped, a percent sign stands for any text and an underscore for any one character |
| Filters.Condition | internal/filterx/filterx.go:113-149 | A condition is built exactly for a known column, an allowed operator, one to 200 values where the operator takes values, and string values on a non-relational column for the substring operators |
| Filters.RefusalsAre | internal/filterx/filterx.go:113-149 | What a refused filter is refused for, in the order of the checks |
| Filters.BuildLikeCondition | internal/filterx/filterx.go:181-199 | The loop over values builds the disjunction of LIKEs, or the conjunction of NOT LIKEs, and stops at the first non-string |
| Filters.LikeConditionMeans | internal/filterx/filterx.go:178-199 | Under WHERE, contains keeps a row when some value occurs in the column, not-contains when none does, and neither keeps NULL |
| Filters.ConditionMeans | internal/filterx/filterx.go:151-222 | Each operator keeps exactly the rows it is for, except a row with a NULL in a column that does not declare NULLs |
| Filters.NegationPartitions | internal/filterx/filterx.go:151-222 | Exactly one of an operator and its negation keeps a row, if and only if neither meets an undeclared NULL |
| Sql.EvalReadsOnly | internal/filterx/filterx.go:151-222 | The value of a condition depends only on the columns it reads |
| Sql.LessMeans | internal/filterx/cursor.go:99-110 | Values sort NULL first, then integers by size, then texts by their first difference |
| Keyset.KeysetIsStrictlyAfter | internal/filterx/cursor.go:163-200 | For every sort column, direction and NULL placement, the keyset predicate keeps a row exactly when it comes strictly after the cursor row in ORDER BY order |
| Keyset.BeforeStrictTotal | internal/filterx/cursor.go:99-110 | The ORDER BY with the id as tie-breaker is a strict total order |
| Keyset.BeforeMeans | internal/filterx/cursor.go:99-110 | Ascending puts the lesser value and then the lesser id first; descending the greater |
| Keyset.OrdersAre | internal/filterx/cursor.go:99-110 | The two orders have just their two names |
| Keyset.MintedTokenDecodes | internal/filterx/cursor.go:115-156 | A token is minted exactly for a known sort and order, and decodes to its row's cursor, or fails exactly when the value is not of the column's kind |
| Keyset.DecodedTokenIsMinted | internal/filterx/cursor.go:115-156 | Whatever decodes is the token its cursor would be minted as |
| Paging.PageLimit | internal/accesslog/access_log_view.go:283-292 | A limit from 1 to 200 is used as given, a larger one becomes 200, and none or a non-positive one 50 |
| Paging.PageRows | internal/accesslog/access_log_view.go:427-443 | A page is in order, beyond its cursor, and misses a matching row only if it is full and the row comes after it |
| Paging.WalkIncreases | internal/filterx/cursor.go:158-200 | Following cursors over a changing table lists rows in strictly increasing ORDER BY order |
| Paging.WalkRepeatsNothing | internal/filterx/cursor.go:158-200 | No row is listed twice, whatever is appended or pruned between requests |
| Paging.WalkListsMatches | internal/accesslog/access_log_view.go:427-443 | Every listed row was in the table and matched at some request |
| Paging.WalkMissesNothing | internal/filterx/cursor.go:158-200 | A finished walk lists every row that was there and matched at every request |
| Paging.PagesConcatenate | internal/accesslog/handler_access_log.go:35-49 | On a table that stands still the pages concatenate to the whole filtered, sorted list |
| Paging.WalkFinishes | internal/accesslog/handler_access_log.go:40-49 | A client that keeps asking meets a page without a cursor after at most one request more than there are rows |
| AccessLog.LeftJoinKeepsRows | internal/accesslog/access_log_view.go:407-420 | A one-to-one left join neither drops nor multiplies rows |
| AccessLog.ChildSupplies | internal/accesslog/access_log_view.go:407-420 | The columns joined to a log row are those of the child row with its id, or none |
| AccessLog.ConditionReads | internal/accesslog/access_log_view.go:46-101 | A registry condition reads no column but its own |
| AccessLog.JoinElisionPreserves | internal/accesslog/access_log_view.go:387-399 | Over the joins a query's filters reference and over both joins, the same log rows pass the same WHERE set |
| AccessLog.TotalIsListingLength | internal/accesslog/access_log_view.go:401-427 | The total, counted over the elided joins, is the length of the whole listing |
| AccessLog.RegistryPartitions | internal/accesslog/access_log_view.go:46-101 | Every access-log filter and its negation split the log, given that the client IP is never NULL |
| AccessLogHandler.SortValueIsColumn | internal/accesslog/access_log_view.go:587-617 | For every sort of the registry, the value minted from a scanned row is the row's own and of the column's kind, so the cursor round-trips |
| AccessLogHandler.ShownRowIs | internal/accesslog/handler_access_log.go:35-38 | Each field of a shown row is the scanned row's column of that name, absent for NULL |
| AccessLogHandler.GetAccessLog | internal/accesslog/handler_access_log.go:35-55 | Each row is shown in turn; a full page, and no other, carries a token, which decodes to a cursor at its last row |
| AccessLogHandler.TokenIsNextCursor | internal/accesslog/handler_access_log.go:40-49 | The token of a page is there exactly when there is a next cursor, and decodes to it |
| AccessLogHandler.TokenWalkIsWalk | internal/accesslog/access_log_view.go:294-305 | A client that sends back each token is never refused and lists exactly what following the cursors lists, in the first page's sort and order |
| Histogram.Sequence | internal/timebucket/granularity.go:107-121 | The bucket starts are contiguous, from the bucket of the window's start to the bucket of its end, and there are none exactly when the window ends a bucket before it starts |
| Histogram.SequenceLength | internal/timebucket/granularity.go:107-121 | A window has one bucket, and one more for each bucket boundary it crosses |
| Histogram.LadderBoundsSequence | internal/timebucket/granularity.go:55-68 | With the granularity chosen for the window, at most seven days give at most 169 buckets and exactly when 169; a longer window passes 168 exactly when it reaches as many days |
| Histogram.LadderRungs | internal/timebucket/granularity.go:55-68 | Windows up to five minutes have buckets of a minute, up to an hour of five minutes, up to a week of an hour, and longer ones of a day |
| Histogram.TrafficBuckets | internal/accesslog/access_log_histogram_view.go:54-131 | The loop gives one aggregate per bucket of the sequence, and fails exactly when the filters do |
| Histogram.BucketBoundsMean | internal/accesslog/access_log_histogram_view.go:64-92 | A bucket's bounds are its own interval cut to the window |
| Histogram.HistogramConserves | internal/accesslog/access_log_histogram_view.go:40-131 | For any filters, the buckets' allow and deny counts sum to the allowed and denied rows the list returns for the same query |
| Histogram.ConservesIffEndGiven | internal/accesslog/access_log_view.go:359-368 | For any filters, the chart agrees with the list on every log exactly when the window's end is not the zero time or no row can pass the filters |
| Histogram.ZeroEndLosesRows | internal/accesslog/access_log_view.go:359-368 | With the zero time as end, any row that passes the filters is listed and never charted once it is created a bucket past the start |
| Listing.QueryAcceptedIff | internal/accesslog/access_log_view.go:46-101 | A query is accepted exactly when each filter names a column, with an operator that column takes and one to 200 suitable values where the operator needs them |
| Listing.FilterMeans | internal/accesslog/access_log_view.go:46-101 | An accepted filter keeps exactly the rows whose column of that name, or whose contributors, are as it asks |
| Listing.ListsWanted | internal/accesslog/access_log_view.go:359-388 | The list is exactly the rows within the window, of the outcome asked for, that every filter asks for |
| Listing.ChartCountsWanted | internal/accesslog/access_log_histogram_view.go:54-131 | Each bucket is of its own start, and its allow and deny are the numbers of such allowed and denied rows up to the next start |
| Registry.StepKeepsInv | internal/device/service.go:173-286 | Every transaction keeps: only a live, enabled device has enabled addresses; one row per device and IP; keys only of live devices; each row agrees with its last audit event |
| Registry.RunKeepsInv | internal/device/addresses.go:24-137 | So does every run of transactions |
| Registry.DisableAddressesCommits | internal/device/address_repository.go:133-156 | Disabling a batch commits exactly when every address exists |
| Registry.DisableAddressesEffect | internal/device/address_repository.go:133-156 | It turns off the listed addresses, touches nothing else, and announces each in turn |
| Registry.AllowlistHoldsNoFrozenDevice | internal/device/address_repository.go:167-191 | Over every run, the allowlist query, which does not ask whether a device is disabled, never returns an address of a disabled or deleted device |
| Registry.DeletedForever | internal/device/service.go:173-216 | A deleted device never returns and never holds a key or an enabled address again |
| Registry.DisablingFreezes | internal/device/service.go:223-263 | A disabled device keeps its owner and key, has no enabled address and is refused every registration; other devices are untouched |
| Registry.FrozenUntilEnabled | internal/device/service.go:223-286 | And so it stays over every run in which it is not enabled again |
| Registry.EnabledCanRegister | internal/device/service.go:269-286 | Enabled again, or just created, it can register at once, and nothing else has come on |
| Registry.RegistrationSucceeds | internal/device/addresses.go:24-84 | A registration succeeds exactly for a live, enabled device, and leaves its address on and dated |
| Registry.OwnersAndKeys | internal/device/service.go:298-349 | A new device has its owner and just the key given; handing over changes the owner alone; keys are set and removed for the one device |
| Registry.FailuresAre | internal/device/service.go:173-349 | Each failure of a transaction has its one reason: no live device, a disabled one, an unknown address, another device's, or no key |
| Registry.StepIsLogged | internal/device/address_repository.go:212-254 | A transaction logs exactly what it announces, row by row, under its own source, trigger and time |
| Registry.PruneKeepsAudited | internal/device/address_repository.go:16-22 | Retention keeps each row in agreement with its last surviving audit event |
| Registry.PrunedAre | internal/device/address_repository.go:16-22 | Exactly the audit rows at or after the time survive retention |
| Registry.StepIsTruthful | internal/device/addresses.go:24-137 | The notices of a transaction name their row's device and final state, and every change of state is announced, every activation as created or enabled |
| RegistryStore.Store.RecordAddressEvent | internal/device/address_repository.go:224-254 | One audit row is appended and the address row brought into line with it |
| RegistryStore.Store.RegisterAddressActivity | internal/device/addresses.go:24-84 | The tables and the answer are those of the specified transaction: created, enabled or refreshed, or an error that changes nothing |
| RegistryStore.Store.DisableOne | internal/device/addresses.go:87-119 | Likewise for one address, which must be the device's own |
| RegistryStore.Store.DisableMany | internal/device/address_repository.go:133-156 | Likewise for a batch, rolled back whole on an unknown address |
| RegistryStore.Store.Delete | internal/device/service.go:173-216 | Likewise for a device with its enabled addresses and its key |
| RegistryStore.Store.Disable | internal/device/service.go:223-263 | Likewise for disabling a device with its enabled addresses |
| RegistryStore.Store.Enable | internal/device/service.go:269-286 | Likewise for enabling a device, which enables no address |
| RegistryStore.Store.UpdateDevice | internal/device/service.go:298-320 | Likewise for a device that changes hands or stays with its owner, and observers are told exactly when a user ceases to own it |
| RegistryStore.Store.RegenerateKey | internal/device/service.go:322-349 | Likewise for a new key of a live device |
| RegistryStore.Store.GetDeviceIDsByOwner | internal/device/device_repository.go:141-149 | Exactly the live devices of the user, each once |
| RegistryStore.Store.OnUserDeleted | internal/device/service.go:369-391 | The live devices of the deleted user go with their keys and enabled addresses, no other device's rows change, and no live device of the user is left |
| RegistryStore.DeletedAllGone | internal/device/service.go:381-388 | Deletions one after another, each a transaction of its own, together delete exactly the devices listed |
| RegistryStore.UserLeavesNothing | internal/device/service.go:369-391 | For the list of a user's live devices, that leaves no live device of the user |
| RegistryStore.UserStaysGone | internal/device/service.go:298-391 | Over every later run, with devices changing hands: what a deleted user owned is dead for good, and unless a device is created for the user or handed to it, it owns no live one |
| RegistryStore.Store.PruneEvents | internal/device/address_repository.go:16-22 | Exactly the audit rows older than the given time go |
| History.KindsDescribeFlags | internal/device/address_history_view.go:97-108 | Each event's kind is the change of state at its place among its address's events |
| History.KindsDecode | internal/device/address_history_view.go:97-108 | The kinds and the first state reconstruct every recorded state |
| History.SwitchesAlternate | internal/device/address_history_view.go:97-108 | Between two enabled kinds there is a disabled one, and the other way round |
| History.PruneRelabelsOldest | internal/device/address_history_view.go:97-108 | Retention drops the oldest kinds of an address and makes the oldest survivor read as created, no more |
| History.RegistrationReadsAsAnnounced | internal/device/addresses.go:24-84 | While nothing is pruned, the kind the history gives a registration is the kind its observers were told |
| History.DisablingReadsAsAnnounced | internal/device/addresses.go:87-119 | A switched-off address is announced as disabled, and so reads in the history exactly when it was on before |
| History.StepKeepsComplete | internal/device/address_repository.go:50-81 | Every transaction but retention keeps an audit event for each address and none for any other |
| LeaseProtocol.SendTracksExactly | internal/lease/service.go:69-80 | A notice sent in or out of turn, kept or lost, keeps the lease table right exactly when it is harmless: a later one about its address is waiting, or it is kept in turn, or what was to be seen last agrees with it |
| LeaseProtocol.SendRuleTracksExactly | internal/lease/service.go:82-93 | Likewise for a rule change of either type, kept or lost |
| LeaseProtocol.ActionTracks | internal/lease/service.go:95-137 | A step of the registry, the rules or the listener keeps the lease table, read through what is pending, equal to the enabled addresses and their devices' TTLs, exactly when it is orderly |
| LeaseProtocol.RunTracks | internal/lease/service.go:95-137 | So does every orderly run, under any interleaving of the two channels |
| LeaseProtocol.StartTracks | internal/lease/service.go:33-41 | An empty system starts that way |
| LeaseProtocol.LeasesConverge | internal/lease/repository.go:25-94 | Once all is sent and absorbed, an address has a lease exactly while it is enabled, and it expires the rule's TTL after it was written, or never without an enabled rule |
| LeaseProtocol.RunKeepsDated | internal/lease/service.go:124-137 | Over every run, a lease is dated only when it was written or when a lease rule was changed |
| LeaseProtocol.InTurnIsHarmless | internal/lease/service.go:69-80 | A notice sent in commit order for its address and kept is harmless |
| LeaseProtocol.InTurnRuleIsHarmless | internal/lease/service.go:82-93 | So is a rule change in order for its device and kept |
| LeaseProtocol.RestingLeaseIsRightIff | internal/lease/service.go:95-137 | Whatever commits about other addresses, an address that nothing announces has the right lease at rest if and only if it was being tracked before |
| LeaseProtocol.AnnouncementHeals | internal/device/addresses.go:18-22 | A transaction that announces an address puts its lease right again, whatever went wrong before |
| LeaseProtocol.OvertakenNoticeLeavesLease | internal/lease/service.go:95-122 | A disable announced before the registration it undid leaves a disabled address with a lease |
| LeaseProtocol.LeaseCanOutliveAddress | internal/lease/service.go:95-122 | A run from an empty system ends quiet with a disabled address holding a lease that never expires |
| LeaseProtocol.CancelledRequestLosesLease | internal/lease/service.go:69-80 | With every channel empty and the send in turn, losing the notice of a first registration to a cancelled request leaves an enabled address without a lease, and all quiet |
| LeaseProtocol.LeaseCanBeMissed | internal/lease/service.go:69-80 | A run from an empty system ends that way for a device with any TTL |
| LeaseService.Service.OnAddressEvent | internal/lease/service.go:69-80 | A notice joins the channel or is lost: lost for certain when there is no room, kept for certain when there is room and the request is not cancelled |
| LeaseService.Service.OnRuleEvent | internal/lease/service.go:82-93 | Likewise for a rule change, of whatever type |
| LeaseService.Service.AddAddressLease | internal/lease/service.go:43-57 | One lease is written or replaced: it is of the device, dated now, and expires the TTL after that, or never without one; all others stay |
| LeaseService.Service.ClearAddressLease | internal/lease/service.go:59-62 | The address has no lease, and all others stay |
| LeaseService.Service.SetDeviceAddressLeasesExpiry | internal/lease/repository.go:84-94 | Exactly the leases of the device take the new expiry |
| LeaseService.Service.GetExpiredAddressIDs | internal/lease/repository.go:63-82 | Exactly the addresses whose lease has run out, each once |
| LeaseService.Service.RunExpiry | internal/lease/expiry_job.go:34-49 | Exactly the addresses whose lease has run out are disabled, announced and logged as expired, and no lease or other address changes |
| LeaseService.ExpiryTakesExactly | internal/lease/repository.go:63-82 | When all is quiet, the expiry run turns an address off exactly when its device's rule is enabled and the rule's TTL, counted from when the lease was written, is over |
| LeaseService.EnabledAreWithinTTL | internal/lease/expiry_job.go:34-49 | Once all is quiet and the expiry job has run, every address still enabled has a lease, and the device's TTL, if any, has not run out since it was written |
| LeaseService.ExpiryClearsLeases | internal/lease/expiry_job.go:34-49 | The notices of an expiry run, once sent and absorbed, take the leases that had run out with them, whatever else goes on |
| LeaseService.UnleasedNeverExpires | internal/lease/expiry_job.go:34-49 | An enabled address left without a lease stays enabled and is never found by the expiry job at rest, TTL or no TTL, until something announces it |
| LeaseService.Service.Listen | internal/lease/service.go:95-137 | One iteration of the listener is one turn of the state machine |
| LeaseService.TurnTracks | internal/lease/service.go:95-137 | A turn keeps the lease table right |
| CapProtocol.Service.OnAddressEvent | internal/maxaddr/service.go:52-64 | Only created and enabled addresses join the channel |
| CapProtocol.Service.OnRuleEvent | internal/maxaddr/service.go:68-79 | A rule change joins its channel, or is dropped when it is full |
| CapProtocol.Service.Enforce | internal/maxaddr/service.go:99-147 | Nothing without a cap or an excess; otherwise exactly the excess, from the oldest, sparing the address just registered |
| CapProtocol.EvicteesCount | internal/maxaddr/service.go:119-133 | The scan evicts exactly the excess, each once, never the protected address |
| CapProtocol.SurvivorsAreNewer | internal/maxaddr/service.go:119-133 | Within one call, whoever survives, the protected address aside, is no older than anyone evicted |
| CapProtocol.EvictionIsLogged | internal/maxaddr/service.go:120-146 | One eviction turns off, announces and logs exactly the excess, put down to the limit |
| CapProtocol.SendHoldsExactly | internal/maxaddr/service.go:52-64 | Offering a notice keeps every over-cap device in view exactly when there is room, another activation of its device waits, or its enforcement is waiting or under way and covers it |
| CapProtocol.SendRuleHoldsExactly | internal/maxaddr/service.go:68-79 | Likewise for a rule change, whose loss the worker survives only if the cap it has read still holds |
| CapProtocol.ActionHolds | internal/maxaddr/service.go:83-147 | A step keeps this exactly when it is harmless: a device over its cap has an enforcement waiting or under way with a view that covers it |
| CapProtocol.RunHolds | internal/maxaddr/service.go:83-147 | So does every run, with other transactions between the reads and the write of an enforcement |
| CapProtocol.StartHolds | internal/maxaddr/service.go:39-48 | An empty system starts that way |
| CapProtocol.CapsEnforcedAtRest | internal/maxaddr/service.go:83-147 | Once everything is sent and handled, no device has more enabled addresses than its enabled rule's maximum |
| CapProtocol.DroppedNoticeForgets | internal/maxaddr/service.go:52-64 | With the worker idle, every harmful drop of a notice leaves its device over its cap with nothing on its way that will look at it |
| CapProtocol.ForgottenForGood | internal/maxaddr/service.go:83-147 | Through any run that announces no activation of the device, turns none of its addresses off and leaves its cap alone, the device stays over its cap and forgotten |
| CapProtocol.DropCanForget | internal/maxaddr/service.go:52-64 | A run from an empty system forgets a device that way |
| Risk.Rank | internal/device/address_history_view.go:122-142 | A level's rank is its place in the order of severity |
| Risk.ClassifyByTenths | internal/device/address_history_view.go:113-120 | For a positive TTL: breached from the TTL on, critical past nine tenths, approaching past seven tenths, else ok |
| Risk.LongerIsNoSafer | internal/device/address_history_view.go:113-142 | For one TTL, a longer gap never ranks lower |
| Risk.FoldRiskBuckets | internal/device/address_history_view.go:458-489 | One bucket per entry of the sequence, each band as the rows report it, zero without a row |
| Risk.FoldReportsBands | internal/device/address_history_view.go:415-489 | Whatever order the rows of the two-level query come in, each band is the number of devices whose worst rank in the bucket it is |
| Risk.FoldShowsLongestGaps | internal/device/address_history_view.go:464-489 | A bucket is of its own start and shows, under each level, the number of devices whose longest gap in it falls in that level in whole seconds |
| Risk.WindowHasRiskBuckets | internal/device/address_history_view.go:415-489 | Over the events of a window the query has a result, and none of its rows falls outside the window's sequence, so the fold drops nothing |
| Risk.WindowCountsDevicesOnce | internal/device/address_history_view.go:491-509 | Over a window, the bands of each bucket sum to the devices with a known risk at a moment of that bucket |
| Risk.BucketCountsDevicesOnce | internal/device/address_history_view.go:415-489 | The four bands of a bucket sum to the devices with a known risk there, and a bucket without any is all zero |
| Risk.BandIsOfLongestGap | internal/device/address_history_view.go:113-142 | A device's band is the one its longest gap in the bucket falls in |
| Tuning.P95ExceedsIff | internal/device/address_history_tuning_view.go:65-111 | The percentile exceeds a length exactly when more than one gap in twenty does |
| Tuning.P95IgnoresTies | internal/device/address_history_tuning_view.go:93-111 | However ties are numbered, the percentile is the same |
| Tuning.CutIsLastBelowTwenty | internal/device/address_history_tuning_view.go:68-70 | The cut is the last rank exactly when there are fewer than twenty gaps, and the percentile is then the longest gap |
| Tuning.LateIsAtLeastTTL | internal/device/address_history_tuning_view.go:85-91 | For a positive TTL, the late renewals are the gaps of at least the TTL |
| Tuning.RankingTestsFivePercent | internal/device/address_history_tuning_view.go:143-152 | A device is ranked exactly when it has ten renewals and over a twentieth of them strictly outlast the TTL; for a positive TTL its late renewals then pass a twentieth too |
| Tuning.RankedAreLateIff | internal/device/address_history_tuning_view.go:143-152 | A ranked device has over a twentieth of its renewals late exactly when its TTL is not zero |
| Tuning.LateTestAgreesIff | internal/device/address_history_tuning_view.go:143-152 | The percentile test and the late-renewal test differ exactly when over a twentieth of the gaps reach the TTL and no more than a twentieth outlast it, or, under a zero TTL, as soon as over a twentieth are positive |
| Tuning.AlwaysLateNeverRanked | internal/device/address_history_tuning_view.go:143-152 | Ten renewals exactly at the TTL are all late and leave the device unranked |
| Tuning.ZeroTTLRanksWithNoneLate | internal/device/address_history_tuning_view.go:143-152 | Under a zero TTL a device would rank with no late renewal |
| Renewals.GapsAreBetween | internal/device/address_history_view.go:74-89 | The gaps measured row by row are those between neighbouring renewals of the device, whatever else the log holds between them |
| Renewals.GapsTelescope | internal/device/address_history_view.go:74-89 | A device's gaps add up to the time from its first renewal to its last |
| Renewals.GapsAreNotNegative | internal/device/address_history_view.go:82-89 | In the registry's log no gap is negative |
| Renewals.LateRenewalsTakeTime | internal/device/address_history_tuning_view.go:85-91 | At a positive TTL, the late renewals times the TTL fit into the time from the first renewal to the last |
| Renewals.TerminationsLeaveGaps | internal/device/address_history_view.go:74-81 | Addresses disabled by expiry or the cap are no renewals: every device's gaps stay as they were |
| Renewals.RegistrationIsMeasured | internal/device/address_history_view.go:82-89 | A registration adds one gap, since the device's latest renewal through any address, or none if it is the first, and changes no other device's |
| Renewals.PruneTakesOldestGaps | internal/device/address_history_view.go:82-89 | Retention takes a device's oldest renewals with their gaps, and of the surviving ones only the oldest's gap |
| Renewals.RunKeepsKnown | internal/device/address_repository.go:212-254 | Over every run, every audit row is of a known address |
| Slices.Dedup | internal/slicex/slicex.go:8-22 | The loop keeps each element once, and the same elements |
| Slices.DedupedKeepsOrder | internal/slicex/slicex.go:6-22 | What is kept of a prefix is a prefix of what is kept |
| HostTables.InsertsCommit | internal/hosts/repository.go:189-207 | A run of inserts succeeds exactly when every pair refers to rows and none repeats, and then adds them all |
| HostTables.WriteGroup | internal/hosts/repository.go:131-207 | Writing a group under a free name gives it the row and exactly the hosts, and changes no other group |
| HostTables.WriteMembership | internal/hosts/repository.go:77-97 | Replacing a host's groups succeeds exactly when they exist, and changes no other host |
| HostTables.FailuresAre | internal/hosts/repository.go:32-187 | Each statement fails exactly on a missing row or a name in use, and deletions take the row and its memberships alone |
| HostTables.Store.Insert | internal/hosts/repository.go:189-207 | The loop of inserts is the specified one, undone on the first failure |
| HostTables.Store.ReplaceMembers | internal/hosts/repository.go:189-207 | A group's members are replaced, or nothing changes |
| HostTables.Store.SetMembership | internal/hosts/repository.go:77-97 | A host's groups are replaced, or nothing changes |
| HostTables.Store.CreateGroup | internal/hosts/repository.go:131-148 | A row and its members are added, or the name conflict or missing host is reported and nothing changes |
| HostTables.Store.UpdateGroup | internal/hosts/repository.go:150-175 | A row and its members are replaced, or the missing row, name conflict or missing host is reported and nothing changes |
| HostTables.Store.DeleteGroup | internal/hosts/repository.go:177-187 | A row goes with its memberships, or its absence is reported |
| HostTables.Store.AddHost | internal/hosts/repository.go:32-42 | A host is added under an unused name, or the conflict is reported |
| HostTables.Store.RemoveHost | internal/hosts/repository.go:44-54 | A host goes with its memberships, or its absence is reported |
| HostGroups.TrimSpaceFixes | internal/hosts/reconcile_groups.go:27-37 | A trimmed name starts and ends with no space and is not changed by trimming again |
| HostGroups.TrimSpaceDrops | internal/hosts/reconcile_groups.go:27-29 | Trimming takes spaces off both ends and nothing else |
| HostGroups.FaultsAre | internal/hosts/reconcile_groups.go:13-37 | A group is refused exactly for a name that is all spaces, or else for a colour that is not a hash and six hexadecimal digits |
| HostGroups.Prepare | internal/hosts/reconcile_groups.go:27-62 | Each group is normalised in place and checked in turn, up to the first fault; then repeated ids are refused; what is accepted is normalised and well-formed |
| HostGroups.BuildPlan | internal/hosts/reconcile_groups.go:144-193 | The plan is built exactly when every listed id exists, and is then the creations, the changed groups and the dropped ids, in order |
| HostGroups.ValidateReferencedHosts | internal/hosts/reconcile_groups.go:195-232 | The request is refused exactly when it mentions a host that does not exist |
| HostGroups.UpdatesCommit | internal/hosts/reconcile_groups.go:120-124 | The updates all succeed exactly when each finds its name free at its turn, and then each group has what was asked and no other has changed |
| HostGroups.CreatesCommit | internal/hosts/reconcile_groups.go:125-129 | The creations all succeed exactly when no name is in use or repeated |
| HostGroups.ReconcileCommitsIff | internal/hosts/reconcile_groups.go:107-134 | The transaction commits exactly when the desired names are distinct and no update takes a name that a later update still holds; it fails only by a name conflict; when it commits, groups and members are the desired image |
| HostGroups.ImageIsRequest | internal/hosts/reconcile_groups.go:107-134 | What a commit leaves, read off the request: each listed group as desired, each new one under a key of its own, and no other |
| HostGroups.SkippedUpdateIsNoOp | internal/hosts/host_group.go:20-49 | Updating a group of the same definition would change nothing, so leaving it out changes nothing |
| HostGroups.SwapFails | internal/hosts/reconcile_groups.go:108-114 | Two groups that exchange names never commit |
| HostGroups.OrderDecides | internal/hosts/reconcile_groups.go:107-134 | Of any two groups, one taking the name of the other and the other a new one: the transaction commits in one order of the request and fails in the other |
| HostGroups.RunPlan | internal/hosts/reconcile_groups.go:107-134 | The transaction's loops carry out the specified application, or restore the tables |
| HostGroups.ReconcileHostGroups | internal/hosts/reconcile_groups.go:88-138 | The whole call succeeds exactly when every check passes, the names are distinct and no update runs into a later one; it then leaves the tables as the request describes them, and otherwise leaves them alone |
| HostReconcile.Prepare | internal/hosts/reconcile_hosts.go:21-62 | Which requests are refused, in which order of checks, and what is accepted |
| HostReconcile.PrepareEach | internal/hosts/reconcile_hosts.go:21-41 | Each host is normalised in place up to the first invalid name |
| HostReconcile.BuildPlan | internal/hosts/reconcile_hosts.go:146-189 | The first faulty host ends the planning with its error; otherwise the plan is the creations, the memberships and the dropped ids, in order |
| HostReconcile.PlanBuiltIff | internal/hosts/reconcile_hosts.go:158-180 | The plan is built exactly when every new name is unused, even by a host to be removed, and every listed host exists under its present name |
| HostReconcile.FaultsAre | internal/hosts/reconcile_hosts.go:158-180 | Which error a host meets: a new name in use, an unknown id, or another name for a known one |
| HostReconcile.RemovedNameIsRefused | internal/hosts/reconcile_hosts.go:159-161 | A new host with the name of a current one is refused, although that host is to be deleted |
| HostReconcile.ReconcileCommitsIff | internal/hosts/reconcile_hosts.go:104-127 | A built plan never meets the unique index: the transaction commits exactly when every mentioned group exists, and then hosts and the whole membership relation are as desired |
| HostReconcile.ImageIsRequest | internal/hosts/reconcile_hosts.go:104-131 | What a commit leaves, read off the request: each listed host as desired, each new one under a key of its own, and no other |
| HostReconcile.NamesAreDesired | internal/hosts/reconcile_hosts.go:146-189 | After a commit the names in use are the desired ones, and a host that stays keeps its own |
| HostReconcile.RunPlan | internal/hosts/reconcile_hosts.go:104-131 | The transaction's loops carry out the specified application, or restore the tables |
| HostReconcile.ReconcileHosts | internal/hosts/reconcile_hosts.go:81-135 | The whole call succeeds exactly when the names are valid, unrepeated and unused or unchanged, the ids unrepeated and the groups known; it then leaves the tables as the request describes them, and otherwise leaves them alone |
| Sink.RunKeeps | internal/accesslog/sink.go:32-38 | Over every run, the batches, then the buffer, then the channel hold exactly what was accepted, in order; batches have 1 to 50 events and the channel at most 500 |
| Sink.NothingLost | internal/accesslog/sink.go:67-84 | After the shutdown drain the batches are exactly the accepted events |
| Sink.BatchesFullWithoutTicks | internal/accesslog/sink.go:86-93 | Without a tick every batch is full |
| Sink.Sink.OnDecision | internal/accesslog/sink.go:32-38 | An event joins the channel, or is dropped when it is full |
| Sink.Sink.Flush | internal/accesslog/sink.go:50-64 | A copy of the buffer is handed off and the buffer emptied; batches handed off before are unchanged |
| Sink.Sink.Receive | internal/accesslog/sink.go:86-90 | One event moves into the reused buffer, which is flushed at 50; no batch handed off before changes |
| Sink.Sink.Drain | internal/accesslog/sink.go:67-84 | On return channel and buffer are empty |
| Sink.Sink.RunAll | internal/accesslog/sink.go:43-96 | Any run followed by the shutdown hands off exactly the accepted events, and no batch has changed since |
| Pairing.RunKeepsPairingInv | internal/devicepairing/service.go:52-133 | Over every run: codes are unique, a device has at most one stored-pending pairing, and the codes that had a key are exactly the used ones, one key each |
| Pairing.RunKeepsRegistryInv | internal/devicepairing/service.go:83-124 | Runs that mix claims and registry transactions keep the registry's own invariant |
| Pairing.CodesAreSingleUse | internal/devicepairing/service.go:83-124 | From an empty system, no run hands out two keys for one code |
| Pairing.SettledForever | internal/devicepairing/repository.go:97-147 | A pairing leaves pending at most once: after that its row never changes |
| Pairing.ClaimSucceedsIff | internal/devicepairing/service.go:83-124 | A claim succeeds exactly on a stored-pending code, strictly before its expiry, of a live device; it then marks that row used and gives the device the key, and otherwise changes nothing |
| Pairing.ClaimFailure | internal/devicepairing/service.go:90-111 | Which error a claim on an existing code meets, from the two readings of the clock |
| Pairing.CreateSucceedsIff | internal/devicepairing/repository.go:25-40 | A pairing is created exactly for a device that exists and under a code never used |
| Pairing.CreatedIsClaimable | internal/devicepairing/service.go:52-124 | Over every run that neither settles nor replaces it, the code can be claimed exactly before the expiry asked for and while the device lives, and gives the key to that device |
| Pairing.InvalidateSucceedsIff | internal/devicepairing/repository.go:110-130 | An invalidation succeeds exactly on a pending pairing of the device, and then no claim of its code does |
| Pairing.CreateLeavesOnePending | internal/devicepairing/service.go:52-76 | The new row is as asked and its device's only pending one, the pending ones before it are replaced, and nothing else changes |
| Pairing.Service.ReplacePendingPairings | internal/devicepairing/repository.go:97-108 | Exactly the device's pending pairings become replaced |
| Pairing.Service.CreatePairing | internal/devicepairing/service.go:52-76 | The specified creation, with the replacement undone when the insert fails |
| Pairing.Service.ClaimPairing | internal/devicepairing/service.go:83-124 | The specified claim, with the key rotated in the device registry |
| Pairing.Service.InvalidatePairing | internal/devicepairing/repository.go:110-130 | Exactly a pending pairing of the device is invalidated |
| Cidr.CoversIsBlock | internal/networkpolicies/network_policy.go:56-67 | A prefix covers the block of addresses that starts at its masked address, within its family's space |
| Cidr.MaskingKeepsSet | internal/networkpolicies/network_policy.go:56-67 | The normal form covers the same addresses and is its own normal form |
| Cidr.NormalFormIsCanonical | internal/networkpolicies/network_policy.go:56-67 | Two prefixes of one family have one normal form exactly when they cover the same addresses |
| Cidr.StoredAlikeIff | internal/networkpolicies/network_policy.go:56-67 | So accepted prefixes are stored alike exactly when they cover the same addresses |
| Cidr.StoredIsStable | internal/networkpolicies/network_policy.go:91-112 | What is stored is accepted again, in the same band, and unchanged |
| Cidr.AcceptedIsBounded | internal/networkpolicies/network_policy.go:78-112 | An accepted prefix covers at most 2^23 IPv4 addresses, also when written IPv4-mapped and then only mapped addresses, or 2^95 other IPv6 addresses |
| Cidr.RefusedIffBroader | internal/networkpolicies/network_policy.go:78-112 | A prefix is refused exactly when it covers more |
| Cidr.BroadIff | internal/networkpolicies/network_policy.go:78-112 | An accepted prefix is called broad exactly from 2^16 IPv4 addresses on, also when written mapped, or from 2^81 IPv6 ones |
| Cidr.SameClientsIff | internal/policy/cache.go:172-206 | Two policies match the same clients exactly when the cache holds one prefix for both |
| Cidr.UnmappingKeepsClients | internal/policy/cache.go:182-189 | The cached prefix matches a client exactly when the stored one covers the client's mapped address |
| Cidr.UnmappedMatches | internal/policy/cache.go:172-206 | A prefix that is not mapped matches exactly the clients of its own family that it covers |
| Cidr.StoredApartIff | internal/networkpolicies/network_policy.go:56-67 | Of two accepted prefixes that match the same clients, the stored forms differ exactly when one is written as IPv4 and the other as IPv6 |
| Cidr.MappedTwinIsStoredApart | internal/networkpolicies/network_policy.go:56-67 | An IPv4 prefix and its mapped twin are accepted alike and match the same clients, yet are stored in different forms |

## Left out

Assumptions the proofs state rather than establish:

- Sends are harmless, as `LeaseProtocol.Orderly` and `CapProtocol.Harmless` define it: in commit order for each address or device and kept by the channel, or without effect. The source sends after the commit without holding a lock, drops when a channel is full, and for leases also when the request is cancelled; the exact conditions and the counterexamples above show what happens otherwise. When a request is cancelled is left to the environment.
- Database reads and writes succeed, apart from the unique, foreign-key and missing-row failures that the model carries; a listener that fails to read a TTL or a cap logs and moves on, which is not modelled. Neither is the loss of queued events at shutdown of the two listeners.
- One clock reading serves a whole transaction, and readings do not run backwards; `Pairing` alone reads twice, as its source does.
- A user's deletion notifies the device service inside the still-open outer transaction; that transaction is taken to commit.
- No other reconcile runs between a reconcile's reads and its transaction.
- The database gives new rows unused keys; the model takes them as parameters, and allows the key of a row deleted in the same transaction.
- Schema facts: ids are primary keys, child tables have one row per log id, a column not declared nullable holds no NULL, an outcome is 0 or 1, and no time precedes Go's zero time.

Not modelled:

- SQL text, drivers, scanning, statement caching, indexes, and the base64 and JSON of cursor tokens; a token is its fields.
- LIKE folds only ASCII case, as SQLite does; collations and Unicode case are absent because the queries use none.
- Listing the contributors of log rows, the detail view, country statistics, rollups and retention of the access log.
- Calendar and time-zone arithmetic: a day bucket is 24 hours from midnight UTC, which is what the source asks for.
- Rounding: gaps are whole seconds that the database derives from Julian days, and risk ratios are real numbers rather than floating-point ones.
- Of a device's fields only its owner; that the new owner exists and that names are unique is not modelled.
- The lease's creation time and the event logs of the services; they feed no decision.
- Validation and normalisation of host names: `HostReconcile.Prepare` takes both as parameters.
- Parsing and printing of prefixes; a prefix is its family, address and length.
- API keys, pairing codes and sessions as secrets: they are opaque values, and randomness is a parameter.
- The policy decision itself, with its intersection of users' host grants: its join of tables would add members but no harder property than those above.
- HTTP handling, configuration, authentication roles and the web client.
