# Offline weather forecast helper: a Dafny model

This project models OsmAnd's offline weather-forecast helper, `OfflineForecastHelper`. The helper downloads gridded forecast tiles for the map regions a user has chosen, and it caches them on the device. For each region it tracks four things:

- a persisted **download state** (`UNDEFINED`, `IN_PROGRESS`, `FINISHED`) with its **last-update** time, **update frequency** and **Wi-Fi-only** flag;
- a process-lifetime **info** entry holding the local size, the projected update size, a "sizes calculated" flag and the **download progress**;
- a memoised **whole-cache size**;
- the **tile ids** that the region's bounds cover at the weather zoom level.

The project also models the list logic of the quick-action settings screen, `SwitchableAction.Adapter`: add, add-all, delete, swap-move, the rule that keeps an auto-generated title in step with the list, and `fillParams`.

Everything is pure functions over immutable values:

- `ForecastStore.Helper` holds the four preference maps (read with their defaults), the info map and the memo.
- Every helper method is a function from one `Helper` to the next. When a method also hands something to the native engine, the function returns that too: request timestamps, or tile ids to clear.
- The engine's completion callbacks are separate sequential events (`OnUpdateDownloadProgress`, delivered in any order and any number by `DeliverCallbacks`).
- The Java `int` and `long` arithmetic is written out: `JavaInt.Wrap32` and `Wrap64` give wrap-around, and `ForecastQueries.WholeDays` gives the truncating division by the day length.

Modules:

| module | file | contents |
|---|---|---|
| `JavaInt` | java_int.dfy | Java integer widths and wrap-around |
| `TileIds` | tile_ids.dfy | `getTileId` / `getTileX` / `getTileY` and their round trips |
| `ForecastSchedule` | forecast_schedule.dfy | the 73 forecast slices and the request loop |
| `ForecastStore` | forecast_store.dfy | preferences, info map, memo, destination and update-size arithmetic |
| `ForecastDownload` | forecast_download.dfy | download start, progress callback, stop, whole cycles |
| `ForecastCache` | forecast_cache.dfy | offline-region selection, tile unions, size calculation, `removeLocalForecast`, `clearCache` |
| `ForecastLifecycle` | forecast_lifecycle.dfy | `checkAndStopWeatherDownload`, `firstInitForecast`, state-machine facts |
| `ForecastQueries` | forecast_queries.dfy | `shouldHaveWeatherForecast`, `isForecastOutdated`, the re-download test, `createIndexItem` |
| `SwitchableList` | switchable_list.dfy | the adapter list and the title rule |
| `Wrappers` | wrappers.dfy | `Option` |

Things the model takes as parameters:

- **Region catalog.** A `Catalog` maps a region id to the tile ids generated from its bounds. An absent id stands for `getTileIds(regionId)` returning null. A `Region` value carries the id together with the tile list of the region object itself.
- **Connectivity and plugin activity.** These come in as a `Connectivity` record.
- **Clock.** The current time (already converted to GMT) and the start of today are plain integers.
- **Native tile-store results.** The sizes the tile store reports come in as plain integers.
- **Hash-map key order.** The Java code lists the keys of the info map in hash-map order, which is unspecified. Operations that do this take the order as `order`, which may be any enumeration of the keys (`ForecastCache.EnumeratesKeys`).

Behaviours of the code worth stating explicitly:

- **clearCache on finished regions.** `clearCache(true, [])` does not reset a FINISHED region. `prepareToStopDownloading` acts only on IN_PROGRESS regions, so a finished region keeps its state and its progress; only its local size is zeroed.
- **Which regions count as offline.** A region counts as offline only if it is a key of the info map and its state is IN_PROGRESS or FINISHED. A region in those states but without an info entry (for example after a restart, before anything touches it) is not listed.
- **The purged info entry.** `removeLocalForecast` removes the info entry and then re-creates it holding only the projected update size. It also skips regions the catalog does not know, and leaves their preferences untouched.
- **Tile packing.** Packing and unpacking are not inverses: `getTileX` keeps only 16 bits (see Findings).
- **A region listed twice in clearCache.** If the first turn drops a never-completed download's info entry, the second turn's `setOfflineForecastSizeInfo` creates it again, holding only a local size of 0.
- **Stopping an UNDEFINED region.** `checkAndStopWeatherDownload` on a region that is already UNDEFINED still runs `removeLocalForecast` on it.
- **firstInitForecast after an earlier complete cycle.** A region that is IN_PROGRESS with a recorded last update is left IN_PROGRESS.

## Model

| member | source | states |
|---|---|---|
| TileIds.TileId | OsmAnd/src/net/osmand/plus/plugins/weather/OfflineForecastHelper.java:652-654 | the id is a `long`; for x >= 0 it is exactly y * 2^32 + x; in every case its low 32 bits are x |
| TileIds.TileX | OsmAnd/src/net/osmand/plus/plugins/weather/OfflineForecastHelper.java:656-658 | the accessor returns an `int` agreeing with the id in its low 16 bits, a value in 0..65535 |
| TileIds.TileY | OsmAnd/src/net/osmand/plus/plugins/weather/OfflineForecastHelper.java:660-662 | the arithmetic shift yields the `int` y with y * 2^32 <= id < (y + 1) * 2^32 |
| TileIds.TileXRoundTrip | OsmAnd/src/net/osmand/plus/plugins/weather/OfflineForecastHelper.java:652-658 | getTileX(getTileId(x, y)) == x holds exactly when 0 <= x < 65536 |
| TileIds.TileYRoundTrip | OsmAnd/src/net/osmand/plus/plugins/weather/OfflineForecastHelper.java:652-662 | getTileY(getTileId(x, y)) == y holds exactly when x >= 0, for every int y |
| TileIds.TileXTruncatesWideColumn | OsmAnd/src/net/osmand/plus/plugins/weather/OfflineForecastHelper.java:656-658 | column 65536 packs and reads back as column 0 |
| TileIds.TileXFullRoundTrip | OsmAnd/src/net/osmand/plus/plugins/weather/OfflineForecastHelper.java:652-658 | with a 32-bit mask, every int column round-trips |
| ForecastSchedule.SliceOffsetClosedForm | OsmAnd/src/net/osmand/plus/plugins/weather/OfflineForecastHelper.java:179-206 | the loop's accumulated offset of slice i is i hours up to slice 24 and 24 + 3(i - 24) hours after it |
| ForecastSchedule.Schedule | OsmAnd/src/net/osmand/plus/plugins/weather/OfflineForecastHelper.java:74-74 | 73 strictly increasing timestamps: hourly to +24 h, then every 3 h, the last at +168 h |
| ForecastSchedule.IssueRequests | OsmAnd/src/net/osmand/plus/plugins/weather/OfflineForecastHelper.java:181-206 | the loop issues a prefix of the schedule: at most 73 requests, each while the state read IN_PROGRESS, stopping at the first other reading |
| ForecastStore.SetState | OsmAnd/src/net/osmand/plus/plugins/weather/OfflineForecastHelper.java:601-618 | the state reads back as set; the other preferences and every other region are unchanged |
| ForecastStore.SetLastUpdate | OsmAnd/src/net/osmand/plus/plugins/weather/OfflineForecastHelper.java:620-632 | the last-update time reads back as set; nothing else changes |
| ForecastStore.SetFrequency | OsmAnd/src/net/osmand/plus/plugins/weather/OfflineForecastHelper.java:634-650 | the frequency reads back as set; nothing else changes |
| ForecastStore.SetWifiOnly | OsmAnd/src/net/osmand/plus/plugins/weather/OfflineForecastHelper.java:685-696 | the Wi-Fi-only flag reads back as set; nothing else changes |
| ForecastStore.RemovePreferences | OsmAnd/src/net/osmand/plus/plugins/weather/OfflineForecastHelper.java:698-710 | afterwards the four preferences read UNDEFINED, -1, UNDEFINED, false; other regions unchanged |
| ForecastStore.UnsetPreferencesReadDefaults | OsmAnd/src/net/osmand/plus/plugins/weather/OfflineForecastHelper.java:601-650 | the four preference getters read UNDEFINED, -1, UNDEFINED and false for a region with nothing stored |
| ForecastStore.AbsentInfoReadsDefaults | OsmAnd/src/net/osmand/plus/plugins/weather/OfflineForecastHelper.java:437-478 | without an info entry the getters read sizes 0, not calculated and progress 0 |
| ForecastStore.SetLocalSize | OsmAnd/src/net/osmand/plus/plugins/weather/OfflineForecastHelper.java:432-446 | get-or-create: the entry exists and the local size reads back; the entry's other fields and other regions are unchanged |
| ForecastStore.SetUpdatesSize | OsmAnd/src/net/osmand/plus/plugins/weather/OfflineForecastHelper.java:432-446 | get-or-create: the updates size reads back; other fields and regions unchanged |
| ForecastStore.SetSizesCalculated | OsmAnd/src/net/osmand/plus/plugins/weather/OfflineForecastHelper.java:448-462 | get-or-create: the flag reads back; other fields and regions unchanged |
| ForecastStore.SetProgress | OsmAnd/src/net/osmand/plus/plugins/weather/OfflineForecastHelper.java:464-478 | get-or-create: the progress reads back; other fields and regions unchanged |
| ForecastStore.RemoveInfo | OsmAnd/src/net/osmand/plus/plugins/weather/OfflineForecastHelper.java:428-430 | the entry is gone, so the getters read the defaults 0, 0, false, 0 |
| ForecastStore.Destination | OsmAnd/src/net/osmand/plus/plugins/weather/OfflineForecastHelper.java:480-483 | -1 for a region the catalog does not know; tiles * 73 while that fits an int |
| ForecastStore.UpdatesSizeExact | OsmAnd/src/net/osmand/plus/plugins/weather/OfflineForecastHelper.java:295-298 | the int estimate equals tiles * 73 * 40000 exactly when there are at most 735 tiles |
| ForecastStore.UpdatesSizeOf | OsmAnd/src/net/osmand/plus/plugins/weather/OfflineForecastHelper.java:295-298 | the estimate tiles * 73 * 40000 is computed in `int` arithmetic and is an `int` |
| ForecastStore.UpdatesSizeWrapsModulo | OsmAnd/src/net/osmand/plus/plugins/weather/OfflineForecastHelper.java:295-298 | for any tile count the estimate differs from the exact product by a multiple of 2^32 |
| ForecastDownload.DownloadForecastByRegion | OsmAnd/src/net/osmand/plus/plugins/weather/OfflineForecastHelper.java:150-209 | refused (no requests) exactly when the plugin is inactive, offline, or Wi-Fi-only off Wi-Fi, and then nothing changes; otherwise the region has an info entry with progress 0, state IN_PROGRESS, the full schedule requested, and the sink told the destination exactly when there is a sink; the last update, frequency, Wi-Fi flag, both sizes and the sizes flag of the region are kept, as are all other regions; returns false |
| ForecastDownload.OnUpdateDownloadProgress | OsmAnd/src/net/osmand/plus/plugins/weather/OfflineForecastHelper.java:497-527 | a no-op unless IN_PROGRESS; else progress goes up by one whatever the outcome, the remaining work is reported exactly when the download has a sink, and reaching a positive destination sets FINISHED, stamps the time and zeroes the memo; the region's frequency, Wi-Fi flag, sizes and sizes flag and all other regions are kept |
| ForecastDownload.ReachedDestinationIsRatioAtLeastOne | OsmAnd/src/net/osmand/plus/plugins/weather/OfflineForecastHelper.java:507-516 | for a non-zero destination the finishing test is the ratio progress / destination reaching 1; for a zero destination it holds exactly for positive progress (the +Infinity quotient) |
| ForecastDownload.FailedFetchCountsLikeSuccess | OsmAnd/src/net/osmand/plus/plugins/weather/OfflineForecastHelper.java:497-516 | a failed fetch has exactly the effect of a successful one |
| ForecastDownload.PrepareToStopDownloading | OsmAnd/src/net/osmand/plus/plugins/weather/OfflineForecastHelper.java:222-234 | from IN_PROGRESS: never updated goes to UNDEFINED without an info entry, else FINISHED with progress at the destination; any other state is left alone; the local memo is zeroed |
| ForecastDownload.DeliverCallbacks | OsmAnd/src/net/osmand/plus/plugins/weather/OfflineForecastHelper.java:499-502 | callbacks reaching a region that is not IN_PROGRESS change nothing and finish nothing |
| ForecastDownload.CycleFinishesExactlyOnce | OsmAnd/src/net/osmand/plus/plugins/weather/OfflineForecastHelper.java:497-527 | from a running cycle, progress counts callbacks up to the destination and never past it; FINISHED is set exactly once, stamped by the completing callback |
| ForecastCache.TempForecastsWithDownloadStates | OsmAnd/src/net/osmand/plus/plugins/weather/OfflineForecastHelper.java:417-426 | lists exactly the info-map keys whose state is one of the given states, each once |
| ForecastCache.OfflineTileIds | OsmAnd/src/net/osmand/plus/plugins/weather/OfflineForecastHelper.java:356-373 | a duplicate-free list of exactly the tiles some listed, known region covers |
| ForecastCache.AllOfflineTileIds | OsmAnd/src/net/osmand/plus/plugins/weather/OfflineForecastHelper.java:357-360 | with no list given: exactly the tiles of offline regions, each once |
| ForecastCache.ScanForTile | OsmAnd/src/net/osmand/plus/plugins/weather/OfflineForecastHelper.java:402-414 | the scan finds the tile exactly when some listed region other than the excluded one covers it |
| ForecastCache.IsContainsInOfflineRegionsAnyOrder | OsmAnd/src/net/osmand/plus/plugins/weather/OfflineForecastHelper.java:400-415 | scanning the IN_PROGRESS and FINISHED info keys in any hash-map order gives the same answer |
| ForecastCache.SharingIgnoresExcluded | OsmAnd/src/net/osmand/plus/plugins/weather/OfflineForecastHelper.java:400-415 | whether another offline region covers a tile does not depend on the excluded region's state or entry |
| ForecastCache.CalculateCacheSize | OsmAnd/src/net/osmand/plus/plugins/weather/OfflineForecastHelper.java:252-273 | the flag ends set exactly when the region has tiles, and then both sizes are stored; otherwise both sizes are 0; progress and other regions untouched |
| ForecastCache.CalculateCacheSizeIfNeeded | OsmAnd/src/net/osmand/plus/plugins/weather/OfflineForecastHelper.java:236-250 | nothing happens when the sizes are already calculated; otherwise the flag ends set exactly when the region has tiles, the local and updates sizes are the stored size and the estimate then, and both are 0 for a region without tiles; progress and other regions untouched |
| ForecastCache.CalculateFullCacheSize | OsmAnd/src/net/osmand/plus/plugins/weather/OfflineForecastHelper.java:275-293 | a non-zero memo is reported as is; a zero memo is refilled from the tile store, except for local data when no offline region has tiles |
| ForecastCache.FullCacheSizeIsMemoised | OsmAnd/src/net/osmand/plus/plugins/weather/OfflineForecastHelper.java:275-293 | once a call stores a non-zero size, the next call reports the same size and memo whatever the tile store would report |
| ForecastCache.QueueTiles | OsmAnd/src/net/osmand/plus/plugins/weather/OfflineForecastHelper.java:331-335 | a tile is queued exactly when no other offline region covers it; the queue stays duplicate-free |
| ForecastCache.RemoveRegionsQueuesExactly | OsmAnd/src/net/osmand/plus/plugins/weather/OfflineForecastHelper.java:326-340 | the loop queues exactly the tiles of listed known regions not covered by an offline region outside the list, including tiles shared only among listed regions |
| ForecastCache.RemoveLocalForecast | OsmAnd/src/net/osmand/plus/plugins/weather/OfflineForecastHelper.java:323-354 | queues, each once, exactly the tiles of listed known regions that no offline region outside the list covers; each known listed region has default preferences and an info entry holding only its update estimate; unknown and unlisted regions untouched; the memo is zeroed |
| ForecastCache.RemoveRegionsSparesOfflineTiles | OsmAnd/src/net/osmand/plus/plugins/weather/OfflineForecastHelper.java:326-340 | a tile covered by an offline region that is not in the list is never queued, whatever the list |
| ForecastCache.RemoveLocalForecastSparesOfflineTiles | OsmAnd/src/net/osmand/plus/plugins/weather/OfflineForecastHelper.java:323-340 | the same guarantee for the whole operation |
| ForecastCache.RemoveOneRegionDeletesUnsharedTiles | OsmAnd/src/net/osmand/plus/plugins/weather/OfflineForecastHelper.java:400-415 | removing one region queues exactly its tiles that no other offline region covers |
| ForecastCache.ClearRegion | OsmAnd/src/net/osmand/plus/plugins/weather/OfflineForecastHelper.java:305-308 | the region ends with local size 0 and its download stopped; a never-completed download loses its entry, and with it its updates size and sizes flag; the local memo is zeroed; other regions untouched |
| ForecastCache.ClearRegions | OsmAnd/src/net/osmand/plus/plugins/weather/OfflineForecastHelper.java:305-308 | every listed region ends with local size 0 and its download stopped, repeats included; a purged region keeps no updates size or sizes flag, and has an info entry unless it was purged and listed once; unlisted regions untouched; the local memo is zeroed when anything is listed |
| ForecastCache.ClearTargets | OsmAnd/src/net/osmand/plus/plugins/weather/OfflineForecastHelper.java:301-304 | for local data with no ids: exactly the offline regions; otherwise the given ids |
| ForecastCache.ClearCache | OsmAnd/src/net/osmand/plus/plugins/weather/OfflineForecastHelper.java:300-321 | the targets' tiles, each once, are cleared as local or as remote data; for local data every target is stopped with local size 0, a purged target keeping no updates size or sizes flag, and the whole memo is zeroed when there is a target; otherwise only the remote memo is zeroed; remote clears change no region |
| ForecastLifecycle.CheckAndStopWeatherDownload | OsmAnd/src/net/osmand/plus/plugins/weather/OfflineForecastHelper.java:211-220 | the region is not left IN_PROGRESS; an unfinished first download or an UNDEFINED region is purged, queueing exactly its tiles no other offline region covers; a finished or previously completed one is FINISHED with both sizes recalculated from the region's tiles and its other preferences kept; the memo is zeroed on the purge path and only its local part otherwise; other regions untouched |
| ForecastLifecycle.EvictionAfterStop | OsmAnd/src/net/osmand/plus/plugins/weather/OfflineForecastHelper.java:211-220 | the removal after a stop queues exactly the region's tiles that no other offline region covered before the stop, and leaves every other region as it was before the stop |
| ForecastLifecycle.FirstInitForecast | OsmAnd/src/net/osmand/plus/plugins/weather/OfflineForecastHelper.java:389-398 | an interrupted never-completed download is purged, queueing exactly its tiles no other offline region covers, and the memo is zeroed; a finished region gets an info entry showing full progress with its sizes, sizes flag, preferences and the memo kept; otherwise nothing changes |
| ForecastLifecycle.StartThenStop | OsmAnd/src/net/osmand/plus/plugins/weather/OfflineForecastHelper.java:222-234 | start then stop: a never-downloaded region returns to UNDEFINED without info; a downloaded one is FINISHED at full progress |
| ForecastLifecycle.DownloadThenAllCallbacksFinish | OsmAnd/src/net/osmand/plus/plugins/weather/OfflineForecastHelper.java:167-209 | after an allowed start, with or without a sink, destination-many callbacks finish the cycle once with full progress |
| ForecastLifecycle.TenTileRegionFinishesAfter730Callbacks | OsmAnd/src/net/osmand/plus/plugins/weather/OfflineForecastHelper.java:503-519 | 10 tiles: 730 callbacks end FINISHED with progress 730 and a real last-update time |
| ForecastQueries.ShouldHaveWeatherForecastByLevel | OsmAnd/src/net/osmand/plus/plugins/weather/OfflineForecastHelper.java:93-104 | by level: the world always; level 1 only Russia; level 2 non-Russian regions but the UK; level 3 only the UK; no other level |
| ForecastQueries.ShouldHaveWeatherForecast | OsmAnd/src/net/osmand/plus/plugins/weather/OfflineForecastHelper.java:93-104 | the world always qualifies; any other region only at levels 1 to 3, and at level 1 only Russia |
| ForecastQueries.WholeDays | OsmAnd/src/net/osmand/plus/plugins/weather/OfflineForecastHelper.java:381-382 | the day count is truncated toward zero: the largest whole number of days not past the elapsed time, or for a negative time the smallest not below it |
| ForecastQueries.IsForecastOutdated | OsmAnd/src/net/osmand/plus/plugins/weather/OfflineForecastHelper.java:375-387 | an outdated forecast is FINISHED with a recorded update |
| ForecastQueries.OutdatedExactlyAfterAWeek | OsmAnd/src/net/osmand/plus/plugins/weather/OfflineForecastHelper.java:375-387 | without overflow: outdated exactly when FINISHED, updated, and at least 7 * 86400000 ms before the start of today |
| ForecastQueries.DueForScheduledDownload | OsmAnd/src/net/osmand/plus/plugins/weather/OfflineForecastHelper.java:115-124 | due only when online and not held back by the Wi-Fi-only flag; without overflow only once secondsRequired has passed, counted in milliseconds |
| ForecastQueries.ScheduledWaitCountsMilliseconds | OsmAnd/src/net/osmand/plus/plugins/weather/OfflineForecastHelper.java:115-124 | online and allowed: due exactly when secondsRequired milliseconds have passed since the last update |
| ForecastQueries.DueAfterMillisecondsNotSeconds | OsmAnd/src/net/osmand/plus/plugins/weather/OfflineForecastHelper.java:118-122 | s milliseconds after an update the region is already due, though fewer than s seconds passed |
| ForecastQueries.DueForScheduledDownloadInSeconds | OsmAnd/src/net/osmand/plus/plugins/weather/OfflineForecastHelper.java:115-124 | the corrected test is due only when online and not held back by the Wi-Fi-only flag |
| ForecastQueries.DueExactlyAfterRequiredSeconds | OsmAnd/src/net/osmand/plus/plugins/weather/OfflineForecastHelper.java:118-122 | with the wait in milliseconds, a region is due exactly when the frequency's seconds have elapsed |
| ForecastQueries.CreateIndexItem | OsmAnd/src/net/osmand/plus/plugins/weather/OfflineForecastHelper.java:529-548 | a finished region is dated by its last update, any other by the start of today; sizes from the info entry |
| ForecastLifecycle.IndexItemDatedByCompletingCallback | OsmAnd/src/net/osmand/plus/plugins/weather/OfflineForecastHelper.java:529-548 | after a completed download cycle the index item is dated by the callback that completed it |
| SwitchableList.RefreshTitle | OsmAnd/src/net/osmand/plus/quickaction/SwitchableAction.java:255-259 | the new list's title replaces the text exactly when the text is the old title or the default name |
| SwitchableList.AddItems | OsmAnd/src/net/osmand/plus/quickaction/SwitchableAction.java:234-241 | unchanged when every element is already listed; otherwise all of data appended in order; the result holds both lists' elements and no others |
| SwitchableList.AddItemsIdempotent | OsmAnd/src/net/osmand/plus/quickaction/SwitchableAction.java:234-241 | adding the same batch again changes nothing |
| SwitchableList.AddItem | OsmAnd/src/net/osmand/plus/quickaction/SwitchableAction.java:243-261 | a listed item changes nothing; a new one is appended once at the end with the earlier elements kept, and the title rule runs |
| SwitchableList.AddItemIdempotent | OsmAnd/src/net/osmand/plus/quickaction/SwitchableAction.java:243-261 | adding an item twice equals adding it once |
| SwitchableList.DeleteItem | OsmAnd/src/net/osmand/plus/quickaction/SwitchableAction.java:224-232 | -1 is a no-op; another bad position throws; a valid one removes exactly that element, the rest in order |
| SwitchableList.DeleteUndoesAdd | OsmAnd/src/net/osmand/plus/quickaction/SwitchableAction.java:224-253 | deleting the item just appended restores the list |
| SwitchableList.OnCloseClicked | OsmAnd/src/net/osmand/plus/quickaction/SwitchableAction.java:197-212 | the row's item is deleted, then the title rule runs against the old list's title |
| SwitchableList.Swap | OsmAnd/src/net/osmand/plus/quickaction/SwitchableAction.java:268-268 | positions a and b exchange, all others stay, the multiset is kept; an out-of-range position throws |
| SwitchableList.SwapTwiceRestores | OsmAnd/src/net/osmand/plus/quickaction/SwitchableAction.java:268-268 | swapping the same positions twice restores the list |
| SwitchableList.OnItemMove | OsmAnd/src/net/osmand/plus/quickaction/SwitchableAction.java:263-294 | the rows are swapped, the title rule runs, and the move reports true |
| SwitchableList.AutoTitleFollowsEdits | OsmAnd/src/net/osmand/plus/quickaction/SwitchableAction.java:287-291 | a title equal to the list's title stays equal to it through add, delete and move |
| SwitchableList.TypedTitleSurvivesEdits | OsmAnd/src/net/osmand/plus/quickaction/SwitchableAction.java:201-210 | a title that is neither the list's title nor the default name is never overwritten |
| SwitchableList.FillParams | OsmAnd/src/net/osmand/plus/quickaction/SwitchableAction.java:122-132 | true exactly when the list is present and non-empty, and the list is saved exactly then |
| SwitchableList.AddedItemFillsParams | OsmAnd/src/net/osmand/plus/quickaction/SwitchableAction.java:122-132 | a list just added to always fills the parameters and is saved as is |
| SwitchableList.DeletingOnlyItemEmptiesParams | OsmAnd/src/net/osmand/plus/quickaction/SwitchableAction.java:122-132 | deleting the only item leaves a list that no longer fills the parameters |

## Findings

| source | as written | input that shows it | evidently intended | confidence | as-written member | corrected member |
|---|---|---|---|---|---|---|
| OsmAnd/src/net/osmand/plus/plugins/weather/OfflineForecastHelper.java:656-658 | `getTileX` masks the id with `0xFFFF`, but `getTileId` stores x in the full low 32 bits | x = 65536, y = 0: `getTileX(getTileId(65536, 0))` is 0 | a 32-bit mask (`0xFFFFFFFFL`), so every column round-trips | low, not executed: the zoom level in use may keep x below 65536 | TileIds.TileXTruncatesWideColumn | TileIds.TileXFullRoundTrip |
| OsmAnd/src/net/osmand/plus/plugins/weather/OfflineForecastHelper.java:118-122 | `nowTime >= lastUpdateTime + secondsRequired` adds seconds to a time in milliseconds | any frequency with secondsRequired = s >= 1 and now = lastUpdate + s: the region is due after s ms | `lastUpdateTime + secondsRequired * 1000L` | medium, not executed | ForecastQueries.DueAfterMillisecondsNotSeconds | ForecastQueries.DueExactlyAfterRequiredSeconds |

No other part of the model reads tile columns back or uses the scheduled re-download test. So each corrected member stands beside its as-written counterpart; nothing else depends on it.

## Left out

- Threading. `runAsync`, `AsyncTask` and `runInUiThread` are not modelled, and neither is the unsynchronised read-modify-write of the progress counter. Callbacks are sequential events. `calculateCacheSize` applies its synchronous reset and its background part in one step.
- Native engine calls. `generateGeoTileIds` and `getGeoTileZoom` are folded into the catalog's tile lists. `calculateDbCacheSize` becomes an integer parameter. `downloadGeoTiles` and `clearDbCache` become returned timestamps and tile lists. The query controller's abort check is the `inProgress` readings of `IssueRequests`.
- Bounds of a request. The bounding box and the request flags are the same for every request of a cycle, so the model records only each request's timestamp.
- `WeatherCacheSize` is not part of this model. It is modelled as two memoised sizes: `reset()` zeroes both, `reset(local)` zeroes one, and `get`/`set` read and write one.
- `WorldRegion` is not part of this model. The identifiers `world`, `russia` and `gb` stand in for its constants.
- `WeatherForecastUpdatesFrequency` is not part of this model. Its `getSecondsRequired` is a function parameter.
- Clock and time zones. `System.currentTimeMillis`, `getTimeForTimeZone` and `getStartOfToday` enter as integer parameters.
- ForecastDownload.OnUpdateDownloadProgress: the float ratio `(float) progress / destination >= 1f` is read over the reals (`ReachedDestination`). Float rounding, which differs only once a count passes 2^24, is not modelled.
- ForecastSchedule.IssueRequests: `long` overflow of the timestamps is not modelled. The schedule spans 168 hours from the start of today.
- ForecastDownload.OnUpdateDownloadProgress: the `calculateCacheSize` call that a finishing callback posts to the UI thread is not part of the result. The caller can apply `ForecastCache.CalculateCacheSize` afterwards as a separate step.
- UI work is not modelled: `drawUI`, view holders, touch and drag listeners, every `notify*` call, `getActionText`, icons, `onDownloadStarted`'s task message, `updateWeatherLayers`, and the completion callbacks of `removeLocalForecast`.
- The `DecimalFormat` size strings are not modelled.
- `checkIfItemOutdated` and the setters it calls on `WeatherIndexItem` are not modelled.
- The stub description methods that return `""` are not modelled.
- `checkAndDownloadForecastsByRegionIds` and `downloadForecastsByRegionIds` walk the flattened world-region list, which is not part of this model. Their per-region test is `ForecastQueries.DueForScheduledDownload`, and each download is `DownloadForecastByRegion`.
- Preference key strings (`getPreferenceKeys`) are not modelled. Each preference is a map keyed by region id.
