/**
 * Which regions count as offline, which tiles they cover, and the cache
 * operations built on that: size calculation, removal of a region's local
 * forecast (sparing tiles another offline region still uses) and clearing
 * the cache.
 *
 * The info map is a hash map whose key order is unspecified; the operations
 * that list its keys take that order as `order`, any enumeration of the keys.
 */
module ForecastCache {
  import opened Wrappers
  import opened ForecastStore
  import ForecastDownload

  predicate Distinct<T(==)>(s: seq<T>) {
    forall i, j :: 0 <= i < j < |s| ==> s[i] != s[j]
  }

  /** `order` lists every key of the info map exactly once. */
  ghost predicate EnumeratesKeys(order: seq<RegionId>, keys: set<RegionId>) {
    Distinct(order) && forall r :: r in order <==> r in keys
  }

  /** The states `getTempForecastsWithDownloadStates(IN_PROGRESS, FINISHED)` asks for. */
  const OFFLINE_STATES: set<DownloadState> := {InProgress, Finished}

  /** `r` is a known region whose tile list holds `t`. */
  predicate Covers(cat: Catalog, r: RegionId, t: int) {
    r in cat && t in cat[r]
  }

  /** Some region of `ids` covers `t`. */
  ghost predicate CoveredBy(cat: Catalog, ids: seq<RegionId>, t: int) {
    exists r :: r in ids && Covers(cat, r, t)
  }

  // ---------------------------------------------------------------------------
  // Selection

  /** The regions of `ids` whose download state is one of `states`, in order. */
  function FilterByState(h: Helper, ids: seq<RegionId>, states: set<DownloadState>): (rs: seq<RegionId>)
    ensures forall r :: r in rs <==> r in ids && State(h.prefs, r) in states
    ensures Distinct(ids) ==> Distinct(rs)
    decreases |ids|
  {
    if ids == [] then
      []
    else
      var tail := FilterByState(h, ids[1..], states);
      if State(h.prefs, ids[0]) in states then [ids[0]] + tail else tail
  }

  /**
   * `getTempForecastsWithDownloadStates`: only regions that are keys of the
   * info map are listed, however their persisted state reads.
   */
  function TempForecastsWithDownloadStates(h: Helper, order: seq<RegionId>, states: set<DownloadState>): (rs: seq<RegionId>)
    requires EnumeratesKeys(order, h.info.Keys)
    ensures forall r :: r in rs <==> r in h.info && State(h.prefs, r) in states
    ensures Distinct(rs)
  {
    FilterByState(h, order, states)
  }

  /** Appends the tiles of `ts` that `acc` does not hold yet. */
  function AddNewTiles(acc: seq<int>, ts: seq<int>): (r: seq<int>)
    ensures acc <= r
    ensures Distinct(acc) ==> Distinct(r)
    ensures forall t :: t in r <==> t in acc || t in ts
    decreases |ts|
  {
    if ts == [] then acc
    else AddNewTiles(if ts[0] in acc then acc else acc + [ts[0]], ts[1..])
  }

  function UnionTiles(cat: Catalog, ids: seq<RegionId>, acc: seq<int>): (r: seq<int>)
    ensures acc <= r
    ensures Distinct(acc) ==> Distinct(r)
    ensures forall t :: t in r <==> t in acc || CoveredBy(cat, ids, t)
    decreases |ids|
  {
    if ids == [] then
      acc
    else
      var acc' := if ids[0] in cat then AddNewTiles(acc, cat[ids[0]]) else acc;
      var r := UnionTiles(cat, ids[1..], acc');
      assert forall t :: CoveredBy(cat, ids, t) <==> Covers(cat, ids[0], t) || CoveredBy(cat, ids[1..], t) by {
        forall t ensures CoveredBy(cat, ids, t) ==> Covers(cat, ids[0], t) || CoveredBy(cat, ids[1..], t) {
          if CoveredBy(cat, ids, t) {
            var w :| w in ids && Covers(cat, w, t);
            if w != ids[0] {
              assert w in ids[1..];
            }
          }
        }
      }
      r
  }

  /** `getOfflineTileIds(regionIds)`: the tiles of the listed regions, each once. */
  function OfflineTileIds(cat: Catalog, ids: seq<RegionId>): (tiles: seq<int>)
    ensures Distinct(tiles)
    ensures forall t :: t in tiles <==> CoveredBy(cat, ids, t)
  {
    UnionTiles(cat, ids, [])
  }

  /** `getOfflineTileIds(null)`: the tiles of every offline region, each once. */
  function AllOfflineTileIds(h: Helper, cat: Catalog, order: seq<RegionId>): (tiles: seq<int>)
    requires EnumeratesKeys(order, h.info.Keys)
    ensures Distinct(tiles)
    ensures forall t :: t in tiles <==> exists r :: r in h.info && IsOffline(State(h.prefs, r)) && Covers(cat, r, t)
  {
    var offline := TempForecastsWithDownloadStates(h, order, OFFLINE_STATES);
    var tiles := OfflineTileIds(cat, offline);
    assert forall r :: r in offline <==> r in h.info && IsOffline(State(h.prefs, r));
    tiles
  }

  /**
   * `isContainsInOfflineRegions`: some offline region other than `exclude`
   * covers the tile. The answer does not depend on the key order.
   */
  predicate IsContainsInOfflineRegions(h: Helper, cat: Catalog, t: int, exclude: RegionId) {
    exists r | r in h.info :: r != exclude && IsOffline(State(h.prefs, r)) && Covers(cat, r, t)
  }

  /** Whether another offline region holds `t` depends only on the regions other than `exclude`. */
  lemma SharingIgnoresExcluded(h: Helper, h': Helper, cat: Catalog, t: int, exclude: RegionId)
    requires forall b :: b != exclude ==> AgreeAt(h, h', b)
    ensures IsContainsInOfflineRegions(h, cat, t, exclude) <==> IsContainsInOfflineRegions(h', cat, t, exclude)
  {
    if IsContainsInOfflineRegions(h, cat, t, exclude) {
      var r :| r in h.info && r != exclude && IsOffline(State(h.prefs, r)) && Covers(cat, r, t);
      assert AgreeAt(h, h', r);
    }
    if IsContainsInOfflineRegions(h', cat, t, exclude) {
      var r :| r in h'.info && r != exclude && IsOffline(State(h'.prefs, r)) && Covers(cat, r, t);
      assert AgreeAt(h, h', r);
    }
  }

  /** The loop of `isContainsInOfflineRegions` over the listed regions `rs`, stopping at the first hit. */
  function ScanForTile(cat: Catalog, rs: seq<RegionId>, t: int, exclude: RegionId): (found: bool)
    ensures found <==> exists r :: r in rs && r != exclude && Covers(cat, r, t)
    decreases |rs|
  {
    if rs == [] then
      false
    else if rs[0] != exclude && Covers(cat, rs[0], t) then
      true
    else
      var found := ScanForTile(cat, rs[1..], t, exclude);
      assert found ==> exists r :: r in rs && r != exclude && Covers(cat, r, t) by {
        if found {
          var w :| w in rs[1..] && w != exclude && Covers(cat, w, t);
          assert w in rs;
        }
      }
      found
  }

  /**
   * Scanning the offline regions in any enumeration of the info map's keys
   * gives the order-free answer.
   */
  lemma IsContainsInOfflineRegionsAnyOrder(h: Helper, cat: Catalog, order: seq<RegionId>, t: int, exclude: RegionId)
    requires EnumeratesKeys(order, h.info.Keys)
    ensures ScanForTile(cat, TempForecastsWithDownloadStates(h, order, OFFLINE_STATES), t, exclude)
      <==> IsContainsInOfflineRegions(h, cat, t, exclude)
  {
    var offline := TempForecastsWithDownloadStates(h, order, OFFLINE_STATES);
    assert forall r :: r in offline <==> r in h.info && IsOffline(State(h.prefs, r));
  }

  // ---------------------------------------------------------------------------
  // Size calculation

  /**
   * `calculateCacheSize`: zeroes both sizes and the flag, then (in the
   * background) stores the size the tile store reports and the download
   * estimate, and sets the flag, only when the region has tiles at all.
   */
  function CalculateCacheSize(h: Helper, region: Region, storedSize: int): (h': Helper)
    ensures SizesCalculated(h', region.id) <==> region.tiles != []
    ensures region.tiles != [] ==>
      LocalSize(h', region.id) == storedSize && UpdatesSize(h', region.id) == UpdatesSizeOf(region.tiles)
    ensures region.tiles == [] ==> LocalSize(h', region.id) == 0 && UpdatesSize(h', region.id) == 0
    ensures Progress(h', region.id) == Progress(h, region.id)
    ensures OnlyInfoOfChanged(h, h', region.id)
  {
    var id := region.id;
    var reset := SetSizesCalculated(SetUpdatesSize(SetLocalSize(h, id, 0), id, 0), id, false);
    if region.tiles == [] then
      reset
    else
      SetSizesCalculated(SetUpdatesSize(SetLocalSize(reset, id, storedSize), id, UpdatesSizeOf(region.tiles)), id, true)
  }

  /** `calculateCacheSizeIfNeeded`: recalculates only when the sizes are not marked calculated. */
  function CalculateCacheSizeIfNeeded(h: Helper, region: Region, storedSize: int): (h': Helper)
    ensures SizesCalculated(h, region.id) ==> h' == h
    ensures !SizesCalculated(h, region.id) ==>
      && (SizesCalculated(h', region.id) <==> region.tiles != [])
      && (region.tiles != [] ==>
            LocalSize(h', region.id) == storedSize && UpdatesSize(h', region.id) == UpdatesSizeOf(region.tiles))
      && (region.tiles == [] ==> LocalSize(h', region.id) == 0 && UpdatesSize(h', region.id) == 0)
      && Progress(h', region.id) == Progress(h, region.id)
      && OnlyInfoOfChanged(h, h', region.id)
  {
    if SizesCalculated(h, region.id) then h else CalculateCacheSize(h, region, storedSize)
  }

  /** The memo after `calculateFullCacheSize` and the size it reports. */
  datatype FullSize = FullSize(memo: CacheMemo, size: int)

  /**
   * `calculateFullCacheSize`: the memoised size of the local or remote
   * data of all offline regions; a zero memo is refilled from the tile
   * store (`storedSize`), except for local data when no offline region has
   * tiles, which reports zero.
   */
  function CalculateFullCacheSize(h: Helper, cat: Catalog, order: seq<RegionId>, localData: bool, storedSize: int): (f: FullSize)
    requires EnumeratesKeys(order, h.info.Keys)
    ensures MemoPart(h.memo, localData) != 0 ==> f == FullSize(h.memo, MemoPart(h.memo, localData))
    ensures MemoPart(h.memo, localData) == 0 && (!localData || AllOfflineTileIds(h, cat, order) != []) ==>
      f.size == storedSize && MemoPart(f.memo, localData) == storedSize
      && MemoPart(f.memo, !localData) == MemoPart(h.memo, !localData)
    ensures MemoPart(h.memo, localData) == 0 && localData && AllOfflineTileIds(h, cat, order) == [] ==>
      f == FullSize(h.memo, 0)
  {
    var tiles := AllOfflineTileIds(h, cat, order);
    var size := MemoPart(h.memo, localData);
    if size == 0 && (!localData || tiles != []) then
      FullSize(SetMemoPart(h.memo, storedSize, localData), storedSize)
    else
      FullSize(h.memo, size)
  }

  /**
   * Once a call has stored a non-zero size, the next call on the same
   * regions answers from the memo, whatever the tile store would report.
   */
  lemma FullCacheSizeIsMemoised(h: Helper, cat: Catalog, order: seq<RegionId>, localData: bool,
                                storedSize: int, laterStoredSize: int)
    requires EnumeratesKeys(order, h.info.Keys)
    requires storedSize != 0
    ensures var f := CalculateFullCacheSize(h, cat, order, localData, storedSize);
      CalculateFullCacheSize(h.(memo := f.memo), cat, order, localData, laterStoredSize) == f
  {
    var f := CalculateFullCacheSize(h, cat, order, localData, storedSize);
    var h' := h.(memo := f.memo);
    var tiles, tiles' := AllOfflineTileIds(h, cat, order), AllOfflineTileIds(h', cat, order);
    assert h'.info == h.info && h'.prefs == h.prefs;
    if tiles != [] {
      assert tiles[0] in tiles;
      var r :| r in h.info && IsOffline(State(h.prefs, r)) && Covers(cat, r, tiles[0]);
      assert tiles[0] in tiles';
    }
    if tiles' != [] {
      assert tiles'[0] in tiles';
      var r :| r in h'.info && IsOffline(State(h'.prefs, r)) && Covers(cat, r, tiles'[0]);
      assert tiles'[0] in tiles;
    }
  }

  // ---------------------------------------------------------------------------
  // Removing a region's local forecast

  /** The new state and the tile ids handed to the tile store for deletion. */
  datatype Eviction = Eviction(helper: Helper, tiles: seq<int>)

  /** The tiles of `ts` to delete on behalf of region `r`, appended to `acc` without repeats. */
  function QueueTiles(h: Helper, cat: Catalog, r: RegionId, ts: seq<int>, acc: seq<int>): (q: seq<int>)
    ensures acc <= q
    ensures Distinct(acc) ==> Distinct(q)
    ensures forall t :: t in q <==> t in acc || (t in ts && !IsContainsInOfflineRegions(h, cat, t, r))
    decreases |ts|
  {
    if ts == [] then
      acc
    else
      var keep := ts[0] in acc || IsContainsInOfflineRegions(h, cat, ts[0], r);
      QueueTiles(h, cat, r, ts[1..], if keep then acc else acc + [ts[0]])
  }

  /** The state of a removed region: default preferences, and an info entry holding only the download estimate. */
  ghost predicate Purged(h: Helper, cat: Catalog, r: RegionId) {
    && r in cat
    && DefaultPrefsAt(h.prefs, r)
    && r in h.info
    && h.info[r] == Info(None, Some(UpdatesSizeOf(cat[r])), None, None)
  }

  function PurgeRegion(h: Helper, r: RegionId, updatesSize: int): (h': Helper)
    ensures DefaultPrefsAt(h'.prefs, r)
    ensures r in h'.info && h'.info[r] == Info(None, Some(updatesSize), None, None)
    ensures h'.memo == h.memo
    ensures forall o :: o != r ==> AgreeAt(h, h', o)
  {
    SetUpdatesSize(RemoveInfo(h.(prefs := RemovePreferences(h.prefs, r)), r), r, updatesSize)
  }

  /** The loop of `removeLocalForecast` over `ids`, queueing onto `acc`. */
  function RemoveRegions(h: Helper, cat: Catalog, ids: seq<RegionId>, acc: seq<int>): (e: Eviction)
    ensures acc <= e.tiles
    ensures Distinct(acc) ==> Distinct(e.tiles)
    ensures forall t :: t in e.tiles ==> t in acc || CoveredBy(cat, ids, t)
    ensures forall r :: r in ids && r in cat ==> Purged(e.helper, cat, r)
    ensures forall o :: o !in ids || o !in cat ==>
      AgreeAt(h, e.helper, o)
    ensures e.helper.memo == h.memo
    ensures (forall r :: r in ids ==> r !in cat) ==> e == Eviction(h, acc)
    decreases |ids|
  {
    if ids == [] then
      Eviction(h, acc)
    else if ids[0] !in cat then
      RemoveRegions(h, cat, ids[1..], acc)
    else
      var r := ids[0];
      var queued := QueueTiles(h, cat, r, cat[r], acc);
      var h1 := PurgeRegion(h, r, UpdatesSizeOf(cat[r]));
      var e := RemoveRegions(h1, cat, ids[1..], queued);
      assert forall t :: t in e.tiles ==> t in acc || CoveredBy(cat, ids, t) by {
        forall t | t in e.tiles && t !in acc ensures CoveredBy(cat, ids, t) {
          if t in queued {
            assert r in ids && Covers(cat, r, t);
          } else {
            var w :| w in ids[1..] && Covers(cat, w, t);
            assert w in ids;
          }
        }
      }
      assert forall o :: o in ids && o in cat ==> Purged(e.helper, cat, o) by {
        forall o | o in ids && o in cat ensures Purged(e.helper, cat, o) {
          if o !in ids[1..] {
            assert o == r;
            assert AgreeAt(h1, e.helper, o);
          }
        }
      }
      assert forall o :: o !in ids || o !in cat ==> AgreeAt(h, e.helper, o) by {
        forall o | o !in ids || o !in cat ensures AgreeAt(h, e.helper, o) {
          assert o != r;
          assert AgreeAt(h, h1, o) && AgreeAt(h1, e.helper, o);
        }
      }
      e
  }

  /** Some offline region outside `ids`, as the info map lists them in `h`, covers `t`. */
  ghost predicate SharedOutside(h: Helper, cat: Catalog, ids: seq<RegionId>, t: int) {
    exists b :: b in h.info && b !in ids && IsOffline(State(h.prefs, b)) && Covers(cat, b, t)
  }

  /**
   * The loop of `removeLocalForecast` queues exactly the tiles of the listed
   * regions that no offline region outside the list covers. A tile shared
   * only among listed regions is queued once the last of them is reached,
   * because the regions handled before it are no longer offline.
   */
  lemma {:induction false} RemoveRegionsQueuesExactly(h: Helper, cat: Catalog, ids: seq<RegionId>, acc: seq<int>)
    ensures forall t :: t in RemoveRegions(h, cat, ids, acc).tiles <==>
      t in acc || (CoveredBy(cat, ids, t) && !SharedOutside(h, cat, ids, t))
    decreases |ids|
  {
    if ids == [] {
      assert forall t :: !CoveredBy(cat, ids, t);
    } else if ids[0] !in cat {
      RemoveRegionsQueuesExactly(h, cat, ids[1..], acc);
      forall t
        ensures CoveredBy(cat, ids, t) <==> CoveredBy(cat, ids[1..], t)
        ensures SharedOutside(h, cat, ids, t) <==> SharedOutside(h, cat, ids[1..], t)
      {
        if CoveredBy(cat, ids, t) {
          var w :| w in ids && Covers(cat, w, t);
          assert w != ids[0] && w in ids[1..];
        }
        if CoveredBy(cat, ids[1..], t) {
          var w :| w in ids[1..] && Covers(cat, w, t);
          assert w in ids;
        }
        if SharedOutside(h, cat, ids[1..], t) {
          var b :| b in h.info && b !in ids[1..] && IsOffline(State(h.prefs, b)) && Covers(cat, b, t);
          assert b != ids[0] && b !in ids;
        }
      }
    } else {
      var r := ids[0];
      var queued := QueueTiles(h, cat, r, cat[r], acc);
      var h1 := PurgeRegion(h, r, UpdatesSizeOf(cat[r]));
      var e := RemoveRegions(h1, cat, ids[1..], queued);
      assert RemoveRegions(h, cat, ids, acc) == e;
      RemoveRegionsQueuesExactly(h1, cat, ids[1..], queued);
      forall t
        ensures t in e.tiles <==> t in acc || (CoveredBy(cat, ids, t) && !SharedOutside(h, cat, ids, t))
      {
        assert SharedOutside(h1, cat, ids[1..], t) <==> SharedOutside(h, cat, ids, t) by {
          if SharedOutside(h1, cat, ids[1..], t) {
            var b :| b in h1.info && b !in ids[1..] && IsOffline(State(h1.prefs, b)) && Covers(cat, b, t);
            assert b != r;
            assert AgreeAt(h, h1, b);
          }
          if SharedOutside(h, cat, ids, t) {
            var b :| b in h.info && b !in ids && IsOffline(State(h.prefs, b)) && Covers(cat, b, t);
            assert b != r && b !in ids[1..];
            assert AgreeAt(h, h1, b);
          }
        }
        if t in e.tiles && t !in acc {
          if t in queued {
            assert Covers(cat, r, t) && r in ids;
          } else {
            var w :| w in ids[1..] && Covers(cat, w, t);
            assert w in ids;
          }
        }
        if t !in acc && CoveredBy(cat, ids, t) && !SharedOutside(h, cat, ids, t) && !CoveredBy(cat, ids[1..], t) {
          var w :| w in ids && Covers(cat, w, t);
          assert w == r;
          forall b | b in h.info && b != r && IsOffline(State(h.prefs, b))
            ensures !Covers(cat, b, t)
          {
            if b in ids {
              assert b in ids[1..];
            }
          }
          assert t in queued;
        }
      }
    }
  }

  /**
   * `removeLocalForecast`: zeroes the size memo and, for every listed region
   * the catalog knows, queues its tiles that no other offline region covers,
   * resets its preferences and leaves an info entry holding only its
   * download estimate. Unknown regions are skipped untouched.
   */
  function RemoveLocalForecast(h: Helper, cat: Catalog, ids: seq<RegionId>): (e: Eviction)
    ensures Distinct(e.tiles)
    ensures forall t :: t in e.tiles ==> CoveredBy(cat, ids, t)
    ensures forall r :: r in ids && r in cat ==> Purged(e.helper, cat, r)
    ensures forall o :: o !in ids || o !in cat ==>
      AgreeAt(h, e.helper, o)
    ensures e.helper.memo == ResetMemo(h.memo)
    ensures (forall r :: r in ids ==> r !in cat) ==> e == Eviction(h.(memo := ResetMemo(h.memo)), [])
    ensures forall t :: t in e.tiles <==> CoveredBy(cat, ids, t) && !SharedOutside(h, cat, ids, t)
  {
    var h0 := h.(memo := ResetMemo(h.memo));
    RemoveRegionsQueuesExactly(h0, cat, ids, []);
    RemoveRegions(h0, cat, ids, [])
  }

  /**
   * A tile of an offline region that is not itself being removed is never
   * queued for deletion, whichever region of the list also covers it.
   */
  lemma {:induction false} RemoveRegionsSparesOfflineTiles(h: Helper, cat: Catalog, ids: seq<RegionId>,
                                                            acc: seq<int>, t: int, b: RegionId)
    requires b in h.info && b !in ids && IsOffline(State(h.prefs, b)) && Covers(cat, b, t)
    requires t !in acc
    ensures t !in RemoveRegions(h, cat, ids, acc).tiles
    decreases |ids|
  {
    if ids != [] {
      if ids[0] !in cat {
        RemoveRegionsSparesOfflineTiles(h, cat, ids[1..], acc, t, b);
      } else {
        var r := ids[0];
        assert IsContainsInOfflineRegions(h, cat, t, r);
        var queued := QueueTiles(h, cat, r, cat[r], acc);
        var h1 := PurgeRegion(h, r, UpdatesSizeOf(cat[r]));
        assert SamePrefsAt(h.prefs, h1.prefs, b) && InfoAgrees(h, h1, b);
        RemoveRegionsSparesOfflineTiles(h1, cat, ids[1..], queued, t, b);
      }
    }
  }

  /** The same guarantee for `removeLocalForecast` itself. */
  lemma RemoveLocalForecastSparesOfflineTiles(h: Helper, cat: Catalog, ids: seq<RegionId>, t: int, b: RegionId)
    requires b in h.info && b !in ids && IsOffline(State(h.prefs, b)) && Covers(cat, b, t)
    ensures t !in RemoveLocalForecast(h, cat, ids).tiles
  {
    RemoveRegionsSparesOfflineTiles(h.(memo := ResetMemo(h.memo)), cat, ids, [], t, b);
  }

  /**
   * Removing one region deletes exactly its tiles that no other offline
   * region covers.
   */
  lemma RemoveOneRegionDeletesUnsharedTiles(h: Helper, cat: Catalog, r: RegionId, t: int)
    ensures t in RemoveLocalForecast(h, cat, [r]).tiles <==>
      Covers(cat, r, t) && !(exists b :: b in h.info && b != r && IsOffline(State(h.prefs, b)) && Covers(cat, b, t))
  {
    assert CoveredBy(cat, [r], t) <==> Covers(cat, r, t);
    assert SharedOutside(h, cat, [r], t) <==> IsContainsInOfflineRegions(h, cat, t, r);
  }

  // ---------------------------------------------------------------------------
  // Clearing the cache

  /** The download state `prepareToStopDownloading` leaves behind. */
  function StoppedState(s: DownloadState, lastUpdate: int): (s': DownloadState)
    ensures s' != InProgress
    ensures s != InProgress ==> s' == s
  {
    if s != InProgress then s
    else if lastUpdate == NEVER_UPDATED then Undefined
    else Finished
  }

  /** The progress `prepareToStopDownloading` leaves behind. */
  function StoppedProgress(h: Helper, cat: Catalog, r: RegionId): int {
    if State(h.prefs, r) != InProgress then Progress(h, r)
    else if LastUpdate(h.prefs, r) == NEVER_UPDATED then 0
    else Destination(cat, r)
  }

  /** Stopping `r` drops its info entry: a download that never completed a cycle. */
  predicate StopPurges(h: Helper, r: RegionId) {
    State(h.prefs, r) == InProgress && LastUpdate(h.prefs, r) == NEVER_UPDATED
  }

  /**
   * Region `r` of `h'` is region `r` of `h` with its local size zeroed and
   * its download stopped; a purged entry loses its updates size and flag.
   */
  ghost predicate ClearedAndStopped(h: Helper, h': Helper, cat: Catalog, r: RegionId) {
    && State(h'.prefs, r) == StoppedState(State(h.prefs, r), LastUpdate(h.prefs, r))
    && LastUpdate(h'.prefs, r) == LastUpdate(h.prefs, r)
    && FrequencyOf(h'.prefs, r) == FrequencyOf(h.prefs, r)
    && WifiOnly(h'.prefs, r) == WifiOnly(h.prefs, r)
    && Progress(h', r) == StoppedProgress(h, cat, r)
    && LocalSize(h', r) == 0
    && UpdatesSize(h', r) == (if StopPurges(h, r) then 0 else UpdatesSize(h, r))
    && SizesCalculated(h', r) == (!StopPurges(h, r) && SizesCalculated(h, r))
  }

  /**
   * One turn of the `clearCache` loop: zero the local size (creating the
   * entry if needed), then stop the download, which may drop the entry again.
   */
  function ClearRegion(h: Helper, cat: Catalog, r: RegionId): (h': Helper)
    ensures ClearedAndStopped(h, h', cat, r)
    ensures r in h'.info <==> !StopPurges(h, r)
    ensures h'.memo == ResetMemoPart(h.memo, true)
    ensures forall o :: o != r ==> AgreeAt(h, h', o)
  {
    ForecastDownload.PrepareToStopDownloading(SetLocalSize(h, r, 0), cat, r)
  }

  /**
   * The `clearCache` loop over `ids`. A region listed twice ends stopped as
   * if listed once, but a purged entry is created again (local size 0 only)
   * by the second turn.
   */
  function ClearRegions(h: Helper, cat: Catalog, ids: seq<RegionId>): (h': Helper)
    ensures forall r :: r in ids ==> ClearedAndStopped(h, h', cat, r)
    ensures forall r :: r in ids ==> (r in h'.info <==> !(StopPurges(h, r) && multiset(ids)[r] == 1))
    ensures forall o :: o !in ids ==> AgreeAt(h, h', o)
    ensures h'.memo.remote == h.memo.remote
    ensures ids != [] ==> h'.memo.local == 0
    decreases |ids|
  {
    if ids == [] then
      h
    else
      var h1 := ClearRegion(h, cat, ids[0]);
      var h' := ClearRegions(h1, cat, ids[1..]);
      assert forall r :: r in ids ==> ClearedAndStopped(h, h', cat, r) by {
        forall r | r in ids ensures ClearedAndStopped(h, h', cat, r) {
          if r == ids[0] && r in ids[1..] {
            assert ClearedAndStopped(h, h1, cat, r) && ClearedAndStopped(h1, h', cat, r);
          } else if r == ids[0] {
            assert ClearedAndStopped(h, h1, cat, r) && AgreeAt(h1, h', r);
          } else {
            assert r in ids[1..];
            assert AgreeAt(h, h1, r) && ClearedAndStopped(h1, h', cat, r);
            assert StoppedProgress(h, cat, r) == StoppedProgress(h1, cat, r);
          }
        }
      }
      assert forall r :: r in ids ==> (r in h'.info <==> !(StopPurges(h, r) && multiset(ids)[r] == 1)) by {
        assert ids == [ids[0]] + ids[1..];
        forall r | r in ids ensures r in h'.info <==> !(StopPurges(h, r) && multiset(ids)[r] == 1) {
          if r == ids[0] && r in ids[1..] {
            assert !StopPurges(h1, r) && multiset(ids)[r] > 1;
          } else if r == ids[0] {
            assert AgreeAt(h1, h', r) && multiset(ids)[r] == 1;
          } else {
            assert r in ids[1..];
            assert AgreeAt(h, h1, r) && multiset(ids)[r] == multiset(ids[1..])[r];
          }
        }
      }
      assert forall o :: o !in ids ==> AgreeAt(h, h', o) by {
        forall o | o !in ids ensures AgreeAt(h, h', o) {
          assert o != ids[0] && o !in ids[1..];
          assert AgreeAt(h, h1, o) && AgreeAt(h1, h', o);
        }
      }
      h'
  }

  /** The regions `clearCache` works on: for local data with no ids given, every offline region. */
  function ClearTargets(h: Helper, localData: bool, ids: seq<RegionId>, order: seq<RegionId>): (targets: seq<RegionId>)
    requires localData && ids == [] ==> EnumeratesKeys(order, h.info.Keys)
    ensures localData && ids == [] ==>
      forall r :: r in targets <==> r in h.info && IsOffline(State(h.prefs, r))
    ensures !(localData && ids == []) ==> targets == ids
  {
    if localData && ids == [] then TempForecastsWithDownloadStates(h, order, OFFLINE_STATES) else ids
  }

  /** The new state and the tile ids handed to the tile store as local and as remote data. */
  datatype Clearing = Clearing(helper: Helper, localTiles: seq<int>, remoteTiles: seq<int>)

  /**
   * `clearCache`: for local data, each target region has its local size
   * zeroed and its download stopped; then the remote part of the memo is
   * zeroed and the targets' tiles are cleared, as local or as remote data.
   */
  function ClearCache(h: Helper, cat: Catalog, localData: bool, ids: seq<RegionId>, order: seq<RegionId>): (c: Clearing)
    requires localData && ids == [] ==> EnumeratesKeys(order, h.info.Keys)
    ensures var targets := ClearTargets(h, localData, ids, order);
      && (localData ==> c.remoteTiles == [] && Distinct(c.localTiles)
                        && forall t :: t in c.localTiles <==> CoveredBy(cat, targets, t))
      && (!localData ==> c.localTiles == [] && Distinct(c.remoteTiles)
                         && forall t :: t in c.remoteTiles <==> CoveredBy(cat, targets, t))
      && (localData ==> forall r :: r in targets ==> ClearedAndStopped(h, c.helper, cat, r))
      && (localData ==> forall r :: r in targets ==>
            (r in c.helper.info <==> !(StopPurges(h, r) && multiset(targets)[r] == 1)))
      && (localData && targets != [] ==> c.helper.memo == CacheMemo(0, 0))
      && (!(localData && targets != []) ==> c.helper.memo == ResetMemoPart(h.memo, false))
      && (forall o :: o !in targets ==>
           AgreeAt(h, c.helper, o))
    ensures !localData ==> c.helper.prefs == h.prefs && c.helper.info == h.info
    ensures c.helper.memo.remote == 0
  {
    var targets := ClearTargets(h, localData, ids, order);
    var h1 := if localData then ClearRegions(h, cat, targets) else h;
    var h2 := h1.(memo := ResetMemoPart(h1.memo, false));
    var tiles := OfflineTileIds(cat, targets);
    if localData then Clearing(h2, tiles, []) else Clearing(h2, [], tiles)
  }
}
