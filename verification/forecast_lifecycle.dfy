/**
 * The entry points that combine the download cycle with the cache
 * operations (`checkAndStopWeatherDownload`, `firstInitForecast`) and the
 * state-machine facts about whole sequences of events.
 */
module ForecastLifecycle {
  import opened ForecastStore
  import opened ForecastDownload
  import opened ForecastCache
  import opened ForecastQueries

  /**
   * `checkAndStopWeatherDownload`: stops the download; a region left
   * UNDEFINED has its local forecast removed, a FINISHED one has its sizes
   * recalculated (`storedSize` is what the tile store reports for it).
   */
  function CheckAndStopWeatherDownload(h: Helper, cat: Catalog, region: Region, storedSize: int): (e: Eviction)
    ensures State(e.helper.prefs, region.id) != InProgress
    ensures State(h.prefs, region.id) == Finished ==>
      && State(e.helper.prefs, region.id) == Finished
      && Progress(e.helper, region.id) == Progress(h, region.id)
      && e.tiles == []
    ensures State(h.prefs, region.id) == InProgress && LastUpdate(h.prefs, region.id) != NEVER_UPDATED ==>
      && State(e.helper.prefs, region.id) == Finished
      && Progress(e.helper, region.id) == Destination(cat, region.id)
      && e.tiles == []
    ensures State(e.helper.prefs, region.id) == Finished ==>
      && (SizesCalculated(e.helper, region.id) <==> region.tiles != [])
      && (region.tiles != [] ==>
            LocalSize(e.helper, region.id) == storedSize && UpdatesSize(e.helper, region.id) == UpdatesSizeOf(region.tiles))
      && (region.tiles == [] ==> LocalSize(e.helper, region.id) == 0 && UpdatesSize(e.helper, region.id) == 0)
      && LastUpdate(e.helper.prefs, region.id) == LastUpdate(h.prefs, region.id)
      && FrequencyOf(e.helper.prefs, region.id) == FrequencyOf(h.prefs, region.id)
      && WifiOnly(e.helper.prefs, region.id) == WifiOnly(h.prefs, region.id)
      && e.helper.memo == ResetMemoPart(h.memo, true)
    ensures State(e.helper.prefs, region.id) == Undefined ==> e.helper.memo == ResetMemo(h.memo)
    ensures (State(h.prefs, region.id) == Undefined
             || (State(h.prefs, region.id) == InProgress && LastUpdate(h.prefs, region.id) == NEVER_UPDATED)) ==>
      && State(e.helper.prefs, region.id) == Undefined
      && (region.id in cat ==> Purged(e.helper, cat, region.id))
      && Distinct(e.tiles)
      && forall t :: t in e.tiles <==> Covers(cat, region.id, t) && !IsContainsInOfflineRegions(h, cat, t, region.id)
    ensures forall o :: o != region.id ==> AgreeAt(h, e.helper, o)
  {
    var id := region.id;
    var h1 := PrepareToStopDownloading(h, cat, id);
    if State(h1.prefs, id) == Undefined then
      EvictionAfterStop(h, cat, id);
      RemoveLocalForecast(h1, cat, [id])
    else
      // the stop leaves no region IN_PROGRESS, so the region is FINISHED here
      Eviction(CalculateCacheSize(h1, region, storedSize), [])
  }

  /**
   * The removal that follows a stop, stated against the state before the
   * stop: the stop changes no other region, so the same tiles are shared.
   */
  lemma EvictionAfterStop(h: Helper, cat: Catalog, id: RegionId)
    ensures var e := RemoveLocalForecast(ForecastDownload.PrepareToStopDownloading(h, cat, id), cat, [id]);
      && (forall t :: t in e.tiles <==> Covers(cat, id, t) && !IsContainsInOfflineRegions(h, cat, t, id))
      && (forall o :: o != id ==> AgreeAt(h, e.helper, o))
  {
    var h1 := ForecastDownload.PrepareToStopDownloading(h, cat, id);
    var e := RemoveLocalForecast(h1, cat, [id]);
    forall t ensures t in e.tiles <==> Covers(cat, id, t) && !IsContainsInOfflineRegions(h, cat, t, id) {
      RemoveOneRegionDeletesUnsharedTiles(h1, cat, id, t);
      SharingIgnoresExcluded(h, h1, cat, t, id);
    }
    forall o | o != id ensures AgreeAt(h, e.helper, o) {
      assert AgreeAt(h, h1, o) && o !in [id] && AgreeAt(h1, e.helper, o);
    }
  }

  /**
   * `firstInitForecast`: a download interrupted before any completed cycle
   * is removed, a finished region shows full progress, anything else is
   * left alone.
   */
  function FirstInitForecast(h: Helper, cat: Catalog, id: RegionId): (e: Eviction)
    ensures State(h.prefs, id) == InProgress && LastUpdate(h.prefs, id) == NEVER_UPDATED ==>
      (id in cat ==> State(e.helper.prefs, id) == Undefined && Purged(e.helper, cat, id))
      && (id !in cat ==> e == Eviction(h.(memo := ResetMemo(h.memo)), []))
      && e.helper.memo == ResetMemo(h.memo)
      && Distinct(e.tiles)
      && (forall t :: t in e.tiles <==> Covers(cat, id, t) && !IsContainsInOfflineRegions(h, cat, t, id))
    ensures State(h.prefs, id) == Finished ==>
      && e.helper.prefs == h.prefs
      && e.helper.memo == h.memo
      && id in e.helper.info
      && Progress(e.helper, id) == Destination(cat, id)
      && LocalSize(e.helper, id) == LocalSize(h, id) && UpdatesSize(e.helper, id) == UpdatesSize(h, id)
      && SizesCalculated(e.helper, id) == SizesCalculated(h, id)
      && e.tiles == []
    ensures (State(h.prefs, id) == Undefined
             || (State(h.prefs, id) == InProgress && LastUpdate(h.prefs, id) != NEVER_UPDATED)) ==>
      e == Eviction(h, [])
    ensures forall o :: o != id ==> AgreeAt(h, e.helper, o)
  {
    if State(h.prefs, id) == InProgress then
      if LastUpdate(h.prefs, id) == NEVER_UPDATED then
        assert [id][1..] == [];
        var e := RemoveLocalForecast(h, cat, [id]);
        assert forall t :: t in e.tiles <==> Covers(cat, id, t) && !IsContainsInOfflineRegions(h, cat, t, id) by {
          forall t ensures t in e.tiles <==> Covers(cat, id, t) && !IsContainsInOfflineRegions(h, cat, t, id) {
            RemoveOneRegionDeletesUnsharedTiles(h, cat, id, t);
          }
        }
        e
      else
        Eviction(h, [])
    else if State(h.prefs, id) == Finished then
      Eviction(SetProgress(h, id, Destination(cat, id)), [])
    else
      Eviction(h, [])
  }

  /**
   * Start, then stop before any callback: a region never downloaded
   * returns to UNDEFINED without an info entry; one downloaded before is
   * FINISHED with full progress.
   */
  lemma StartThenStop(h: Helper, cat: Catalog, env: Connectivity, id: RegionId, start: int, withSink: bool)
    requires !DownloadRefused(h, env, id)
    ensures var stopped := PrepareToStopDownloading(DownloadForecastByRegion(h, cat, env, id, start, withSink).helper, cat, id);
      && (LastUpdate(h.prefs, id) == NEVER_UPDATED ==> State(stopped.prefs, id) == Undefined && id !in stopped.info)
      && (LastUpdate(h.prefs, id) != NEVER_UPDATED ==>
           State(stopped.prefs, id) == Finished && Progress(stopped, id) == Destination(cat, id))
  {
  }

  /**
   * A download that is allowed to start, followed by at least one callback
   * per tile and slice, ends FINISHED once, with full progress, stamped by
   * the callback that completed it.
   */
  lemma DownloadThenAllCallbacksFinish(h: Helper, cat: Catalog, env: Connectivity, id: RegionId,
                                       start: int, withSink: bool, events: seq<Callback>)
    requires !DownloadRefused(h, env, id)
    requires 0 < Destination(cat, id) <= |events|
    ensures var out := DeliverCallbacks(DownloadForecastByRegion(h, cat, env, id, start, withSink).helper, cat, id, withSink, events);
      && State(out.helper.prefs, id) == Finished
      && Progress(out.helper, id) == Destination(cat, id)
      && LastUpdate(out.helper.prefs, id) == events[Destination(cat, id) - 1].now
      && out.finishes == 1
  {
    var started := DownloadForecastByRegion(h, cat, env, id, start, withSink).helper;
    CycleFinishesExactlyOnce(started, cat, id, withSink, events);
  }

  /**
   * A region of 10 tiles, never downloaded: 730 callbacks (10 tiles times
   * 73 slices) finish it with progress 730 and a real last-update time.
   */
  lemma TenTileRegionFinishesAfter730Callbacks(h: Helper, cat: Catalog, env: Connectivity, id: RegionId,
                                               start: int, withSink: bool, events: seq<Callback>)
    requires !DownloadRefused(h, env, id)
    requires id in cat && |cat[id]| == 10
    requires |events| == 730
    requires forall i :: 0 <= i < |events| ==> events[i].now != NEVER_UPDATED
    ensures var out := DeliverCallbacks(DownloadForecastByRegion(h, cat, env, id, start, withSink).helper, cat, id, withSink, events);
      && State(out.helper.prefs, id) == Finished
      && Progress(out.helper, id) == 730
      && LastUpdate(out.helper.prefs, id) != NEVER_UPDATED
  {
    assert Destination(cat, id) == 730;
    DownloadThenAllCallbacksFinish(h, cat, env, id, start, withSink, events);
  }

  /**
   * After a completed cycle the region's index item is dated by the
   * callback that completed it, not by the start of today.
   */
  lemma IndexItemDatedByCompletingCallback(h: Helper, cat: Catalog, env: Connectivity, id: RegionId,
                                           start: int, withSink: bool, events: seq<Callback>, startOfToday: int)
    requires !DownloadRefused(h, env, id)
    requires 0 < Destination(cat, id) <= |events|
    ensures var out := DeliverCallbacks(DownloadForecastByRegion(h, cat, env, id, start, withSink).helper, cat, id, withSink, events);
      CreateIndexItem(out.helper, id, startOfToday).timestamp == events[Destination(cat, id) - 1].now
  {
    DownloadThenAllCallbacksFinish(h, cat, env, id, start, withSink, events);
  }
}
