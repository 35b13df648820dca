/**
 * The per-region download cycle: starting a download, the completion
 * callback each forecast-slice request delivers, and cooperative stopping.
 *
 * The callbacks of the native download engine arrive on other threads in
 * any order; here each is one sequential event applied to the helper state.
 */
module ForecastDownload {
  import opened Wrappers
  import opened JavaInt
  import opened ForecastStore
  import opened ForecastSchedule

  /** What the plugin registry and the connectivity settings report when a download is asked for. */
  datatype Connectivity = Connectivity(pluginActive: bool, online: bool, onWifi: bool)

  /** A download start refused for the region, per the three guards of `downloadForecastByRegion`. */
  predicate DownloadRefused(h: Helper, env: Connectivity, r: RegionId) {
    !env.pluginActive || !env.online || (!env.onWifi && WifiOnly(h.prefs, r))
  }

  /**
   * The outcome of `downloadForecastByRegion`: the new state, the timestamps
   * of the requests handed to the engine, the total work reported to a
   * progress sink (when one is given) and the returned flag.
   */
  datatype DownloadStart = DownloadStart(helper: Helper, requests: seq<int>, totalWork: Option<int>, finished: bool)

  /**
   * `downloadForecastByRegion`. Nothing else runs while its loop does, so
   * the state it polls stays IN_PROGRESS and the whole schedule is issued
   * (`IssueRequests` models the loop under cancellation); the returned flag
   * is read before any callback can arrive.
   */
  function DownloadForecastByRegion(h: Helper, cat: Catalog, env: Connectivity, r: RegionId,
                                    startOfToday: int, withSink: bool): (d: DownloadStart)
    ensures DownloadRefused(h, env, r) <==> d.requests == []
    ensures DownloadRefused(h, env, r) ==> d.helper == h && d.totalWork == None
    ensures !DownloadRefused(h, env, r) ==>
      && State(d.helper.prefs, r) == InProgress
      && Progress(d.helper, r) == 0
      && d.requests == Schedule(startOfToday)
      && r in d.helper.info
      && d.totalWork == (if withSink then Some(Destination(cat, r)) else None)
    ensures LastUpdate(d.helper.prefs, r) == LastUpdate(h.prefs, r)
    ensures FrequencyOf(d.helper.prefs, r) == FrequencyOf(h.prefs, r)
    ensures WifiOnly(d.helper.prefs, r) == WifiOnly(h.prefs, r)
    ensures LocalSize(d.helper, r) == LocalSize(h, r) && UpdatesSize(d.helper, r) == UpdatesSize(h, r)
    ensures SizesCalculated(d.helper, r) == SizesCalculated(h, r)
    ensures d.helper.memo == h.memo
    ensures forall o :: o != r ==> SamePrefsAt(h.prefs, d.helper.prefs, o) && InfoAgrees(h, d.helper, o)
    ensures !d.finished
  {
    if DownloadRefused(h, env, r) then
      DownloadStart(h, [], None, false)
    else
      var h1 := SetProgress(h, r, 0);
      var h2 := h1.(prefs := SetState(h1.prefs, r, InProgress));
      var sink := if withSink then Some(Destination(cat, r)) else None;
      DownloadStart(h2, Schedule(startOfToday), sink, State(h2.prefs, r) == Finished)
  }

  /**
   * `currentProgress >= 1.f` where `currentProgress = (float) p / d`, read
   * over the reals: for d < 0 the ratio is at least one when p <= d, and
   * for d == 0 it is +Infinity when p > 0 and NaN when p == 0.
   */
  predicate ReachedDestination(p: int, d: int) {
    if 0 < d then d <= p else if d == 0 then 0 < p else p <= d
  }

  /**
   * For a non-zero destination, the test is the ratio of progress to
   * destination reaching one; for a zero destination it is the IEEE
   * quotient being +Infinity, which happens exactly for a positive progress.
   */
  lemma ReachedDestinationIsRatioAtLeastOne(p: int, d: int)
    ensures d != 0 ==> (ReachedDestination(p, d) <==> (p as real) / (d as real) >= 1.0)
    ensures d == 0 ==> (ReachedDestination(p, d) <==> 0 < p)
  {
    if d != 0 {
      var q := (p as real) / (d as real);
      assert q * (d as real) == p as real;
      if 0 < d {
        assert q >= 1.0 ==> q * (d as real) >= d as real;
        assert q < 1.0 ==> q * (d as real) < d as real;
      } else {
        assert q >= 1.0 ==> q * (d as real) <= d as real;
        assert q < 1.0 ==> q * (d as real) > d as real;
      }
    }
  }

  /**
   * The outcome of one completion callback: the new state, the remaining
   * work reported to the sink (None when the callback was ignored or the
   * download has no sink) and whether this callback moved the region to
   * FINISHED.
   */
  datatype ProgressUpdate = ProgressUpdate(helper: Helper, remaining: Option<int>, finishedNow: bool)

  /**
   * `onUpdateDownloadProgress`: ignored unless the region is IN_PROGRESS;
   * otherwise one more slice counts as done whether or not its fetch
   * succeeded, the sink (`withSink`: the download was started with one) is
   * told the remaining work, and reaching the destination finishes the
   * cycle, stamping `now` (the current time already converted to GMT) as
   * the last update.
   */
  function OnUpdateDownloadProgress(h: Helper, cat: Catalog, r: RegionId, withSink: bool, success: bool, now: int)
    : (u: ProgressUpdate)
    ensures State(h.prefs, r) != InProgress ==> u == ProgressUpdate(h, None, false)
    ensures !withSink ==> u.remaining == None
    ensures State(h.prefs, r) == InProgress && INT_MIN <= Progress(h, r) < INT_MAX ==> Progress(u.helper, r) == Progress(h, r) + 1
    ensures u.finishedNow <==> State(h.prefs, r) == InProgress && State(u.helper.prefs, r) == Finished
    ensures u.finishedNow ==> LastUpdate(u.helper.prefs, r) == now && u.helper.memo == ResetMemo(h.memo)
    ensures !u.finishedNow ==> u.helper.prefs == h.prefs && u.helper.memo == h.memo
    ensures State(h.prefs, r) == InProgress && 0 < Destination(cat, r) && 0 <= Progress(h, r) < Destination(cat, r) ==>
      && (u.finishedNow <==> Progress(h, r) + 1 == Destination(cat, r))
      && u.remaining == (if withSink then Some(Destination(cat, r) - Progress(h, r) - 1) else None)
    ensures FrequencyOf(u.helper.prefs, r) == FrequencyOf(h.prefs, r) && WifiOnly(u.helper.prefs, r) == WifiOnly(h.prefs, r)
    ensures LocalSize(u.helper, r) == LocalSize(h, r) && UpdatesSize(u.helper, r) == UpdatesSize(h, r)
    ensures SizesCalculated(u.helper, r) == SizesCalculated(h, r)
    ensures forall o :: o != r ==> SamePrefsAt(h.prefs, u.helper.prefs, o) && InfoAgrees(h, u.helper, o)
  {
    if State(h.prefs, r) != InProgress then
      ProgressUpdate(h, None, false)
    else
      var destination := Destination(cat, r);
      var downloaded := Wrap32(Progress(h, r) + 1);
      var h1 := SetProgress(h, r, downloaded);
      var remaining := if withSink then Some(Wrap32(destination - downloaded)) else None;
      if ReachedDestination(downloaded, destination) then
        var prefs := SetLastUpdate(SetState(h1.prefs, r, Finished), r, now);
        ProgressUpdate(Helper(prefs, h1.info, ResetMemo(h1.memo)), remaining, true)
      else
        ProgressUpdate(h1, remaining, false)
  }

  /** A failed fetch moves the cycle exactly as a successful one does. */
  lemma FailedFetchCountsLikeSuccess(h: Helper, cat: Catalog, r: RegionId, withSink: bool, now: int)
    ensures OnUpdateDownloadProgress(h, cat, r, withSink, false, now) == OnUpdateDownloadProgress(h, cat, r, withSink, true, now)
  {
  }

  /**
   * `prepareToStopDownloading`: zeroes the local part of the size memo and,
   * for a region IN_PROGRESS, ends the cycle: a region never downloaded
   * before goes back to UNDEFINED and loses its info entry, any other is
   * FINISHED with its progress at the destination.
   */
  function PrepareToStopDownloading(h: Helper, cat: Catalog, r: RegionId): (h': Helper)
    ensures h'.memo == ResetMemoPart(h.memo, true)
    ensures State(h.prefs, r) != InProgress ==> h'.prefs == h.prefs && h'.info == h.info
    ensures State(h.prefs, r) == InProgress && LastUpdate(h.prefs, r) == NEVER_UPDATED ==>
      State(h'.prefs, r) == Undefined && r !in h'.info
    ensures State(h.prefs, r) == InProgress && LastUpdate(h.prefs, r) != NEVER_UPDATED ==>
      && State(h'.prefs, r) == Finished
      && Progress(h', r) == Destination(cat, r)
      && LocalSize(h', r) == LocalSize(h, r) && UpdatesSize(h', r) == UpdatesSize(h, r)
      && SizesCalculated(h', r) == SizesCalculated(h, r)
    ensures LastUpdate(h'.prefs, r) == LastUpdate(h.prefs, r)
    ensures FrequencyOf(h'.prefs, r) == FrequencyOf(h.prefs, r) && WifiOnly(h'.prefs, r) == WifiOnly(h.prefs, r)
    ensures forall o :: o != r ==> SamePrefsAt(h.prefs, h'.prefs, o) && InfoAgrees(h, h', o)
  {
    var h0 := h.(memo := ResetMemoPart(h.memo, true));
    if State(h0.prefs, r) != InProgress then
      h0
    else
      var undefined := SetState(h0.prefs, r, Undefined);
      if LastUpdate(undefined, r) == NEVER_UPDATED then
        RemoveInfo(h0.(prefs := undefined), r)
      else
        SetProgress(h0.(prefs := SetState(undefined, r, Finished)), r, Destination(cat, r))
  }

  // ---------------------------------------------------------------------------
  // A whole cycle of callbacks

  /** One completion callback: whether the fetch succeeded and the GMT time it arrived. */
  datatype Callback = Callback(success: bool, now: int)

  /** The state after a run of callbacks, and how many of them finished the cycle. */
  datatype Delivery = Delivery(helper: Helper, finishes: nat)

  /** Delivers `events` in order to the callbacks of a download started with or without a sink. */
  function DeliverCallbacks(h: Helper, cat: Catalog, r: RegionId, withSink: bool, events: seq<Callback>): (out: Delivery)
    ensures State(h.prefs, r) != InProgress ==> out == Delivery(h, 0)
    decreases |events|
  {
    if events == [] then
      Delivery(h, 0)
    else
      var u := OnUpdateDownloadProgress(h, cat, r, withSink, events[0].success, events[0].now);
      var rest := DeliverCallbacks(u.helper, cat, r, withSink, events[1..]);
      Delivery(rest.helper, rest.finishes + if u.finishedNow then 1 else 0)
  }

  /**
   * From a running cycle with a positive destination, callbacks count up one
   * by one whatever their outcome; the one that reaches the destination
   * finishes the cycle and stamps its time, and the later ones change
   * nothing: progress never passes the destination and FINISHED is set once.
   */
  lemma {:induction false} CycleFinishesExactlyOnce(h: Helper, cat: Catalog, r: RegionId, withSink: bool, events: seq<Callback>)
    requires State(h.prefs, r) == InProgress
    requires 0 < Destination(cat, r)
    requires 0 <= Progress(h, r) < Destination(cat, r)
    ensures var out := DeliverCallbacks(h, cat, r, withSink, events);
      if Progress(h, r) + |events| < Destination(cat, r) then
        && State(out.helper.prefs, r) == InProgress
        && Progress(out.helper, r) == Progress(h, r) + |events|
        && LastUpdate(out.helper.prefs, r) == LastUpdate(h.prefs, r)
        && out.finishes == 0
      else
        && State(out.helper.prefs, r) == Finished
        && Progress(out.helper, r) == Destination(cat, r)
        && LastUpdate(out.helper.prefs, r) == events[Destination(cat, r) - Progress(h, r) - 1].now
        && out.finishes == 1
    decreases |events|
  {
    if events != [] {
      var u := OnUpdateDownloadProgress(h, cat, r, withSink, events[0].success, events[0].now);
      var rest := DeliverCallbacks(u.helper, cat, r, withSink, events[1..]);
      if Progress(h, r) + 1 == Destination(cat, r) {
        assert u.finishedNow;
        assert rest == Delivery(u.helper, 0);
      } else {
        assert !u.finishedNow;
        CycleFinishesExactlyOnce(u.helper, cat, r, withSink, events[1..]);
        if Destination(cat, r) <= Progress(h, r) + |events| {
          assert events[1..][Destination(cat, r) - Progress(u.helper, r) - 1]
            == events[Destination(cat, r) - Progress(h, r) - 1];
        }
      }
    }
  }
}
