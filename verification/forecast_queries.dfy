/**
 * Read-only questions the helper answers about a region: whether it gets a
 * weather forecast at all, whether its forecast is outdated, whether a
 * scheduled check would download it again, and what its index item shows.
 */
module ForecastQueries {
  import opened JavaInt
  import opened ForecastStore

  /** Region identifiers declared in `WorldRegion`, which is not part of this model. */
  const WORLD_REGION_ID: string := "world"
  const RUSSIA_REGION_ID: string := "russia"
  const UNITED_KINGDOM_REGION_ID: string := "gb"

  /**
   * `shouldHaveWeatherForecast`: the world, Russia as a whole at level 1,
   * countries at level 2 outside Russia except the United Kingdom, and the
   * United Kingdom itself at level 3.
   */
  function ShouldHaveWeatherForecast(id: string, level: int): (should: bool)
    ensures id == WORLD_REGION_ID ==> should
    ensures should && id != WORLD_REGION_ID ==> 1 <= level <= 3
    ensures should && level == 1 ==> id == WORLD_REGION_ID || id == RUSSIA_REGION_ID
  {
    var russia := id == RUSSIA_REGION_ID;
    var russiaPrefix := RUSSIA_REGION_ID <= id;
    var unitedKingdom := id == UNITED_KINGDOM_REGION_ID;
    id == WORLD_REGION_ID
    || (level == 1 && russia)
    || (level > 1 && !russiaPrefix && ((level == 2 && !unitedKingdom) || (level == 3 && unitedKingdom)))
  }

  /** The same decision read level by level. */
  lemma ShouldHaveWeatherForecastByLevel(id: string, level: int)
    ensures id == WORLD_REGION_ID ==> ShouldHaveWeatherForecast(id, level)
    ensures id != WORLD_REGION_ID && level == 1 ==> (ShouldHaveWeatherForecast(id, level) <==> id == RUSSIA_REGION_ID)
    ensures id != WORLD_REGION_ID && level == 2 ==>
      (ShouldHaveWeatherForecast(id, level) <==> !(RUSSIA_REGION_ID <= id) && id != UNITED_KINGDOM_REGION_ID)
    ensures id != WORLD_REGION_ID && level == 3 ==>
      (ShouldHaveWeatherForecast(id, level) <==> id == UNITED_KINGDOM_REGION_ID)
    ensures id != WORLD_REGION_ID && (level < 1 || 3 < level) ==> !ShouldHaveWeatherForecast(id, level)
  {
    if id == UNITED_KINGDOM_REGION_ID {
      assert id[0] != RUSSIA_REGION_ID[0];
    }
  }

  const DAY_MS: int := 86_400_000

  /** A finished forecast is outdated once this many whole days have passed. */
  const OUTDATED_DAYS: int := 7

  /** `passedTime / DAY_IN_MILLIS` on `long`s: whole days, truncated toward zero. */
  function WholeDays(passed: int): (days: int)
    ensures 0 <= passed ==> 0 <= days && days * DAY_MS <= passed < days * DAY_MS + DAY_MS
    ensures passed < 0 ==> days <= 0 && days * DAY_MS - DAY_MS < passed <= days * DAY_MS
  {
    if 0 <= passed then passed / DAY_MS else -((-passed) / DAY_MS)
  }

  /**
   * `isForecastOutdated`: whole days between the last update and the start
   * of today, `(int) (passedTime / DAY_IN_MILLIS)` on `long`s, reach seven.
   */
  function IsForecastOutdated(h: Helper, id: RegionId, startOfToday: int): (outdated: bool)
    ensures outdated ==> State(h.prefs, id) == Finished && LastUpdate(h.prefs, id) != NEVER_UPDATED
  {
    if State(h.prefs, id) == Finished then
      var lastUpdate := LastUpdate(h.prefs, id);
      var daysGone := if lastUpdate != NEVER_UPDATED then Wrap32(WholeDays(Wrap64(startOfToday - lastUpdate))) else 0;
      daysGone >= OUTDATED_DAYS
    else
      false
  }

  /** Without overflow, a finished forecast is outdated exactly when a full week has passed since its update. */
  lemma OutdatedExactlyAfterAWeek(h: Helper, id: RegionId, startOfToday: int)
    requires -INT_MAX * DAY_MS <= startOfToday - LastUpdate(h.prefs, id) <= INT_MAX * DAY_MS
    ensures IsForecastOutdated(h, id, startOfToday) <==>
      && State(h.prefs, id) == Finished
      && LastUpdate(h.prefs, id) != NEVER_UPDATED
      && startOfToday - LastUpdate(h.prefs, id) >= OUTDATED_DAYS * DAY_MS
  {
    var passed := startOfToday - LastUpdate(h.prefs, id);
    assert IsLong(passed);
    var q := WholeDays(passed);
    assert -INT_MAX <= q <= INT_MAX;
  }

  /**
   * The test `checkAndDownloadForecastsByRegionIds` applies to each listed
   * region: online, not held back by the Wi-Fi-only flag, and
   * `nowTime >= lastUpdateTime + secondsRequired` on `long`s, which adds a
   * number of seconds to a time in milliseconds. `secondsRequired` stands
   * for the frequency enum's own accessor.
   */
  function DueForScheduledDownload(h: Helper, id: RegionId, online: bool, onWifi: bool, now: int,
                                   secondsRequired: UpdatesFrequency -> int): (due: bool)
    ensures due ==> online
    ensures due && WifiOnly(h.prefs, id) ==> onWifi
    ensures due && IsLong(LastUpdate(h.prefs, id) + secondsRequired(FrequencyOf(h.prefs, id))) ==>
      now - LastUpdate(h.prefs, id) >= secondsRequired(FrequencyOf(h.prefs, id))
  {
    && online
    && !(!onWifi && WifiOnly(h.prefs, id))
    && now >= Wrap64(LastUpdate(h.prefs, id) + secondsRequired(FrequencyOf(h.prefs, id)))
  }

  /** As written, the required wait is counted in milliseconds. */
  lemma ScheduledWaitCountsMilliseconds(h: Helper, id: RegionId, now: int, secondsRequired: UpdatesFrequency -> int)
    requires IsLong(LastUpdate(h.prefs, id) + secondsRequired(FrequencyOf(h.prefs, id)))
    ensures DueForScheduledDownload(h, id, true, true, now, secondsRequired) <==>
      now - LastUpdate(h.prefs, id) >= secondsRequired(FrequencyOf(h.prefs, id))
  {
  }

  /**
   * A region updated at `lastUpdate` with a frequency of `s >= 1` seconds is
   * due again `s` milliseconds later, long before `s` seconds have passed.
   */
  lemma DueAfterMillisecondsNotSeconds(h: Helper, id: RegionId, secondsRequired: UpdatesFrequency -> int)
    requires 1 <= secondsRequired(FrequencyOf(h.prefs, id))
    requires IsLong(LastUpdate(h.prefs, id) + secondsRequired(FrequencyOf(h.prefs, id)))
    ensures var s := secondsRequired(FrequencyOf(h.prefs, id));
      var now := LastUpdate(h.prefs, id) + s;
      && DueForScheduledDownload(h, id, true, true, now, secondsRequired)
      && now - LastUpdate(h.prefs, id) < s * 1000
  {
  }

  /** The test with the wait converted to milliseconds, `lastUpdateTime + secondsRequired * 1000L`. */
  function DueForScheduledDownloadInSeconds(h: Helper, id: RegionId, online: bool, onWifi: bool, now: int,
                                            secondsRequired: UpdatesFrequency -> int): (due: bool)
    ensures due ==> online
    ensures due && WifiOnly(h.prefs, id) ==> onWifi
  {
    && online
    && !(!onWifi && WifiOnly(h.prefs, id))
    && now >= Wrap64(LastUpdate(h.prefs, id) + Wrap64(secondsRequired(FrequencyOf(h.prefs, id)) * 1000))
  }

  /** With the conversion, a region is due exactly when the frequency's seconds have elapsed. */
  lemma DueExactlyAfterRequiredSeconds(h: Helper, id: RegionId, online: bool, onWifi: bool, now: int,
                                       secondsRequired: UpdatesFrequency -> int)
    requires IsInt(secondsRequired(FrequencyOf(h.prefs, id)))
    requires IsLong(LastUpdate(h.prefs, id) + secondsRequired(FrequencyOf(h.prefs, id)) * 1000)
    ensures DueForScheduledDownloadInSeconds(h, id, online, onWifi, now, secondsRequired) <==>
      && online
      && !(!onWifi && WifiOnly(h.prefs, id))
      && now - LastUpdate(h.prefs, id) >= 1000 * secondsRequired(FrequencyOf(h.prefs, id))
  {
    var s := secondsRequired(FrequencyOf(h.prefs, id));
    assert IsLong(s * 1000);
  }

  /** What `createIndexItem` shows for a region (the formatted size string aside). */
  datatype IndexItemInfo = IndexItemInfo(timestamp: int, contentSize: int, containerSize: int)

  /**
   * `createIndexItem`: a finished region is dated by its last update, any
   * other by the start of today; the sizes are the info map's local and
   * updates sizes.
   */
  function CreateIndexItem(h: Helper, id: RegionId, startOfToday: int): (item: IndexItemInfo)
    ensures item.contentSize == LocalSize(h, id) && item.containerSize == UpdatesSize(h, id)
    ensures State(h.prefs, id) == Finished ==> item.timestamp == LastUpdate(h.prefs, id)
    ensures State(h.prefs, id) != Finished ==> item.timestamp == startOfToday
  {
    var state := State(h.prefs, id);
    var timestamp := match state
      case Undefined | InProgress => startOfToday
      case Finished => LastUpdate(h.prefs, id);
    IndexItemInfo(timestamp, LocalSize(h, id), UpdatesSize(h, id))
  }
}
