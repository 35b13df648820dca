/**
 * The state the offline forecast helper keeps per region:
 *  - four persisted preferences (download state, last update, update
 *    frequency, Wi-Fi only), each read with a default when absent;
 *  - the process-lifetime info map (local size, updates size, "sizes
 *    calculated" flag, download progress), created on first write;
 *  - the whole-cache size memo.
 * Also the size arithmetic derived from a region's tile list.
 */
module ForecastStore {
  import opened Wrappers
  import opened JavaInt
  import ForecastSchedule

  type RegionId = string

  /** Tile ids of each region the region catalog knows; an absent id is `getTileIds` returning null. */
  type Catalog = map<RegionId, seq<int>>

  /** A region object together with the tile ids generated from its bounds. */
  datatype Region = Region(id: RegionId, tiles: seq<int>)

  datatype DownloadState = Undefined | InProgress | Finished

  /** The update-frequency enum; only its default member matters to this model. */
  datatype UpdatesFrequency = UndefinedFrequency | NamedFrequency(name: string)

  /** The default of the last-update preference: never downloaded. */
  const NEVER_UPDATED: int := -1

  /** Bytes budgeted per tile per forecast slice when estimating a download. */
  const TILE_SIZE: int := 40_000

  /** A region counts as offline while it is downloading or has downloaded. */
  predicate IsOffline(s: DownloadState) {
    s == InProgress || s == Finished
  }

  // ---------------------------------------------------------------------------
  // Persisted preferences

  datatype Prefs = Prefs(
    state: map<RegionId, DownloadState>,
    lastUpdate: map<RegionId, int>,
    frequency: map<RegionId, UpdatesFrequency>,
    wifiOnly: map<RegionId, bool>)

  function State(p: Prefs, r: RegionId): DownloadState {
    if r in p.state then p.state[r] else Undefined
  }

  function LastUpdate(p: Prefs, r: RegionId): int {
    if r in p.lastUpdate then p.lastUpdate[r] else NEVER_UPDATED
  }

  function FrequencyOf(p: Prefs, r: RegionId): UpdatesFrequency {
    if r in p.frequency then p.frequency[r] else UndefinedFrequency
  }

  function WifiOnly(p: Prefs, r: RegionId): bool {
    if r in p.wifiOnly then p.wifiOnly[r] else false
  }

  /** A region with nothing stored reads the defaults: UNDEFINED, never updated, UNDEFINED frequency, not Wi-Fi only. */
  lemma UnsetPreferencesReadDefaults(p: Prefs, r: RegionId)
    requires r !in p.state && r !in p.lastUpdate && r !in p.frequency && r !in p.wifiOnly
    ensures DefaultPrefsAt(p, r)
  {
  }

  /** All four preferences of `r` read the same in `p` and `q`. */
  predicate SamePrefsAt(p: Prefs, q: Prefs, r: RegionId) {
    && State(p, r) == State(q, r)
    && LastUpdate(p, r) == LastUpdate(q, r)
    && FrequencyOf(p, r) == FrequencyOf(q, r)
    && WifiOnly(p, r) == WifiOnly(q, r)
  }

  /** All four preferences of `r` read their defaults. */
  predicate DefaultPrefsAt(p: Prefs, r: RegionId) {
    && State(p, r) == Undefined
    && LastUpdate(p, r) == NEVER_UPDATED
    && FrequencyOf(p, r) == UndefinedFrequency
    && !WifiOnly(p, r)
  }

  function SetState(p: Prefs, r: RegionId, s: DownloadState): (q: Prefs)
    ensures State(q, r) == s
    ensures LastUpdate(q, r) == LastUpdate(p, r)
    ensures FrequencyOf(q, r) == FrequencyOf(p, r) && WifiOnly(q, r) == WifiOnly(p, r)
    ensures forall o :: o != r ==> SamePrefsAt(p, q, o)
  {
    p.(state := p.state[r := s])
  }

  function SetLastUpdate(p: Prefs, r: RegionId, t: int): (q: Prefs)
    ensures LastUpdate(q, r) == t
    ensures State(q, r) == State(p, r)
    ensures FrequencyOf(q, r) == FrequencyOf(p, r) && WifiOnly(q, r) == WifiOnly(p, r)
    ensures forall o :: o != r ==> SamePrefsAt(p, q, o)
  {
    p.(lastUpdate := p.lastUpdate[r := t])
  }

  function SetFrequency(p: Prefs, r: RegionId, f: UpdatesFrequency): (q: Prefs)
    ensures FrequencyOf(q, r) == f
    ensures State(q, r) == State(p, r) && LastUpdate(q, r) == LastUpdate(p, r) && WifiOnly(q, r) == WifiOnly(p, r)
    ensures forall o :: o != r ==> SamePrefsAt(p, q, o)
  {
    p.(frequency := p.frequency[r := f])
  }

  function SetWifiOnly(p: Prefs, r: RegionId, value: bool): (q: Prefs)
    ensures WifiOnly(q, r) == value
    ensures State(q, r) == State(p, r) && LastUpdate(q, r) == LastUpdate(p, r) && FrequencyOf(q, r) == FrequencyOf(p, r)
    ensures forall o :: o != r ==> SamePrefsAt(p, q, o)
  {
    p.(wifiOnly := p.wifiOnly[r := value])
  }

  /** `removePreferences`: drops the four keys, so every getter falls back to its default. */
  function RemovePreferences(p: Prefs, r: RegionId): (q: Prefs)
    ensures DefaultPrefsAt(q, r)
    ensures forall o :: o != r ==> SamePrefsAt(p, q, o)
  {
    Prefs(p.state - {r}, p.lastUpdate - {r}, p.frequency - {r}, p.wifiOnly - {r})
  }

  // ---------------------------------------------------------------------------
  // Ephemeral info and the cache-size memo

  /** One `OfflineForecastInfo`: each field is absent until first written. */
  datatype Info = Info(
    localSize: Option<int>,
    updatesSize: Option<int>,
    sizesCalculated: Option<bool>,
    progress: Option<int>)

  const EMPTY_INFO: Info := Info(None, None, None, None)

  /**
   * `WeatherCacheSize`, whose own file is not part of this model: two memoised
   * sizes (local and remote data); a reset zeroes one or both.
   */
  datatype CacheMemo = CacheMemo(local: int, remote: int)

  function ResetMemo(m: CacheMemo): (r: CacheMemo)
    ensures r.local == 0 && r.remote == 0
  {
    CacheMemo(0, 0)
  }

  function ResetMemoPart(m: CacheMemo, local: bool): (r: CacheMemo)
    ensures local ==> r.local == 0 && r.remote == m.remote
    ensures !local ==> r.remote == 0 && r.local == m.local
  {
    if local then m.(local := 0) else m.(remote := 0)
  }

  function MemoPart(m: CacheMemo, local: bool): int {
    if local then m.local else m.remote
  }

  function SetMemoPart(m: CacheMemo, size: int, local: bool): (r: CacheMemo)
    ensures MemoPart(r, local) == size && MemoPart(r, !local) == MemoPart(m, !local)
  {
    if local then m.(local := size) else m.(remote := size)
  }

  datatype Helper = Helper(prefs: Prefs, info: map<RegionId, Info>, memo: CacheMemo)

  /** `getCachedInfo`, with an absent entry read as an entry whose fields are all absent. */
  function CachedInfo(h: Helper, r: RegionId): Info {
    if r in h.info then h.info[r] else EMPTY_INFO
  }

  function LocalSize(h: Helper, r: RegionId): int {
    CachedInfo(h, r).localSize.GetOr(0)
  }

  function UpdatesSize(h: Helper, r: RegionId): int {
    CachedInfo(h, r).updatesSize.GetOr(0)
  }

  function SizesCalculated(h: Helper, r: RegionId): bool {
    CachedInfo(h, r).sizesCalculated.GetOr(false)
  }

  function Progress(h: Helper, r: RegionId): int {
    CachedInfo(h, r).progress.GetOr(0)
  }

  /** Without an info entry, the getters read zero sizes, sizes not calculated and zero progress. */
  lemma AbsentInfoReadsDefaults(h: Helper, r: RegionId)
    requires r !in h.info
    ensures LocalSize(h, r) == 0 && UpdatesSize(h, r) == 0
    ensures !SizesCalculated(h, r) && Progress(h, r) == 0
  {
  }

  /** The entry of `r` is the same in both helpers (present in both with one value, or absent in both). */
  predicate InfoAgrees(h: Helper, h': Helper, r: RegionId) {
    && (r in h.info <==> r in h'.info)
    && (r in h.info ==> h.info[r] == h'.info[r])
  }

  /** Region `r` reads the same in both helpers: its preferences and its info entry. */
  predicate AgreeAt(h: Helper, h': Helper, r: RegionId) {
    SamePrefsAt(h.prefs, h'.prefs, r) && InfoAgrees(h, h', r)
  }

  /** Only the info entry of `r` may differ. */
  ghost predicate OnlyInfoOfChanged(h: Helper, h': Helper, r: RegionId) {
    && h'.prefs == h.prefs
    && h'.memo == h.memo
    && forall o :: o != r ==> InfoAgrees(h, h', o)
  }

  function SetLocalSize(h: Helper, r: RegionId, size: int): (h': Helper)
    ensures r in h'.info && LocalSize(h', r) == size
    ensures UpdatesSize(h', r) == UpdatesSize(h, r) && SizesCalculated(h', r) == SizesCalculated(h, r)
    ensures Progress(h', r) == Progress(h, r)
    ensures OnlyInfoOfChanged(h, h', r)
  {
    h.(info := h.info[r := CachedInfo(h, r).(localSize := Some(size))])
  }

  function SetUpdatesSize(h: Helper, r: RegionId, size: int): (h': Helper)
    ensures r in h'.info && UpdatesSize(h', r) == size
    ensures LocalSize(h', r) == LocalSize(h, r) && SizesCalculated(h', r) == SizesCalculated(h, r)
    ensures Progress(h', r) == Progress(h, r)
    ensures OnlyInfoOfChanged(h, h', r)
  {
    h.(info := h.info[r := CachedInfo(h, r).(updatesSize := Some(size))])
  }

  function SetSizesCalculated(h: Helper, r: RegionId, value: bool): (h': Helper)
    ensures r in h'.info && SizesCalculated(h', r) == value
    ensures LocalSize(h', r) == LocalSize(h, r) && UpdatesSize(h', r) == UpdatesSize(h, r)
    ensures Progress(h', r) == Progress(h, r)
    ensures OnlyInfoOfChanged(h, h', r)
  {
    h.(info := h.info[r := CachedInfo(h, r).(sizesCalculated := Some(value))])
  }

  function SetProgress(h: Helper, r: RegionId, value: int): (h': Helper)
    ensures r in h'.info && Progress(h', r) == value
    ensures LocalSize(h', r) == LocalSize(h, r) && UpdatesSize(h', r) == UpdatesSize(h, r)
    ensures SizesCalculated(h', r) == SizesCalculated(h, r)
    ensures OnlyInfoOfChanged(h, h', r)
  {
    h.(info := h.info[r := CachedInfo(h, r).(progress := Some(value))])
  }

  /** `removeOfflineForecastInfo`: the entry goes, so every info getter reads its default. */
  function RemoveInfo(h: Helper, r: RegionId): (h': Helper)
    ensures r !in h'.info
    ensures LocalSize(h', r) == 0 && UpdatesSize(h', r) == 0
    ensures !SizesCalculated(h', r) && Progress(h', r) == 0
    ensures OnlyInfoOfChanged(h, h', r)
  {
    h.(info := h.info - {r})
  }

  // ---------------------------------------------------------------------------
  // Size arithmetic

  /** `getProgressDestination`: one callback per tile per slice, as a Java `int`; -1 for an unknown region. */
  function Destination(cat: Catalog, r: RegionId): (d: int)
    ensures IsInt(d)
    ensures r !in cat ==> d == -1
    ensures r in cat && |cat[r]| * ForecastSchedule.FORECAST_DATES_COUNT <= INT_MAX ==>
      d == |cat[r]| * ForecastSchedule.FORECAST_DATES_COUNT
  {
    if r in cat then Wrap32(|cat[r]| * ForecastSchedule.FORECAST_DATES_COUNT) else -1
  }

  /** `calculateUpdatesSize`: `tilesCount * FORECAST_DATES_COUNT * TILE_SIZE`, each product an `int`. */
  function UpdatesSizeOf(tiles: seq<int>): (size: int)
    ensures IsInt(size)
  {
    Wrap32(Wrap32(|tiles| * ForecastSchedule.FORECAST_DATES_COUNT) * TILE_SIZE)
  }

  /** Whatever the tile count, the estimate differs from the exact product by a multiple of 2^32. */
  lemma UpdatesSizeWrapsModulo(tiles: seq<int>)
    ensures (UpdatesSizeOf(tiles) - |tiles| * ForecastSchedule.FORECAST_DATES_COUNT * TILE_SIZE) % TWO_32 == 0
  {
    var slices := |tiles| * ForecastSchedule.FORECAST_DATES_COUNT;
    WrapThenScaleIsCongruent(slices, Wrap32(slices), TILE_SIZE, UpdatesSizeOf(tiles));
  }


  /** Narrowing a factor before scaling, then narrowing the product, loses only multiples of 2^32. */
  lemma WrapThenScaleIsCongruent(s: int, w: int, c: int, z: int)
    requires (s - w) % TWO_32 == 0 && (w * c - z) % TWO_32 == 0
    ensures (z - s * c) % TWO_32 == 0
  {
    DivisibleIsMultiple(s - w);
    DivisibleIsMultiple(w * c - z);
    var k, j := (s - w) / TWO_32, (w * c - z) / TWO_32;
    assert (s - w) * c == (k * c) * TWO_32;
    assert z - s * c == -((s - w) * c) - (w * c - z);
    MultipleIsDivisible(z - s * c, -(k * c) - j);
  }

  /** The largest tile count whose update size still fits in an `int`. */
  const MAX_EXACT_UPDATE_TILES: nat := 735

  /** The estimate is the true byte count exactly up to 735 tiles; from 736 on it overflows. */
  lemma UpdatesSizeExact(tiles: seq<int>)
    ensures UpdatesSizeOf(tiles) == |tiles| * ForecastSchedule.FORECAST_DATES_COUNT * TILE_SIZE
      <==> |tiles| <= MAX_EXACT_UPDATE_TILES
  {
    var n := |tiles|;
    if n <= MAX_EXACT_UPDATE_TILES {
      assert n * ForecastSchedule.FORECAST_DATES_COUNT <= 53_655;
      assert n * ForecastSchedule.FORECAST_DATES_COUNT * TILE_SIZE <= INT_MAX;
    } else {
      assert n * ForecastSchedule.FORECAST_DATES_COUNT * TILE_SIZE > INT_MAX;
    }
  }
}
