/**
 * The forecast time slices one download cycle requests: hourly for the first
 * day, then every three hours, 73 slices in all, starting at the start of
 * the local day.
 */
module ForecastSchedule {

  const HOUR_MS: int := 3_600_000

  /** Slices stepped hourly before the step widens to three hours. */
  const HOURLY_SLICES: nat := 24

  /** `FORECAST_DATES_COUNT = 24 + (6 * 8) + 1`. */
  const FORECAST_DATES_COUNT: nat := 24 + (6 * 8) + 1

  /** The hours the loop adds after issuing slice `i`. */
  function StepHours(i: nat): nat {
    if i < HOURLY_SLICES then 1 else 3
  }

  /** Hours from the start of the day to slice `i`, accumulated step by step as the loop does. */
  function SliceOffsetHours(i: nat): nat {
    if i == 0 then 0 else SliceOffsetHours(i - 1) + StepHours(i - 1)
  }

  /** The offset in closed form: i hours up to slice 24, three hours per slice after it. */
  lemma {:induction false} SliceOffsetClosedForm(i: nat)
    ensures i <= HOURLY_SLICES ==> SliceOffsetHours(i) == i
    ensures HOURLY_SLICES <= i ==> SliceOffsetHours(i) == HOURLY_SLICES + 3 * (i - HOURLY_SLICES)
  {
    if i > 0 {
      SliceOffsetClosedForm(i - 1);
    }
  }

  /** The closed form for every slice at once, and offsets strictly increase. */
  lemma AllSliceOffsets()
    ensures forall i: nat :: 0 < i ==> SliceOffsetHours(i - 1) < SliceOffsetHours(i)
    ensures forall i: nat :: i <= HOURLY_SLICES ==> SliceOffsetHours(i) == i
    ensures forall i: nat :: HOURLY_SLICES <= i ==>
      SliceOffsetHours(i) == HOURLY_SLICES + 3 * (i - HOURLY_SLICES)
  {
    forall i: nat
      ensures i <= HOURLY_SLICES ==> SliceOffsetHours(i) == i
      ensures HOURLY_SLICES <= i ==> SliceOffsetHours(i) == HOURLY_SLICES + 3 * (i - HOURLY_SLICES)
    {
      SliceOffsetClosedForm(i);
    }
  }

  /** The timestamp of slice `i` of a cycle that starts at `start`. */
  function SliceTime(start: int, i: nat): int {
    start + SliceOffsetHours(i) * HOUR_MS
  }

  /** The 73 request timestamps of a cycle nothing cancels. */
  function Schedule(start: int): (times: seq<int>)
    ensures |times| == FORECAST_DATES_COUNT
    ensures forall i :: 0 <= i < |times| && i <= HOURLY_SLICES ==> times[i] == start + i * HOUR_MS
    ensures forall i :: 0 <= i < |times| && HOURLY_SLICES <= i ==>
      times[i] == start + (HOURLY_SLICES + 3 * (i - HOURLY_SLICES)) * HOUR_MS
    ensures times[0] == start && times[FORECAST_DATES_COUNT - 1] == start + 168 * HOUR_MS
    ensures forall i :: 0 < i < |times| ==> times[i - 1] < times[i]
  {
    AllSliceOffsets();
    seq(FORECAST_DATES_COUNT, i requires 0 <= i => SliceTime(start, i))
  }

  /**
   * The request loop. `inProgress[i]` is the region's download state as the
   * loop reads it before slice `i` (true while IN_PROGRESS); the first false
   * reading stops the loop, so the requests issued are a prefix of the schedule.
   */
  method IssueRequests(start: int, inProgress: seq<bool>) returns (times: seq<int>)
    requires |inProgress| == FORECAST_DATES_COUNT
    ensures |times| <= FORECAST_DATES_COUNT
    ensures times == Schedule(start)[..|times|]
    ensures forall i :: 0 <= i < |times| ==> inProgress[i]
    ensures |times| < FORECAST_DATES_COUNT ==> !inProgress[|times|]
  {
    var full := Schedule(start);
    var dateTime := start;
    times := [];
    var i := 0;
    while i < FORECAST_DATES_COUNT
      invariant 0 <= i <= FORECAST_DATES_COUNT
      invariant times == full[..i]
      invariant forall j :: 0 <= j < i ==> inProgress[j]
      invariant dateTime == SliceTime(start, i)
    {
      if !inProgress[i] {
        // the download was cancelled
        break;
      }
      times := times + [dateTime];
      dateTime := dateTime + HOUR_MS * (if i < HOURLY_SLICES then 1 else 3);
      i := i + 1;
    }
  }
}
