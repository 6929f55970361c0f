/**
 * The freshness gate run before every status query: the monitoring engine
 * records in its program-status table when it last refreshed status data,
 * and a request is refused with 503 once that stamp is more than five
 * minutes old.
 *
 * Timestamps are integers in microseconds, the resolution of Python's
 * `datetime` and `timedelta`; `now` stands for `datetime.utcnow()`.
 */
module Freshness {

  const MicrosPerSecond: int := 1_000_000

  /** `timedelta(minutes=5)`. */
  const MaxAge: int := 5 * 60 * MicrosPerSecond

  /**
   * Fresh: the request proceeds. Stale: `abort(503)`. NoStatusRow: the
   * program-status query returned nothing, so `lst[0]` raises IndexError.
   */
  datatype Verdict = Fresh | Stale | NoStatusRow

  /**
   * `check_freshness`: only the first fetched `status_update_time` is
   * consulted, and the feed is stale when it is strictly older than
   * `MaxAge`.
   */
  function CheckFreshness(now: int, statusUpdateTimes: seq<int>): (v: Verdict)
    ensures v == NoStatusRow <==> statusUpdateTimes == []
  {
    if |statusUpdateTimes| == 0 then NoStatusRow
    else if now - statusUpdateTimes[0] > MaxAge then Stale
    else Fresh
  }

  /** The request is refused exactly when the first stamp is over five minutes old. */
  lemma StaleIffOverFiveMinutes(now: int, statusUpdateTimes: seq<int>)
    requires statusUpdateTimes != []
    ensures CheckFreshness(now, statusUpdateTimes) == Stale <==> now - statusUpdateTimes[0] > 300 * MicrosPerSecond
    ensures CheckFreshness(now, statusUpdateTimes) == Fresh <==> now - statusUpdateTimes[0] <= 300 * MicrosPerSecond
  {
  }

  /** An age of exactly five minutes is still fresh; one microsecond more is stale. */
  lemma FiveMinutesBoundary(t: int, rest: seq<int>)
    ensures CheckFreshness(t + 300 * MicrosPerSecond, [t] + rest) == Fresh
    ensures CheckFreshness(t + 300 * MicrosPerSecond + 1, [t] + rest) == Stale
  {
  }

  /** Rows after the first never change the verdict. */
  lemma OnlyFirstRowConsulted(now: int, a: seq<int>, b: seq<int>)
    requires a != [] && b != [] && a[0] == b[0]
    ensures CheckFreshness(now, a) == CheckFreshness(now, b)
  {
  }

  /** A missing program-status row is never taken for a fresh feed. */
  lemma NoRowIsNotFresh(now: int)
    ensures CheckFreshness(now, []) != Fresh
  {
  }

  /** Once stale, a feed stays stale as the clock moves on without a new stamp. */
  lemma StaleStaysStale(now: int, later: int, statusUpdateTimes: seq<int>)
    requires now <= later
    requires CheckFreshness(now, statusUpdateTimes) == Stale
    ensures CheckFreshness(later, statusUpdateTimes) == Stale
  {
  }
}
