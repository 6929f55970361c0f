/**
 * The two request handlers, `GET /api/v1/objects/hosts` and
 * `GET /api/v1/objects/services`, as the sequence their bodies run: choose
 * the filter, check freshness, execute the composed status query, map the
 * fetched rows. The database is replaced by its answers: the fetched
 * program-status stamps and the fetched status rows.
 */
module Endpoints {
  import opened Wrappers
  import opened Freshness
  import opened CustomVarFilter
  import opened StatusMapper

  /** An exception that escapes the handler and becomes a server error. */
  datatype Fault = NoProgramStatusRow | BadRow(error: RowError)

  /**
   * `Ok` carries what was executed against the status tables and the
   * `results` list; a stale feed ends in `abort(503)` before any status
   * query runs.
   */
  datatype Response =
    | Ok(executed: Composition, results: seq<Entity>)
    | ServiceUnavailable
    | ServerError(fault: Fault)

  /** `hosts()`. */
  method HandleHosts(varname: Option<string>, varvalue: Option<string>, now: int,
                     statusUpdateTimes: seq<int>, fetched: seq<HostRow>)
    returns (resp: Response)
    ensures resp == ServiceUnavailable <==> CheckFreshness(now, statusUpdateTimes) == Stale
    ensures resp == ServerError(NoProgramStatusRow) <==> statusUpdateTimes == []
    ensures resp.Ok? <==>
      CheckFreshness(now, statusUpdateTimes) == Fresh
      && forall i :: 0 <= i < |fetched| ==> HostEntity(fetched[i]).Success?
    ensures resp.Ok? ==>
      && resp.executed == Compose(Hosts, varname, varvalue)
      && |resp.results| == |fetched|
      && forall i :: 0 <= i < |fetched| ==> resp.results[i] == HostEntity(fetched[i]).value
    ensures resp.ServerError? && resp.fault.BadRow? ==>
      CheckFreshness(now, statusUpdateTimes) == Fresh
      && exists k :: 0 <= k < |fetched| && HostEntity(fetched[k]) == Failure(resp.fault.error)
  {
    var query := Compose(Hosts, varname, varvalue);
    var verdict := CheckFreshness(now, statusUpdateTimes);
    if verdict == NoStatusRow {
      return ServerError(NoProgramStatusRow);
    } else if verdict == Stale {
      return ServiceUnavailable;
    }
    var built := BuildHostResults(fetched);
    match built
    case Success(results) => resp := Ok(query, results);
    case Failure(err) => resp := ServerError(BadRow(err));
  }

  /** `services()`. */
  method HandleServices(varname: Option<string>, varvalue: Option<string>, now: int,
                        statusUpdateTimes: seq<int>, fetched: seq<ServiceRow>)
    returns (resp: Response)
    ensures resp == ServiceUnavailable <==> CheckFreshness(now, statusUpdateTimes) == Stale
    ensures resp == ServerError(NoProgramStatusRow) <==> statusUpdateTimes == []
    ensures resp.Ok? <==>
      CheckFreshness(now, statusUpdateTimes) == Fresh
      && forall i :: 0 <= i < |fetched| ==> ServiceEntity(fetched[i]).Success?
    ensures resp.Ok? ==>
      && resp.executed == Compose(Services, varname, varvalue)
      && |resp.results| == |fetched|
      && forall i :: 0 <= i < |fetched| ==> resp.results[i] == ServiceEntity(fetched[i]).value
    ensures resp.ServerError? && resp.fault.BadRow? ==>
      CheckFreshness(now, statusUpdateTimes) == Fresh
      && exists k :: 0 <= k < |fetched| && ServiceEntity(fetched[k]) == Failure(resp.fault.error)
  {
    var query := Compose(Services, varname, varvalue);
    var verdict := CheckFreshness(now, statusUpdateTimes);
    if verdict == NoStatusRow {
      return ServerError(NoProgramStatusRow);
    } else if verdict == Stale {
      return ServiceUnavailable;
    }
    var built := BuildServiceResults(fetched);
    match built
    case Success(results) => resp := Ok(query, results);
    case Failure(err) => resp := ServerError(BadRow(err));
  }
}
