/**
 * The status mapper: every row fetched by the hosts or services query
 * becomes one client-facing entity, appended to the results list in row
 * order. Status columns come from a left join and may be NULL (None); they
 * are copied as they are. The check output is
 * `output + '\n' + long_output.replace('\\n', '\n')`, which raises when
 * either column is None.
 */
module StatusMapper {
  import opened Wrappers
  import opened Text

  /** A row of the hosts query: name1, current_state, scheduled_downtime_depth, state_type, output, long_output. */
  datatype HostRow = HostRow(
    hostName: string,
    state: Option<int>,
    downtimeDepth: Option<int>,
    stateType: Option<int>,
    output: Option<string>,
    longOutput: Option<string>)

  /** A row of the services query: name1, name2, then the same status columns as a host row. */
  datatype ServiceRow = ServiceRow(
    hostName: string,
    serviceName: string,
    state: Option<int>,
    downtimeDepth: Option<int>,
    stateType: Option<int>,
    output: Option<string>,
    longOutput: Option<string>)

  /** The entity's `type` field. */
  datatype EntityType = Host | Service

  /** `last_check_result`. */
  datatype CheckResult = CheckResult(output: string)

  /** `attrs`; `hostName` is None when the key is absent, as it is for hosts. */
  datatype Attrs = Attrs(
    displayName: string,
    hostName: Option<string>,
    downtimeDepth: Option<int>,
    state: Option<int>,
    stateType: Option<int>,
    lastCheckResult: CheckResult)

  /** One element of the `results` list. */
  datatype Entity = Entity(entityType: EntityType, attrs: Attrs)

  /**
   * Why building an entity raised: `None + '\n'` is a TypeError, and
   * `None.replace(...)` an AttributeError.
   */
  datatype RowError = OutputIsNull | LongOutputIsNull

  /**
   * The check output text. The left operand is evaluated first, so a None
   * `output` raises before `long_output` is looked at.
   */
  function CheckOutput(output: Option<string>, longOutput: Option<string>): (r: Result<string, RowError>)
    ensures r.Success? <==> output.Some? && longOutput.Some?
    ensures r.Success? ==>
      |r.value| == |output.value| + 1 + |longOutput.value| - CountPairs(longOutput.value, Backslash, 'n')
  {
    if output.None? then Failure(OutputIsNull)
    else if longOutput.None? then Failure(LongOutputIsNull)
    else Success(output.value + [Newline] + UnescapeNewlines(longOutput.value))
  }

  /** The entity built for one host row. */
  function HostEntity(row: HostRow): (r: Result<Entity, RowError>)
    ensures r.Success? <==> row.output.Some? && row.longOutput.Some?
    ensures r.Success? ==> r.value.entityType == Host && r.value.attrs.displayName == row.hostName
  {
    match CheckOutput(row.output, row.longOutput)
    case Failure(err) => Failure(err)
    case Success(text) =>
      Success(Entity(Host, Attrs(row.hostName, None, row.downtimeDepth, row.state, row.stateType, CheckResult(text))))
  }

  /** The entity built for one service row. */
  function ServiceEntity(row: ServiceRow): (r: Result<Entity, RowError>)
    ensures r.Success? <==> row.output.Some? && row.longOutput.Some?
    ensures r.Success? ==>
      r.value.entityType == Service && r.value.attrs.displayName == row.serviceName
      && r.value.attrs.hostName == Some(row.hostName)
  {
    match CheckOutput(row.output, row.longOutput)
    case Failure(err) => Failure(err)
    case Success(text) =>
      Success(Entity(Service, Attrs(row.serviceName, Some(row.hostName), row.downtimeDepth, row.state, row.stateType, CheckResult(text))))
  }

  /**
   * The check output is the short output, a newline, and the long output
   * with every backslash-n escape turned into a newline; no escape is left
   * in the rewritten part, which is one character shorter per escape.
   * A None in either column raises, the short output's first.
   */
  lemma CheckOutputSpec(output: Option<string>, longOutput: Option<string>)
    ensures CheckOutput(output, longOutput).Success? <==> output.Some? && longOutput.Some?
    ensures output.None? ==> CheckOutput(output, longOutput) == Failure(OutputIsNull)
    ensures output.Some? && longOutput.None? ==> CheckOutput(output, longOutput) == Failure(LongOutputIsNull)
    ensures output.Some? && longOutput.Some? ==>
      var text := CheckOutput(output, longOutput).value;
      var o, lo := output.value, longOutput.value;
      && |text| == |o| + 1 + |lo| - CountPairs(lo, Backslash, 'n')
      && text[..|o| + 1] == o + [Newline]
      && text[|o| + 1..] == UnescapeNewlines(lo)
      && NoPair(text[|o| + 1..], Backslash, 'n')
  {
    if output.Some? && longOutput.Some? {
      var o, lo := output.value, longOutput.value;
      var text := CheckOutput(output, longOutput).value;
      assert text == (o + [Newline]) + UnescapeNewlines(lo);
      UnescapeNewlinesLeavesNoPair(lo);
    }
  }

  /**
   * Normalising a long output that is already normalised changes nothing:
   * the rewrite is idempotent.
   */
  lemma CheckOutputIdempotent(output: Option<string>, longOutput: string)
    ensures CheckOutput(output, Some(UnescapeNewlines(longOutput))) == CheckOutput(output, Some(longOutput))
  {
    UnescapeNewlinesIdempotent(longOutput);
  }

  /** The pieces of the example below, each rewritten on its own. */
  lemma ExamplePieces()
    ensures UnescapeNewlines("disk") == "disk" && UnescapeNewlines("full") == "full"
    ensures UnescapeNewlines("\\n" + "full") == "\n" + "full"
  {
    UnescapeNewlinesConcat("\\n", "full");
  }

  /** The long output of the example below, rewritten. */
  lemma ExampleLongOutput()
    ensures UnescapeNewlines("disk\\nfull") == "disk\nfull"
  {
    ExamplePieces();
    assert "disk\\nfull" == "disk" + ("\\n" + "full");
    UnescapeNewlinesConcat("disk", "\\n" + "full");
  }

  /** A long output with a literal backslash-n between two words. */
  lemma CheckOutputExample()
    ensures CheckOutput(Some("CRITICAL"), Some("disk\\nfull")) == Success("CRITICAL\ndisk\nfull")
  {
    ExampleLongOutput();
    assert "CRITICAL" + [Newline] + "disk\nfull" == "CRITICAL\ndisk\nfull";
  }

  /**
   * A host row yields a Host entity whose display name is the host name
   * and whose status fields are copied unchanged, NULLs included; it fails
   * exactly as `CheckOutput` does.
   */
  lemma HostEntitySpec(row: HostRow)
    ensures HostEntity(row).Success? <==> CheckOutput(row.output, row.longOutput).Success?
    ensures HostEntity(row).Failure? ==> HostEntity(row).error == CheckOutput(row.output, row.longOutput).error
    ensures HostEntity(row).Success? ==>
      var e := HostEntity(row).value;
      && e.entityType == Host
      && e.attrs.displayName == row.hostName
      && e.attrs.hostName == None
      && e.attrs.state == row.state
      && e.attrs.stateType == row.stateType
      && e.attrs.downtimeDepth == row.downtimeDepth
      && e.attrs.lastCheckResult.output == CheckOutput(row.output, row.longOutput).value
  {
  }

  /**
   * A host whose status row is missing reaches the mapper with every status
   * column NULL, and building its entity raises.
   */
  lemma HostWithoutStatusRaises(hostName: string)
    ensures HostEntity(HostRow(hostName, None, None, None, None, None)) == Failure(OutputIsNull)
  {
  }

  /**
   * A service row yields a Service entity whose display name is the service
   * name, whose host name is the host's, and whose status fields are copied
   * unchanged, NULLs included; it fails exactly as `CheckOutput` does.
   */
  lemma ServiceEntitySpec(row: ServiceRow)
    ensures ServiceEntity(row).Success? <==> CheckOutput(row.output, row.longOutput).Success?
    ensures ServiceEntity(row).Failure? ==> ServiceEntity(row).error == CheckOutput(row.output, row.longOutput).error
    ensures ServiceEntity(row).Success? ==>
      var e := ServiceEntity(row).value;
      && e.entityType == Service
      && e.attrs.displayName == row.serviceName
      && e.attrs.hostName == Some(row.hostName)
      && e.attrs.state == row.state
      && e.attrs.stateType == row.stateType
      && e.attrs.downtimeDepth == row.downtimeDepth
      && e.attrs.lastCheckResult.output == CheckOutput(row.output, row.longOutput).value
  {
  }

  /**
   * The hosts loop: one entity per row, in row order. The first row whose
   * entity raises aborts the loop, and no partial list is returned.
   */
  method BuildHostResults(rows: seq<HostRow>) returns (r: Result<seq<Entity>, RowError>)
    ensures r.Success? <==> forall i :: 0 <= i < |rows| ==> HostEntity(rows[i]).Success?
    ensures r.Success? ==>
      |r.value| == |rows| && forall i :: 0 <= i < |rows| ==> r.value[i] == HostEntity(rows[i]).value
    ensures r.Failure? ==>
      exists k :: 0 <= k < |rows| && HostEntity(rows[k]) == Failure(r.error)
        && forall i :: 0 <= i < k ==> HostEntity(rows[i]).Success?
  {
    var results: seq<Entity> := [];
    var i := 0;
    while i < |rows|
      invariant 0 <= i <= |rows|
      invariant |results| == i
      invariant forall j :: 0 <= j < i ==> HostEntity(rows[j]).Success? && results[j] == HostEntity(rows[j]).value
    {
      var entity := HostEntity(rows[i]);
      if entity.Failure? {
        return Failure(entity.error);
      }
      results := results + [entity.value];
      i := i + 1;
    }
    return Success(results);
  }

  /**
   * The services loop: one entity per row, in row order. The first row
   * whose entity raises aborts the loop, and no partial list is returned.
   */
  method BuildServiceResults(rows: seq<ServiceRow>) returns (r: Result<seq<Entity>, RowError>)
    ensures r.Success? <==> forall i :: 0 <= i < |rows| ==> ServiceEntity(rows[i]).Success?
    ensures r.Success? ==>
      |r.value| == |rows| && forall i :: 0 <= i < |rows| ==> r.value[i] == ServiceEntity(rows[i]).value
    ensures r.Failure? ==>
      exists k :: 0 <= k < |rows| && ServiceEntity(rows[k]) == Failure(r.error)
        && forall i :: 0 <= i < k ==> ServiceEntity(rows[i]).Success?
  {
    var results: seq<Entity> := [];
    var i := 0;
    while i < |rows|
      invariant 0 <= i <= |rows|
      invariant |results| == i
      invariant forall j :: 0 <= j < i ==> ServiceEntity(rows[j]).Success? && results[j] == ServiceEntity(rows[j]).value
    {
      var entity := ServiceEntity(rows[i]);
      if entity.Failure? {
        return Failure(entity.error);
      }
      results := results + [entity.value];
      i := i + 1;
    }
    return Success(results);
  }
}
