/**
 * Selection of the optional custom-variable filter of the hosts and
 * services endpoints, and the SQL fragments it splices into the status
 * query: a join fragment after the status join and a predicate fragment
 * after the `is_active` condition. The query is always executed with the
 * parameter tuple `(varname, varvalue)`; the driver substitutes its
 * elements for the `%s` placeholders of the text.
 */
module CustomVarFilter {
  import opened Wrappers
  import opened Text

  /** `/api/v1/objects/hosts` or `/api/v1/objects/services`. */
  datatype Endpoint = Hosts | Services

  /** The filter a request asks for. */
  datatype Filter = NoFilter | ByCustomVar(varname: string, varvalue: string)

  /** The two spliced fragments and the parameter tuple handed to `cur.execute`. */
  datatype Composition = Composition(joinText: string, filterText: string, params: seq<Option<string>>)

  // Each fragment is spelled as a concatenation of short literals so that the
  // prover only ever evaluates short strings: `'%' !in` and the placeholder
  // count are then proved piece by piece.
  const Indent: string := "        "
  const Placeholder: string := "%s"

  /** Join fragment of the hosts endpoint. */
  const HostsJoin: string :=
    "left join " + "icinga_customvariables" + " on " + "icinga_objects.object_id"
    + " = " + "icinga_customvariables.object_id"

  /** Join fragment of the services endpoint: through the service definition. */
  const ServicesJoin: string :=
    "\n" + Indent + "left join " + "icinga_services" + " on " + "icinga_services.service_object_id"
    + " = " + "icinga_servicestatus.service_object_id"
    + "\n" + Indent + "left join " + "icinga_customvariables" + " on " + "icinga_services.service_object_id"
    + " = " + "icinga_customvariables.object_id"
    + "\n" + Indent

  /** Predicate text before the first placeholder. */
  const PredicateLead: string :=
    "\n" + Indent + "and (" + "\n" + Indent + "    " + "icinga_customvariables.varname" + " = "

  /** Predicate text between the two placeholders. */
  const PredicateMid: string :=
    " and" + "\n" + Indent + "    " + "icinga_customvariables.varvalue" + " = "

  /** Predicate text after the second placeholder. */
  const PredicateTail: string :=
    "\n" + Indent + ")" + "\n" + Indent

  /** Predicate fragment, shared by both endpoints. */
  const CustomVarPredicate: string :=
    PredicateLead + Placeholder + PredicateMid + Placeholder + PredicateTail

  /** Number of `%s` placeholders the driver finds in `s`. */
  function Placeholders(s: string): nat
  {
    CountPairs(s, '%', 's')
  }

  /** The filter applies only when both query parameters are present. */
  function SelectFilter(varname: Option<string>, varvalue: Option<string>): (f: Filter)
    ensures f.ByCustomVar? <==> varname.Some? && varvalue.Some?
  {
    if varname.Some? && varvalue.Some? then ByCustomVar(varname.value, varvalue.value)
    else NoFilter
  }

  /** Join fragment for an endpoint under a filter. */
  function JoinFragment(e: Endpoint, f: Filter): string
  {
    match f
    case NoFilter => ""
    case ByCustomVar(_, _) => if e == Hosts then HostsJoin else ServicesJoin
  }

  /** Predicate fragment under a filter. */
  function PredicateFragment(f: Filter): string
  {
    if f.ByCustomVar? then CustomVarPredicate else ""
  }

  /**
   * What a request to endpoint `e` with the given query parameters adds to
   * its status query.
   */
  function Compose(e: Endpoint, varname: Option<string>, varvalue: Option<string>): (c: Composition)
    ensures c.params == [varname, varvalue]
    ensures (c.joinText != "" && c.filterText != "") <==> varname.Some? && varvalue.Some?
  {
    var f := SelectFilter(varname, varvalue);
    Composition(JoinFragment(e, f), PredicateFragment(f), [varname, varvalue])
  }

  /** The filter is chosen exactly when both parameters are given, and carries them. */
  lemma SelectFilterIffBothPresent(varname: Option<string>, varvalue: Option<string>)
    ensures SelectFilter(varname, varvalue).ByCustomVar? <==> varname.Some? && varvalue.Some?
    ensures SelectFilter(varname, varvalue).ByCustomVar? ==>
      SelectFilter(varname, varvalue) == ByCustomVar(varname.value, varvalue.value)
  {
  }

  /**
   * Both fragments are non-empty exactly when both parameters are given;
   * otherwise both are empty strings.
   */
  lemma FragmentsNonEmptyIffBothPresent(e: Endpoint, varname: Option<string>, varvalue: Option<string>)
    ensures var c := Compose(e, varname, varvalue);
      (c.joinText != "" && c.filterText != "") <==> (varname.Some? && varvalue.Some?)
    ensures var c := Compose(e, varname, varvalue);
      (c.joinText == "" && c.filterText == "") <==> !(varname.Some? && varvalue.Some?)
  {
  }

  /** A request carrying only one of the pair runs the unfiltered query text. */
  lemma PartialPairIsUnfiltered(e: Endpoint, varname: Option<string>, varvalue: Option<string>)
    requires varname.None? || varvalue.None?
    ensures Compose(e, varname, varvalue).joinText == Compose(e, None, None).joinText
    ensures Compose(e, varname, varvalue).filterText == Compose(e, None, None).filterText
  {
  }

  /** The shared predicate fragment holds exactly two placeholders. */
  lemma CustomVarPredicatePlaceholders()
    ensures Placeholders(CustomVarPredicate) == 2
  {
    var x, y := '%', 's';
    var a := PredicateLead + Placeholder;
    var b := a + PredicateMid;
    var c := b + Placeholder;
    CountPairsAbsent(PredicateLead, x, y);
    CountPairsAbsent(PredicateMid, x, y);
    CountPairsAbsent(PredicateTail, x, y);
    assert CountPairs(Placeholder, x, y) == 1;
    CountPairsConcat(PredicateLead, Placeholder, x, y);
    CountPairsConcat(a, PredicateMid, x, y);
    CountPairsConcat(b, Placeholder, x, y);
    CountPairsConcat(c, PredicateTail, x, y);
  }

  /** Neither join fragment contains a percent sign. */
  lemma JoinsHaveNoPercent()
    ensures '%' !in HostsJoin && '%' !in ServicesJoin
  {
  }

  /** Neither join fragment holds a placeholder. */
  lemma JoinsHaveNoPlaceholders()
    ensures Placeholders(HostsJoin) == 0 && Placeholders(ServicesJoin) == 0
  {
    JoinsHaveNoPercent();
    CountPairsAbsent(HostsJoin, '%', 's');
    CountPairsAbsent(ServicesJoin, '%', 's');
  }

  /**
   * The placeholders of the spliced fragments match the bound tuple: with
   * the filter there are exactly two, one per element of `(varname,
   * varvalue)`, and neither element is None; without it there are none, so
   * the driver leaves the text as it is and binds nothing.
   */
  lemma PlaceholdersMatchParams(e: Endpoint, varname: Option<string>, varvalue: Option<string>)
    ensures var c := Compose(e, varname, varvalue);
      Placeholders(c.joinText) == 0 && |c.params| == 2
    ensures var c := Compose(e, varname, varvalue);
      varname.Some? && varvalue.Some? ==>
        Placeholders(c.joinText + c.filterText) == |c.params| && forall p <- c.params :: p.Some?
    ensures var c := Compose(e, varname, varvalue);
      !(varname.Some? && varvalue.Some?) ==> Placeholders(c.joinText + c.filterText) == 0
  {
    var c := Compose(e, varname, varvalue);
    JoinsHaveNoPlaceholders();
    if varname.Some? && varvalue.Some? {
      CustomVarPredicatePlaceholders();
      CountPairsConcat(c.joinText, c.filterText, '%', 's');
    } else {
      assert c.joinText + c.filterText == "";
    }
  }
}
