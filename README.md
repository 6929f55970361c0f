# terminga-proxy status pipeline in Dafny

terminga-proxy is a small Flask service. It reads host and service status
from an Icinga IDO database (PostgreSQL) and serves it in the shape of the
Icinga 2 API (`GET /api/v1/objects/hosts`, `GET /api/v1/objects/services`).
This project models the decisions that service makes for each request:

- **Freshness gate** (`freshness.dfy`, module `Freshness`). `check_freshness` reads
  `icinga_programstatus.status_update_time`. It refuses the request with 503
  when the first stamp is more than five minutes older than the current UTC
  time. An empty result raises IndexError.
- **Custom-variable filter** (`filter.dfy`, module `CustomVarFilter`). The
  filter applies only when both `*_filter_custom_varname` and
  `*_filter_custom_varvalue` are given. Then a join fragment and a predicate
  fragment with two `%s` placeholders are spliced into the status query.
  Otherwise both fragments are empty. The parameter tuple
  `(varname, varvalue)` is passed to the driver in both cases.
- **Row normalisation** (`mapper.dfy`, module `StatusMapper`; `text.dfy`, module
  `Text`). Each fetched row becomes a Host or Service entity, appended to
  `results` in row order. The check output is
  `output + '\n' + long_output.replace('\\n', '\n')`. `Text.UnescapeNewlines`
  models Python's left-to-right, non-overlapping `str.replace` of backslash-n.
- **Handlers** (`endpoints.dfy`, module `Endpoints`). `hosts()` and
  `services()` are modelled as methods that run those steps in the source's
  order.

Inputs the source takes from its environment become parameters:

- `datetime.utcnow()` becomes `now`, an integer in microseconds. Microseconds
  are the resolution of `datetime` and `timedelta`.
- Query-string arguments become `Option<string>`. `request.args.get`
  returns None when an argument is absent.
- What `cur.fetchall()` returns becomes a sequence of stamps or of rows.
- NULL columns become `None`.

Behaviour worth knowing, all of it modelled as the code has it:

- A NULL `long_output` is not treated as an empty string: the code calls
  `.replace` on it and raises AttributeError. A NULL `output` raises
  TypeError first, before `long_output` is read. The model returns these
  errors (`StatusMapper.RowError`), and the request then ends in a server
  error with no partial results.
- A host or service with no status row comes through the left join with
  every status column NULL, so it hits the same error
  (`StatusMapper.HostWithoutStatusRaises`), and one such object fails the
  whole endpoint.
- Results keep the order in which the rows were fetched.

## Model

| member | source | states |
|---|---|---|
| `Freshness.CheckFreshness` | terminga_proxy/__init__.py:26-30 | the verdict is "no status row" exactly when the program-status query returned nothing |
| `Freshness.StaleIffOverFiveMinutes` | terminga_proxy/__init__.py:29-30 | with a status row, the request is refused exactly when now minus the first stamp exceeds 300 seconds, and proceeds exactly when it does not |
| `Freshness.FiveMinutesBoundary` | terminga_proxy/__init__.py:29-30 | an age of exactly five minutes is fresh; five minutes plus one microsecond is stale |
| `Freshness.OnlyFirstRowConsulted` | terminga_proxy/__init__.py:27-29 | two stamp lists with the same first element give the same verdict |
| `Freshness.NoRowIsNotFresh` | terminga_proxy/__init__.py:28-29 | an empty program-status result is never treated as fresh |
| `Freshness.StaleStaysStale` | terminga_proxy/__init__.py:29-30 | a stale feed stays stale for any later `now` |
| `CustomVarFilter.SelectFilter` | terminga_proxy/__init__.py:35-37 | the filter is chosen exactly when both parameters are present (values carried: `SelectFilterIffBothPresent`) |
| `CustomVarFilter.SelectFilterIffBothPresent` | terminga_proxy/__init__.py:35-37 | the custom-variable filter is chosen exactly when both parameters are present, and it carries their values |
| `CustomVarFilter.FragmentsNonEmptyIffBothPresent` | terminga_proxy/__init__.py:37-47 | the join and predicate fragments are both non-empty exactly when both parameters are present, and both empty otherwise |
| `CustomVarFilter.Compose` | terminga_proxy/__init__.py:104-117 | the bound tuple is always `(varname, varvalue)`, and both fragments are non-empty exactly when both parameters are present (placeholders: `PlaceholdersMatchParams`) |
| `CustomVarFilter.PartialPairIsUnfiltered` | terminga_proxy/__init__.py:102-117 | with one parameter missing, the spliced text equals that of a request with neither |
| `CustomVarFilter.CustomVarPredicatePlaceholders` | terminga_proxy/__init__.py:109-114 | the predicate fragment holds exactly two `%s` placeholders |
| `CustomVarFilter.JoinsHaveNoPlaceholders` | terminga_proxy/__init__.py:105-108 | neither endpoint's join fragment holds a placeholder |
| `CustomVarFilter.PlaceholdersMatchParams` | terminga_proxy/__init__.py:69-76 | with the filter, the spliced text has as many placeholders as the two-element bound tuple and neither element is None; without it, the spliced text has no placeholder |
| `Text.UnescapeNewlines` | terminga_proxy/__init__.py:89 | the rewrite shortens the text by exactly the number of backslash-n pairs found scanning left to right |
| `Text.UnescapeNewlinesLeavesNoPair` | terminga_proxy/__init__.py:89 | no backslash-n pair remains after the rewrite |
| `Text.UnescapeNewlinesIdentity` | terminga_proxy/__init__.py:161 | text without a backslash-n pair is returned unchanged |
| `Text.UnescapeNewlinesIdempotent` | terminga_proxy/__init__.py:89 | rewriting twice gives the same text as rewriting once |
| `Text.UnescapeNewlinesCount` | terminga_proxy/__init__.py:89 | after the rewrite the pair count is zero, and the length has dropped by the original pair count |
| `Text.UnescapeNewlinesConcat` | terminga_proxy/__init__.py:161 | text split anywhere except inside a backslash-n pair is rewritten as the concatenation of its rewritten parts, so every other character is kept in order |
| `Text.UnescapeEscapeRoundTrip` | terminga_proxy/__init__.py:89 | text whose newlines were escaped as backslash-n comes back exactly, provided it held no literal backslash-n |
| `StatusMapper.CheckOutput` | terminga_proxy/__init__.py:89 | succeeds exactly when output and long output are both non-NULL, and its text is the short output's length plus one plus the long output's length less one per backslash-n pair (full text and errors: `CheckOutputSpec`) |
| `StatusMapper.CheckOutputSpec` | terminga_proxy/__init__.py:89 | the output is the short output, a newline, then the rewritten long output, with no pair left in that part and the length accounted for; a None short output raises TypeError, and otherwise a None long output raises AttributeError |
| `StatusMapper.CheckOutputIdempotent` | terminga_proxy/__init__.py:161 | normalising an already rewritten long output gives the same result as normalising the original |
| `StatusMapper.CheckOutputExample` | terminga_proxy/__init__.py:89 | "CRITICAL" with long output `disk\nfull` (a literal backslash-n) gives "CRITICAL", newline, "disk", newline, "full" |
| `StatusMapper.HostWithoutStatusRaises` | terminga_proxy/__init__.py:80-89 | a host row whose status columns are all NULL raises TypeError |
| `StatusMapper.HostEntity` | terminga_proxy/__init__.py:81-92 | succeeds exactly when output and long output are non-NULL, giving a Host entity named by name1 (copied fields: `HostEntitySpec`) |
| `StatusMapper.HostEntitySpec` | terminga_proxy/__init__.py:81-92 | a host entity has type Host, display name equal to name1, no host_name key, and state, state type and downtime depth copied unchanged, NULLs included; it fails exactly when the output does |
| `StatusMapper.ServiceEntity` | terminga_proxy/__init__.py:152-164 | succeeds exactly when output and long output are non-NULL, giving a Service entity named by name2 with host_name name1 (copied fields: `ServiceEntitySpec`) |
| `StatusMapper.ServiceEntitySpec` | terminga_proxy/__init__.py:152-164 | a service entity has type Service, display name equal to name2, host_name equal to name1, and the status fields copied unchanged, NULLs included; it fails exactly when the output does |
| `StatusMapper.BuildHostResults` | terminga_proxy/__init__.py:79-92 | succeeds exactly when every row maps; then one entity per row, in row order; otherwise the error of the first failing row and no partial list |
| `StatusMapper.BuildServiceResults` | terminga_proxy/__init__.py:150-164 | the same for service rows |
| `Endpoints.HandleHosts` | terminga_proxy/__init__.py:34-97 | 503 exactly when the feed is stale; a server error when the program-status result is empty; otherwise the composed custom-variable fragments were executed and the results are the mapped rows, or a row error is raised |
| `Endpoints.HandleServices` | terminga_proxy/__init__.py:101-169 | the same for the services endpoint |

## Left out

- App construction, reading `APP_CONFIG`, and the syslog handler. These are
  process set-up with no decision in them.
- Connecting to PostgreSQL and creating, executing and closing cursors. The
  fetched program-status stamps and status rows are inputs. Connections are
  not closed when the handler aborts or raises, and that leak is not
  modelled.
- What the SQL selects: object types 1 and 2, `is_active`, the status left
  joins, and which rows a custom-variable filter keeps. That is evaluated by
  the database. The base query text around the two fragments is not
  modelled either; only the fragments' placeholders are counted.
- The driver's parameter binding is modelled only by counting `%s`
  placeholders. The driver skips binding when the query has no `%`. Its
  quoting and its other `%` forms are not modelled.
- `jsonify`, Flask routing, `abort(503)` and `app.run`. A 503 or a server
  error is a `Response` value.
- A NULL `status_update_time`, and a timezone-aware stamp that could not be
  subtracted from a naive `utcnow()`. Stamps are modelled as plain integers.
- `Freshness.CheckFreshness`: its own contract states only the
  empty-result case. The stale and fresh cases are stated by
  `Freshness.StaleIffOverFiveMinutes`.
- A NULL `name1` or `name2` is not modelled. The source copies both without
  inspecting them.
