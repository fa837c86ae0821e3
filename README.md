# Trigger report of a monitoring system, modelled in Dafny

The program asks a monitoring system's JSON-RPC API for the number of
problem events per trigger in a time window (`event.get`), asks for the
description, severity and hosts of those triggers (`trigger.get`), and writes
a CSV report: a fixed header, then one row per trigger — first host's name
(or `N/A`), description, severity label, incident count — sorted by
descending count, with ties kept in the order the API returned them.

This project models the report-building core of `trigger_report.py`:

- `Decimal` — `int(entry['rowscount'])`: an optional sign and at most 4300
  ASCII digits (CPython's default limit on string-to-int conversion), with
  `None` where Python raises; a printer `IntToString` that `ParseInt`
  inverts, and the round trip.
- `Remote` — the request and result shapes of the two API calls. The remote
  services are parameters (functions from request to result, `None` for a
  transport or JSON failure), and every operation reports the requests it sent.
- `Aggregator` — the dict comprehension that builds the count map. A Python
  dict keeps its keys in first-insertion order, and that order is what is sent
  to `trigger.get`, so the dict is a `CountDict` holding a key list and a map.
- `Details` — `get_trigger_details` and its empty-input guard.
- `Sorting` — the stable descending sort by count. `SortDesc` is the
  specification (stable insertion), `SortByCount` computes it with loops, and
  `IsStableSortDesc` characterises a stable descending sort independently
  (sorted by count, and for every count the records having it appear in input
  order); the specification meets it and it has exactly one solution.
- `Export` — the severity table, the host rule, the rows, the report as a
  function (`Report`) and the export loop (`ExportTriggers`) proved equal to it.
- `Orchestrator` — `run_trigger_report` after the date conversion: the early
  stop on an empty count map, the detail fetch and the export.

The header written is `Host, Trigger, Severidade, Quantidade de incidentes`,
as in the code.

## Model

| member | source | states |
|---|---|---|
| `Decimal.ParseInt` | trigger_report.py:57 | `int(rowscount)` succeeds exactly when the text is an optional sign followed by at least one and at most 4300 digits |
| `Decimal.TooManyDigitsRefused` | trigger_report.py:57 | a text of 4301 digits is integer syntax, yet `int` refuses it |
| `Decimal.ParseIntOfIntToString` | trigger_report.py:57 | the decimal text of every integer of at most 4300 digits parses back to that integer |
| `Aggregator.PutValid` | trigger_report.py:57 | a dict assignment keeps the key list free of repeats and equal to the key set, sets the key's value, leaves other keys alone, keeps the existing order and adds at most the new key, at the end |
| `Aggregator.BuildCountsValid` | trigger_report.py:57 | the comprehension yields a dict whose key list has no repeats and holds exactly its keys |
| `Aggregator.BuildCountsFailsIff` | trigger_report.py:57 | the comprehension raises exactly when some entry's `rowscount` is not an integer literal |
| `Aggregator.BuildCountsKeys` | trigger_report.py:57 | the dict's keys are exactly the `objectid`s of the entries |
| `Aggregator.BuildCountsLastOccurrenceWins` | trigger_report.py:57 | for a repeated `objectid` the count of its last occurrence is kept |
| `Aggregator.BuildCountsIdsInFirstSeenOrder` | trigger_report.py:57 | the dict's key order is first-appearance order: the first occurrence of an earlier key precedes every occurrence of a later one |
| `Aggregator.GetProblemEventCounts` | trigger_report.py:30-60 | one `event.get` request with the given window and limit; a failed call gives the empty dict; a successful call gives the comprehension's dict, or the empty dict when the comprehension raises |
| `Details.GetTriggerDetails` | trigger_report.py:63-92 | no ids: `[]` and no request; otherwise one `trigger.get` request with exactly those ids, `[]` on failure |
| `Sorting.SortDescIsStableSort` | trigger_report.py:100-104 | the specification sort is sorted by descending count (missing ids count 0), stable, and a permutation of its input |
| `Sorting.StableSortUnique` | trigger_report.py:100-104 | two lists sorted by descending count with the same per-count order are equal |
| `Sorting.StableSortIsSortDesc` | trigger_report.py:100-104 | every stable descending sort of a list is the specification sort, hence a permutation |
| `Sorting.SortByCount` | trigger_report.py:100-104 | the loop-based sort returns the specification sort: sorted by descending count, stable, a permutation |
| `Export.Report` | trigger_report.py:106-115 | the report has one more row than there are records, and its first row is the fixed header, also for no records |
| `Export.SeverityLabelCases` | trigger_report.py:20-27 | codes "0" to "5" give the six labels ("3" gives "Average"); every other code gives "Unknown" |
| `Export.ReportRowFields` | trigger_report.py:110-115 | each body row is built from an input record: first host's name or "N/A", description, severity label, and the count it was sorted by (0 when the id is not in the count map) |
| `Export.ReportCountsNonIncreasing` | trigger_report.py:100-115 | the count column of the body never increases down the file |
| `Export.ReportBodyIsPermutation` | trigger_report.py:100-115 | the body holds exactly one row per input record (a permutation of the rows in input order) |
| `Export.ReportOfStableSort` | trigger_report.py:100-115 | the report is the header followed by the rows of any stable descending sort of the records |
| `Export.TieKeepsInputOrder` | trigger_report.py:100-104 | counts 101: 5, 102: 5, 103: 1 with records in order 103, 101, 102 give rows in order 101, 102, 103 |
| `Export.ReportProperties` | trigger_report.py:100-115 | the report body is a permutation of the records' rows and its count column never increases |
| `Export.ExportTriggers` | trigger_report.py:94-119 | the export loop writes exactly the report: header first, one row per record, counts non-increasing, body a permutation of the records' rows |
| `Orchestrator.EmptyIdsIffEmptyCounts` | trigger_report.py:136-138 | the list of trigger ids is empty exactly when the count map is |
| `Orchestrator.RunTriggerReport` | trigger_report.py:121-146 | with the limit defaulting to 5, an empty count map (including a failed `event.get` or a malformed count) ends the run after the one `event.get` with no file; otherwise `trigger.get` is sent the counted ids in first-seen order and the report of its details is written |

## Left out

- HTTP transport, JSON decoding and the fixed fields of the two payloads (`jsonrpc`, `auth`, `countOutput`, `groupBy`, `sortfield`, `selectHosts`, ...): the services are parameters, so the server-side filtering, sorting, limiting and the dropping of unknown ids are not modelled.
- Reading the endpoint URL and token from the environment, and all logging.
- Parsing the `DD/MM/YYYY` dates and converting them to timestamps (depends on the local time zone): `RunTriggerReport` takes the timestamps.
- The timestamp-based file name, opening the file and the `csv.writer` quoting and encoding: the report is the sequence of rows handed to `writerow`.
- Records lacking a field (`triggerid`, `hosts`, `name`, ...), which make the source raise inside the export and log the error: the records are typed, so every field is present.
- `Decimal.ParseInt`: Python's `int` also accepts surrounding whitespace, underscores between digits, non-ASCII digits and JSON numbers; these are not modelled. The 4300-digit limit is CPython's default from 3.11 on (and some 3.7-3.10 patch releases); older interpreters have none, and `sys.set_int_max_str_digits` can change it; the model fixes it at 4300.
- `Aggregator.BuildCountsFailsIff`: it inherits the gaps of `Decimal.ParseInt` — a count with surrounding whitespace, underscores, non-ASCII digits or a JSON number is modelled as raising though Python accepts it, and the digit limit is fixed at CPython's current default.
- `Export.SeverityLabel`: the priority is taken as the text the API returns; `str()` of a numeric priority is not modelled.
