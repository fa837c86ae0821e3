/** `run_trigger_report`: count problem events per trigger, stop when there
    are none, otherwise fetch the details of the counted triggers and export
    the report. The requests sent are returned in order; the report is
    `None` when no file is written. */
module Orchestrator {
  import opened Wrappers
  import opened Decimal
  import opened Remote
  import opened Aggregator
  import opened Details
  import opened Export

  /** No trigger ids exactly when the count map is empty. */
  lemma EmptyIdsIffEmptyCounts(d: CountDict)
    requires d.Valid()
    ensures d.ids == [] <==> d.counts == map[]
  {
    if d.ids != [] {
      assert d.ids[0] in d.counts;
    }
  }

  /** The run after the dates are converted; the limit defaults to 5 as in the program. */
  method RunTriggerReport(events: EventService, triggers: TriggerService, timeFrom: int, timeTill: int, limit: int := DefaultLimit)
    returns (requests: seq<Request>, report: Option<seq<Row>>)
    ensures var query := EventQuery(timeFrom, timeTill, limit);
            var found := GetProblemEventCounts(query, events).value;
            && (found.counts == map[] ==> requests == [EventGet(query)] && report == None)
            && (found.counts != map[] ==>
                  && requests == [EventGet(query), TriggerGet(found.ids)]
                  && report == Some(Report(found.counts, GetTriggerDetails(found.ids, triggers).value)))
    ensures var query := EventQuery(timeFrom, timeTill, limit);
            (events(query).None? ||
             exists i :: 0 <= i < |events(query).value| && !IsIntLiteral(events(query).value[i].rowscount))
            ==> requests == [EventGet(query)] && report == None
    ensures report.Some? ==> |report.value| >= 1 && report.value[0] == Header
  {
    var query := EventQuery(timeFrom, timeTill, limit);
    var found := GetProblemEventCounts(query, events);
    requests := found.requests;
    var triggerCounts := found.value;
    var triggerIds := triggerCounts.ids;
    EmptyIdsIffEmptyCounts(triggerCounts);
    if events(query).Some? {
      BuildCountsFailsIff(events(query).value);
    }
    if triggerIds == [] {
      report := None;
      return;
    }
    var details := GetTriggerDetails(triggerIds, triggers);
    requests := requests + details.requests;
    var rows := ExportTriggers(triggerCounts.counts, details.value);
    report := Some(rows);
  }
}
