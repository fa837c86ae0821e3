/** `get_trigger_details`: one `trigger.get` request for the given ids, or
    none at all when there are no ids. */
module Details {
  import opened Wrappers
  import opened Remote

  /** The empty list short-circuits without a request; otherwise the one
      request carries exactly the given ids, and a failed call gives `[]`. */
  function GetTriggerDetails(triggerIds: seq<string>, service: TriggerService): (r: Fetched<seq<TriggerDetail>>)
    ensures triggerIds == [] ==> r.value == [] && r.requests == []
    ensures triggerIds != [] ==> r.requests == [TriggerGet(triggerIds)]
    ensures triggerIds != [] && service(triggerIds).Some? ==> r.value == service(triggerIds).value
    ensures triggerIds != [] && service(triggerIds).None? ==> r.value == []
  {
    if triggerIds == [] then Fetched([], [])
    else Fetched(service(triggerIds).GetOr([]), [TriggerGet(triggerIds)])
  }
}
