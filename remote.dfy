/** The two remote procedures of the monitoring API, as seen by the report:
    the shapes of their requests and of the parts of their results that the
    report reads. The services themselves are parameters: a function from
    request to result, with `None` standing for a transport or JSON failure. */
module Remote {
  import opened Wrappers

  /** The trigger limit used when the caller gives none. */
  const DefaultLimit: int := 5

  /** Parameters of the `event.get` call that vary: the time window and the limit. */
  datatype EventQuery = EventQuery(timeFrom: int, timeTill: int, limit: int)

  /** One entry of the grouped `event.get` result: a trigger id and its event count as text. */
  datatype EventEntry = EventEntry(objectid: string, rowscount: string)

  datatype Host = Host(hostid: string, name: string)

  /** One entry of the `trigger.get` result. The priority is the API's code as text. */
  datatype TriggerDetail = TriggerDetail(triggerid: string, description: string, priority: string, hosts: seq<Host>)

  /** A request sent to the API. */
  datatype Request = EventGet(query: EventQuery) | TriggerGet(triggerIds: seq<string>)

  type EventService = EventQuery -> Option<seq<EventEntry>>
  type TriggerService = seq<string> -> Option<seq<TriggerDetail>>

  /** A result together with the requests sent to obtain it, in order. */
  datatype Fetched<T> = Fetched(value: T, requests: seq<Request>)
}
