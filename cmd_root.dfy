/** The body of the `download-cwlogs` command (cmd/root.go): write the header
    row, then fetch pages of a log stream until the service echoes the token
    it was sent, writing one row per event. */
module Cmd {
  import opened Wrappers
  import opened Logs
  import opened Paging

  /** Writes one row per event after `rows`, in the page's order. */
  method WriteEvents(rows: seq<Row>, events: seq<Event>) returns (written: seq<Row>)
    ensures written == rows + EventRows(events)
  {
    written := rows;
    for k := 0 to |events|
      invariant written == rows + EventRows(events[..k])
    {
      assert events[..k + 1][..k] == events[..k];
      written := written + [EventRow(events[k])];
    }
    assert events[..|events|] == events;
  }

  /** Downloads the events of `logStream` in `logGroup`.

      The service's replies to successive GetLogEvents calls are `replies`;
      the loop consumes them in order and records each request it sends in
      `requests`. `rows` is what the CSV writer holds at the end: the header,
      then the rows of every successful page. The requirement says that some
      call fails or echoes its token, so that the loop ends. */
  method Download(logGroup: string, logStream: string, replies: seq<Response>)
    returns (rows: seq<Row>, requests: seq<Request>, outcome: Outcome)
    requires Finishes(replies, None)
    ensures var t := Run(replies, InitialRequest(logGroup, logStream));
      requests == t.requests && rows == [HEADER] + t.rows && outcome == t.outcome
    ensures outcome.Completed? || outcome.Failed?
    ensures 1 <= |requests| <= |replies| && requests[0] == InitialRequest(logGroup, logStream)
    ensures rows[0] == HEADER && HEADER !in rows[1..]
  {
    var params := InitialRequest(logGroup, logStream);
    ghost var start := params;
    assert !Run(replies, start).outcome.Running? by {
      FinishedRun(replies, start);
    }

    rows := [HEADER];
    requests := [];
    ghost var fetched: seq<Row> := [];
    var i := 0;
    assert replies[..0] == [];
    assert replies[..|replies|] == replies;
    while true
      invariant i < |replies|
      invariant rows == [HEADER] + fetched
      invariant Run(replies[..i], start) == Trace(requests, fetched, Running, params)
      decreases |replies| - i
    {
      var reply := replies[i];
      RunPrefixStep(replies, i, start);
      requests := requests + [params];
      match reply {
        case Err(e) =>
          // The source returns here; nothing but the deferred flush follows the loop.
          outcome := Failed(e);
          assert Run(replies, start) == Trace(requests, fetched, outcome, params) by {
            assert fetched + [] == fetched;
            PrefixDecides(replies, i + 1, start);
          }
          break;
        case Ok(page) =>
          AppendAssoc([HEADER], fetched, EventRows(page.events));
          rows := WriteEvents(rows, page.events);
          fetched := fetched + EventRows(page.events);
          if ToString(page.nextForwardToken) == ToString(params.nextToken) {
            outcome := Completed;
            assert Run(replies, start) == Trace(requests, fetched, outcome, params) by {
              PrefixDecides(replies, i + 1, start);
            }
            break;
          }
          params := params.(nextToken := page.nextForwardToken);
      }
      RunningPrefixIsProper(replies, i + 1, start);
      i := i + 1;
    }
    FinishedRun(replies, start);
  }
}
