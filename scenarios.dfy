/** Concrete runs of the download loop. */
module Scenarios {
  import opened Wrappers
  import opened Logs
  import opened Paging
  import Decimal

  lemma FormatThousands()
    ensures Decimal.Format(1000) == "1000" && Decimal.Format(2000) == "2000"
  {
    assert Decimal.Digits(1) == "1" && Decimal.Digits(2) == "2";
    assert Decimal.Digits(10) == "10" && Decimal.Digits(20) == "20";
    assert Decimal.Digits(100) == "100" && Decimal.Digits(200) == "200";
  }

  /** Two pages, the second echoing the token "T1" it was sent: two calls,
      the second sending "T1", and one row per event in order. */
  lemma TwoPagesThenEcho(logGroup: string, logStream: string)
    ensures var first := InitialRequest(logGroup, logStream);
      var replies: seq<Response> := [Ok(Page([Event(1000, "a")], Some("T1"))), Ok(Page([Event(2000, "b")], Some("T1")))];
      Run(replies, first) == Trace(
        [first, first.(nextToken := Some("T1"))],
        [Row("1000", "a"), Row("2000", "b")],
        Completed,
        first.(nextToken := Some("T1")))
  {
    FormatThousands();
    var first := InitialRequest(logGroup, logStream);
    var replies: seq<Response> := [Ok(Page([Event(1000, "a")], Some("T1"))), Ok(Page([Event(2000, "b")], Some("T1")))];
    assert replies[1..] == [replies[1]];
    assert EventRows([Event(1000, "a")]) == [Row("1000", "a")];
    assert EventRows([Event(2000, "b")]) == [Row("2000", "b")];
  }

  /** An empty stream whose first page has no forward token stops after one
      call: an absent token reads the same as the absent token sent. */
  lemma EmptyStreamStopsAtOnce(logGroup: string, logStream: string, more: seq<Response>)
    ensures var first := InitialRequest(logGroup, logStream);
      Run([Ok(Page([], None))] + more, first) == Trace([first], [], Completed, first)
  {
    assert ([Ok(Page([], None))] + more)[0] == Ok(Page([], None));
  }

  /** An empty forward token on the first call also counts as an echo, since
      the absent token sent reads as "". */
  lemma EmptyTokenEchoesAbsentToken(logGroup: string, logStream: string, events: seq<Event>)
    ensures var first := InitialRequest(logGroup, logStream);
      Run([Ok(Page(events, Some("")))], first).outcome == Completed
  {
  }

  /** A failure on the second call keeps the first page's rows and adds none. */
  lemma FailureAfterOnePage(logGroup: string, logStream: string, e: ApiError)
    ensures var first := InitialRequest(logGroup, logStream);
      var replies: seq<Response> := [Ok(Page([Event(1000, "a")], Some("T1"))), Err(e)];
      Run(replies, first) == Trace(
        [first, first.(nextToken := Some("T1"))],
        [Row("1000", "a")],
        Failed(e),
        first.(nextToken := Some("T1")))
  {
    FormatThousands();
    var replies: seq<Response> := [Ok(Page([Event(1000, "a")], Some("T1"))), Err(e)];
    assert replies[1..] == [Err(e)];
    assert EventRows([Event(1000, "a")]) == [Row("1000", "a")];
  }
}
