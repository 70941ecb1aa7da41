/** The pagination loop of cmd/root.go as a function of the service's replies,
    and what it does, stated without reference to the loop.

    The service is given as `replies`: the reply to the first call, the reply
    to the second call, and so on. Any service, stateless or not, answers one
    run of the loop with such a sequence; a finite one covers every run that
    ends. */
module Paging {
  import opened Wrappers
  import opened Logs
  import Decimal

  /** One line of the output file: its two cells. */
  datatype Row = Row(timestamp: string, message: string)

  /** The header line, written before any event. */
  const HEADER: Row := Row("timestamp", "message")

  /** The first request: the given group and stream, read from the head, no token. */
  function InitialRequest(logGroup: string, logStream: string): (r: Request)
    ensures r.logGroupName == logGroup && r.logStreamName == logStream
    ensures r.startFromHead && r.nextToken.None? && ToString(r.nextToken) == ""
  {
    Request(logGroup, logStream, true, None)
  }

  /** The row written for one event: its timestamp as `%v` writes it, which
      reads back as the timestamp, and its message. */
  function EventRow(e: Event): (r: Row)
    ensures r.message == e.message
    ensures r.timestamp != HEADER.timestamp
  {
    assert HEADER.timestamp[0] == 't';
    Row(Decimal.Format(e.timestamp as int), e.message)
  }

  /** The rows written for a page's events, in the page's order. */
  function EventRows(events: seq<Event>): seq<Row>
    decreases |events|
  {
    if |events| == 0 then [] else EventRows(events[..|events| - 1]) + [EventRow(events[|events| - 1])]
  }

  /** The rows a reply contributes: its events' rows, or none if the call failed. */
  function PageRows(reply: Response): seq<Row>
  {
    match reply
    case Ok(page) => EventRows(page.events)
    case Err(_) => []
  }

  /** The concatenation, in call order, of the rows the given replies contribute. */
  function FetchedRows(replies: seq<Response>): seq<Row>
    decreases |replies|
  {
    if |replies| == 0 then [] else PageRows(replies[0]) + FetchedRows(replies[1..])
  }

  /** How the loop ended: it stopped on an echoed token, it returned on a
      failed call, or it is still going when the replies run out. */
  datatype Outcome = Completed | Failed(error: ApiError) | Running

  /** What a run of the loop did: the requests it sent, in order; the rows it
      wrote after the header; how it ended; and the final value of `params`. */
  datatype Trace = Trace(requests: seq<Request>, rows: seq<Row>, outcome: Outcome, params: Request)

  /** The loop, started with request `req`, fed with `replies`: it sends at
      most one request per reply, and one at least unless it has no reply. */
  function Run(replies: seq<Response>, req: Request): (t: Trace)
    ensures |t.requests| <= |replies|
    ensures |replies| > 0 ==> |t.requests| > 0
    decreases |replies|
  {
    if |replies| == 0 then Trace([], [], Running, req)
    else
      match replies[0]
      case Err(e) => Trace([req], [], Failed(e), req)
      case Ok(page) =>
        if ToString(page.nextForwardToken) == ToString(req.nextToken) then
          Trace([req], EventRows(page.events), Completed, req)
        else
          var rest := Run(replies[1..], req.(nextToken := page.nextForwardToken));
          Trace([req] + rest.requests, EventRows(page.events) + rest.rows, rest.outcome, rest.params)
  }

  /** How one call with token `sent` ends the loop, or lets it go on. */
  function CallOutcome(reply: Response, sent: Option<string>): (o: Outcome)
    ensures o.Failed? <==> reply.Err?
    ensures o.Failed? ==> o.error == reply.error
    ensures o.Completed? <==> reply.Ok? && ToString(reply.value.nextForwardToken) == ToString(sent)
  {
    match reply
    case Err(e) => Failed(e)
    case Ok(page) => if ToString(page.nextForwardToken) == ToString(sent) then Completed else Running
  }

  /** One turn of the loop on a run so far: if the loop has stopped nothing
      happens; otherwise the pending `params` is sent, the reply's rows are
      appended after those already written, and the token for the next call
      is taken from the reply unless the loop stops. */
  function Step(t: Trace, reply: Response): (u: Trace)
    ensures !t.outcome.Running? ==> u == t
  {
    if !t.outcome.Running? then t
    else
      var outcome := CallOutcome(reply, t.params.nextToken);
      var params := if outcome.Running? then t.params.(nextToken := reply.value.nextForwardToken) else t.params;
      Trace(t.requests + [t.params], t.rows + PageRows(reply), outcome, params)
  }

  /** A turn of a running loop sends the pending request, keeps every
      earlier request and row, appends exactly the reply's rows, ends as the
      call says, and changes nothing in the request but its token. */
  lemma StepAppends(t: Trace, reply: Response)
    requires t.outcome.Running?
    ensures var u := Step(t, reply);
      && u.requests == t.requests + [t.params]
      && |u.rows| == |t.rows| + |PageRows(reply)|
      && u.rows[..|t.rows|] == t.rows && u.rows[|t.rows|..] == PageRows(reply)
      && u.outcome == CallOutcome(reply, t.params.nextToken)
      && u.params.logGroupName == t.params.logGroupName
      && u.params.logStreamName == t.params.logStreamName
      && u.params.startFromHead == t.params.startFromHead
      && u.params.nextToken == (if u.outcome.Running? then reply.value.nextForwardToken else t.params.nextToken)
  {
    var u := Step(t, reply);
    assert u.rows == t.rows + PageRows(reply);
  }

  /** The token sent with call `i` (counting from 0) when the first call sends
      `first`: every later call sends the forward token of the reply before it. */
  function SentToken(replies: seq<Response>, i: nat, first: Option<string>): Option<string>
    requires i <= |replies|
    requires i > 0 ==> replies[i - 1].Ok?
  {
    if i == 0 then first else replies[i - 1].value.nextForwardToken
  }

  /** Call `i` succeeds and its forward token differs from the token it was
      sent, both read through `ToString`: the loop goes on after it. */
  predicate Continues(replies: seq<Response>, i: nat, first: Option<string>)
  {
    && i < |replies|
    && replies[i].Ok?
    && (i > 0 ==> replies[i - 1].Ok?)
    && ToString(replies[i].value.nextForwardToken) != ToString(SentToken(replies, i, first))
  }

  /** Some call within `replies` fails or echoes the token it was sent. */
  predicate Finishes(replies: seq<Response>, first: Option<string>)
  {
    exists n :: 0 <= n < |replies| && !Continues(replies, n, first)
  }

  /** The request of call `i`: `req` with its token replaced by the one the call sends. */
  function RequestAt(replies: seq<Response>, req: Request, i: nat): Request
    requires i <= |replies|
    requires i > 0 ==> replies[i - 1].Ok?
  {
    req.(nextToken := SentToken(replies, i, req.nextToken))
  }

  /** A stateless service `svc`, asked by the loop: its answers to `n` calls,
      each answer choosing the token of the next call. */
  function Answers(svc: Request -> Response, req: Request, n: nat): (replies: seq<Response>)
    ensures |replies| == n
    decreases n
  {
    if n == 0 then []
    else
      var reply := svc(req);
      var next := if reply.Ok? then req.(nextToken := reply.value.nextForwardToken) else req;
      [reply] + Answers(svc, next, n - 1)
  }

  lemma AppendAssoc<T>(a: seq<T>, b: seq<T>, c: seq<T>)
    ensures a + (b + c) == (a + b) + c
  {
  }

  // ---------------------------------------------------------------------------
  // Rows

  /** Each further reply appends its own rows after those already written. */
  lemma {:induction false} FetchedRowsSnoc(replies: seq<Response>, reply: Response)
    ensures FetchedRows(replies + [reply]) == FetchedRows(replies) + PageRows(reply)
    decreases |replies|
  {
    if |replies| == 0 {
      assert replies + [reply] == [reply];
      assert [reply][1..] == [];
    } else {
      assert (replies + [reply])[1..] == replies[1..] + [reply];
      FetchedRowsSnoc(replies[1..], reply);
    }
  }

  /** A failed reply contributes no rows to a prefix of the replies. */
  lemma FailedReplyAddsNoRows(replies: seq<Response>, n: nat)
    requires n < |replies| && replies[n].Err?
    ensures FetchedRows(replies[..n + 1]) == FetchedRows(replies[..n])
  {
    assert replies[..n + 1] == replies[..n] + [replies[n]];
    FetchedRowsSnoc(replies[..n], replies[n]);
  }

  /** The timestamp cell of an event row reads back as the event's timestamp. */
  lemma EventRowReadsBack(e: Event)
    ensures Decimal.Parse(EventRow(e).timestamp) == Some(e.timestamp as int)
  {
    Decimal.FormatRoundTrip(e.timestamp as int);
  }

  /** No event row is the header row: a timestamp renders as digits, possibly signed. */
  lemma EventRowIsNotHeader(e: Event)
    ensures EventRow(e) != HEADER
  {
    var s := Decimal.Format(e.timestamp as int);
    assert HEADER.timestamp[0] == 't';
    assert s[0] == '-' || Decimal.IsDigit(s[0]);
  }

  /** A page contributes one row per event, the `k`-th row for the `k`-th event. */
  lemma {:induction false} EventRowsAt(events: seq<Event>)
    ensures |EventRows(events)| == |events|
    ensures forall k :: 0 <= k < |events| ==> EventRows(events)[k] == EventRow(events[k])
    decreases |events|
  {
    if |events| > 0 {
      var init := events[..|events| - 1];
      EventRowsAt(init);
      forall k | 0 <= k < |events| - 1
        ensures EventRows(events)[k] == EventRow(events[k])
      {
        assert init[k] == events[k];
      }
    }
  }

  lemma EventRowsHaveNoHeader(events: seq<Event>)
    ensures HEADER !in EventRows(events)
  {
    EventRowsAt(events);
    forall k | 0 <= k < |events|
      ensures EventRows(events)[k] != HEADER
    {
      EventRowIsNotHeader(events[k]);
    }
  }

  /** The loop never writes the header row again. */
  lemma {:induction false} HeaderNotWrittenAgain(replies: seq<Response>, req: Request)
    ensures HEADER !in Run(replies, req).rows
    decreases |replies|
  {
    if |replies| > 0 {
      match replies[0]
      case Err(_) =>
      case Ok(page) =>
        EventRowsHaveNoHeader(page.events);
        if ToString(page.nextForwardToken) != ToString(req.nextToken) {
          HeaderNotWrittenAgain(replies[1..], req.(nextToken := page.nextForwardToken));
        }
    }
  }

  // ---------------------------------------------------------------------------
  // Requests and tokens

  /** Shifting the replies by one call shifts `Continues` by one, the first
      call's forward token becoming the token first sent. */
  lemma ContinuesShift(replies: seq<Response>, first: Option<string>, i: nat)
    requires |replies| > 0 && replies[0].Ok?
    ensures Continues(replies, i + 1, first) <==> Continues(replies[1..], i, replies[0].value.nextForwardToken)
  {
  }

  /** Call `i` sends `req` with its token replaced by the forward token of
      call `i - 1`; the first call sends `req` itself. Group, stream and
      direction never change. */
  lemma {:induction false} RequestSent(replies: seq<Response>, req: Request, i: nat)
    requires i < |Run(replies, req).requests|
    ensures i > 0 ==> replies[i - 1].Ok?
    ensures Run(replies, req).requests[i] == RequestAt(replies, req, i)
    decreases i
  {
    var t := Run(replies, req);
    if i > 0 {
      var page := replies[0].value;
      var next := req.(nextToken := page.nextForwardToken);
      var rest := Run(replies[1..], next);
      assert t.requests == [req] + rest.requests;
      RequestSent(replies[1..], next, i - 1);
      assert t.requests[i] == rest.requests[i - 1];
      if i > 1 {
        assert replies[1..][i - 2] == replies[i - 1];
      }
      assert SentToken(replies[1..], i - 1, next.nextToken) == SentToken(replies, i, req.nextToken);
    }
  }

  /** Every call asks for the same group and stream, from the head; the first
      sends the starting token and each later one the forward token of the
      reply before it. */
  lemma QueryNeverChanges(replies: seq<Response>, req: Request, i: nat)
    requires i < |Run(replies, req).requests|
    ensures var sent := Run(replies, req).requests[i];
      && sent.logGroupName == req.logGroupName
      && sent.logStreamName == req.logStreamName
      && sent.startFromHead == req.startFromHead
      && (i > 0 ==> replies[i - 1].Ok?)
      && sent.nextToken == if i == 0 then req.nextToken else replies[i - 1].value.nextForwardToken
  {
    RequestSent(replies, req, i);
  }

  // ---------------------------------------------------------------------------
  // When the loop stops

  /** If calls `0 .. n-1` go on and call `n` does not, the loop makes exactly
      `n + 1` calls, ends as call `n` says, and has written the rows of every
      reply up to and including call `n`. */
  lemma {:induction false} RunStopsAt(replies: seq<Response>, req: Request, n: nat)
    requires n < |replies|
    requires forall i :: 0 <= i < n ==> Continues(replies, i, req.nextToken)
    requires !Continues(replies, n, req.nextToken)
    ensures var t := Run(replies, req);
      && |t.requests| == n + 1
      && t.outcome == (if replies[n].Err? then Failed(replies[n].error) else Completed)
      && t.rows == FetchedRows(replies[..n + 1])
    decreases n
  {
    assert replies[..n + 1][1..] == replies[1..][..n];
    if n > 0 {
      assert Continues(replies, 0, req.nextToken);
      var page := replies[0].value;
      var next := req.(nextToken := page.nextForwardToken);
      forall i | 0 <= i < n - 1
        ensures Continues(replies[1..], i, next.nextToken)
      {
        assert Continues(replies, i + 1, req.nextToken);
        ContinuesShift(replies, req.nextToken, i);
      }
      ContinuesShift(replies, req.nextToken, n - 1);
      RunStopsAt(replies[1..], next, n - 1);
      if n > 1 {
        assert replies[1..][n - 2] == replies[n - 1];
      }
    }
  }

  /** A failed call ends the loop at once: the rows of the earlier replies
      stay and the failed call adds none. */
  lemma FailureKeepsEarlierRows(replies: seq<Response>, req: Request, n: nat)
    requires n < |replies| && replies[n].Err?
    requires forall i :: 0 <= i < n ==> Continues(replies, i, req.nextToken)
    ensures var t := Run(replies, req);
      && t.outcome == Failed(replies[n].error)
      && |t.requests| == n + 1
      && t.rows == FetchedRows(replies[..n])
  {
    assert !Continues(replies, n, req.nextToken);
    RunStopsAt(replies, req, n);
    FailedReplyAddsNoRows(replies, n);
  }

  /** The loop runs out of replies exactly when no call in them fails or
      echoes its token. */
  lemma {:induction false} RunFinishesIff(replies: seq<Response>, req: Request)
    ensures Run(replies, req).outcome.Running? <==> !Finishes(replies, req.nextToken)
    decreases |replies|
  {
    if |replies| > 0 {
      if !Continues(replies, 0, req.nextToken) {
        assert Finishes(replies, req.nextToken);
      } else {
        var page := replies[0].value;
        var next := req.(nextToken := page.nextForwardToken);
        RunFinishesIff(replies[1..], next);
        if Finishes(replies, req.nextToken) {
          var n :| 0 <= n < |replies| && !Continues(replies, n, req.nextToken);
          ContinuesShift(replies, req.nextToken, n - 1);
          assert !Continues(replies[1..], n - 1, next.nextToken);
        }
        if Finishes(replies[1..], next.nextToken) {
          var m :| 0 <= m < |replies| - 1 && !Continues(replies[1..], m, next.nextToken);
          ContinuesShift(replies, req.nextToken, m);
          assert !Continues(replies, m + 1, req.nextToken);
        }
      }
    }
  }

  /** A run whose replies finish sends at least one request, the first being
      the starting one, never more requests than there are replies, ends
      completed or failed, and writes no header row. */
  lemma FinishedRun(replies: seq<Response>, req: Request)
    requires Finishes(replies, req.nextToken)
    ensures var t := Run(replies, req);
      && (t.outcome.Completed? || t.outcome.Failed?)
      && 1 <= |t.requests| <= |replies| && t.requests[0] == req
      && HEADER !in t.rows
  {
    RunFinishesIff(replies, req);
    RequestSent(replies, req, 0);
    HeaderNotWrittenAgain(replies, req);
  }

  /** One more reply: if the loop had already stopped, nothing changes;
      otherwise the next call sends the pending `params`, appends exactly its
      rows after those already written, and ends or goes on as it says. */
  lemma {:induction false} RunAppend(replies: seq<Response>, reply: Response, req: Request)
    ensures Run(replies + [reply], req) == Step(Run(replies, req), reply)
    decreases |replies|
  {
    if |replies| == 0 {
      assert replies + [reply] == [reply];
      assert [reply][1..] == [];
    } else {
      assert (replies + [reply])[0] == replies[0];
      assert (replies + [reply])[1..] == replies[1..] + [reply];
      if replies[0].Ok? {
        var page := replies[0].value;
        if ToString(page.nextForwardToken) != ToString(req.nextToken) {
          var next := req.(nextToken := page.nextForwardToken);
          var rest := Run(replies[1..], next);
          RunAppend(replies[1..], reply, next);
          if rest.outcome.Running? {
            AppendAssoc([req], rest.requests, [rest.params]);
            AppendAssoc(EventRows(page.events), rest.rows, PageRows(reply));
          }
        }
      }
    }
  }

  /** `RunAppend` for a prefix of the replies: call `i` is one `Step` on the run of the calls before it. */
  lemma RunPrefixStep(replies: seq<Response>, i: nat, req: Request)
    requires i < |replies|
    ensures Run(replies[..i + 1], req) == Step(Run(replies[..i], req), replies[i])
  {
    assert replies[..i + 1] == replies[..i] + [replies[i]];
    RunAppend(replies[..i], replies[i], req);
  }

  /** A prefix on which the loop is still running is a proper prefix of a run that stops. */
  lemma RunningPrefixIsProper(replies: seq<Response>, n: nat, req: Request)
    requires n <= |replies|
    requires Run(replies[..n], req).outcome.Running?
    ensures !Run(replies, req).outcome.Running? ==> n < |replies|
  {
    assert replies[..|replies|] == replies;
  }

  /** Once the loop has stopped, later replies are never asked for. */
  lemma {:induction false} RunIgnoresLaterReplies(replies: seq<Response>, more: seq<Response>, req: Request)
    requires !Run(replies, req).outcome.Running?
    ensures Run(replies + more, req) == Run(replies, req)
    decreases |replies|
  {
    assert (replies + more)[0] == replies[0];
    assert (replies + more)[1..] == replies[1..] + more;
    if replies[0].Ok? {
      var page := replies[0].value;
      if ToString(page.nextForwardToken) != ToString(req.nextToken) {
        RunIgnoresLaterReplies(replies[1..], more, req.(nextToken := page.nextForwardToken));
      }
    }
  }

  /** The rows written are those of exactly the replies the loop asked for, in call order. */
  lemma {:induction false} RunRowsAreFetched(replies: seq<Response>, req: Request)
    ensures Run(replies, req).rows == FetchedRows(replies[..|Run(replies, req).requests|])
    decreases |replies|
  {
    var t := Run(replies, req);
    if |replies| > 0 {
      var k := |t.requests|;
      assert replies[..k][0] == replies[0];
      assert replies[..k][1..] == replies[1..][..k - 1];
      if replies[0].Ok? {
        var page := replies[0].value;
        if ToString(page.nextForwardToken) != ToString(req.nextToken) {
          RunRowsAreFetched(replies[1..], req.(nextToken := page.nextForwardToken));
        }
      }
    }
  }

  /** If the loop has stopped within the first `n` replies, those replies decide the run. */
  lemma PrefixDecides(replies: seq<Response>, n: nat, req: Request)
    requires n <= |replies| && !Run(replies[..n], req).outcome.Running?
    ensures Run(replies, req) == Run(replies[..n], req)
  {
    RunIgnoresLaterReplies(replies[..n], replies[n..], req);
    assert replies[..n] + replies[n..] == replies;
  }

  // ---------------------------------------------------------------------------
  // A stateless service

  /** The `i`-th answer of a stateless service is its reply to the request
      that carries the forward token of answer `i - 1`. */
  lemma {:induction false} AnswerAt(svc: Request -> Response, req: Request, n: nat, i: nat)
    requires i < n
    requires i > 0 ==> Answers(svc, req, n)[i - 1].Ok?
    ensures Answers(svc, req, n)[i] == svc(RequestAt(Answers(svc, req, n), req, i))
    decreases i
  {
    var replies := Answers(svc, req, n);
    var reply := svc(req);
    var next := if reply.Ok? then req.(nextToken := reply.value.nextForwardToken) else req;
    var later := Answers(svc, next, n - 1);
    assert replies == [reply] + later;
    if i > 1 {
      assert later[i - 2] == replies[i - 1];
      AnswerAt(svc, next, n - 1, i - 1);
      assert later[i - 1] == replies[i];
    }
  }

  /** Fed with the answers of a stateless service, the loop sends requests to
      which those are exactly the service's answers: the reply to call `i` is
      what the service says to the `i`-th request sent. */
  lemma ServiceAnswersEachRequest(svc: Request -> Response, req: Request, n: nat, i: nat)
    requires i < |Run(Answers(svc, req, n), req).requests|
    ensures i < n && Answers(svc, req, n)[i] == svc(Run(Answers(svc, req, n), req).requests[i])
  {
    RequestSent(Answers(svc, req, n), req, i);
    AnswerAt(svc, req, n, i);
  }
}
