# download-cwlogs: the paging loop

`download-cwlogs` is a command-line tool. It downloads one CloudWatch Logs log stream into a CSV file,
with a header row `timestamp,message` and then one row per event. Its core is the body of the
root command (`cmd/root.go`), which works in four steps:

- it builds a GetLogEvents request for the given group and stream, reading from the head, with no token;
- it writes the header;
- it calls GetLogEvents over and over, and after each successful call writes one row per event of the page;
- it stops when the reply's forward token equals the token the call sent.

Both tokens are read through `aws.ToString`, so an absent token reads as `""`. A failed call ends the
command at once. The rows already written stay.

The model has six modules:

- `Wrappers`: `Option` and `Result`.
- `Logs`: the values the loop exchanges with the service. These are events, pages, errors, requests,
  and `ToString` (`aws.ToString`). A timestamp is a Go `int64`.
- `Decimal`: how `%v` writes an `int64` timestamp, and `Parse`, which reads it back.
- `Paging`: the loop as a function (`Run`) of the service's replies. It holds what the loop does, stated
  without the loop: the token each call sends (`SentToken`, `RequestAt`), when the loop goes on
  (`Continues`), and the rows of all fetched pages (`FetchedRows`). It also holds one loop turn
  (`Step`) and a stateless service (`Answers`).
- `Cmd`: the command body as an imperative method, `Download`. A `while` loop in it mutates `params`,
  the request list and the output rows. The method is proved equal to `Run` and to the header-first
  layout.
- `Scenarios`: concrete runs.

Some parts of the program are passed in as parameters:

- **The service** is given as `replies`, the reply to each call in order. Any service answers a run of
  the loop with such a sequence, stateful or not. `Paging.ServiceAnswersEachRequest` shows the case of
  a stateless service `svc: Request -> Response`.
- **The CSV writer**, the output sink, is a sequence of rows.
- **Termination**: `Download` requires that some reply fails or echoes its token (`Finishes`). This is
  the external condition under which the source's loop ends; `Paging.RunFinishesIff` shows it is
  exactly that condition.

## Model

| member | source | states |
|---|---|---|
| `Cmd.Download` | cmd/root.go:58-99 | Its results match `Run` on the initial request: the requests sent, the header and then the loop's rows, and how it ended. The loop ends completed or failed. It sends at least one request and never more than there are replies. The first request is the initial one. Row 0 is the header, and no later row is. |
| `Paging.InitialRequest` | cmd/root.go:58-62 | The first request names the given group and stream, reads from the head, and carries no token, which reads as `""`. |
| `Logs.ToString` | cmd/root.go:94 | `aws.ToString`: a present token reads as itself, and a token reads as `""` exactly when it is absent or empty. |
| `Paging.CallOutcome` | cmd/root.go:80-96 | One call fails the loop exactly when GetLogEvents returns an error, carrying that error. It completes the loop exactly when it succeeds and its forward token reads the same as the token sent. Otherwise the loop goes on. |
| `Paging.Step` | cmd/root.go:80-98 | One turn of the loop leaves a run that has already stopped unchanged. |
| `Paging.StepAppends` | cmd/root.go:80-98 | A turn of a running loop sends the pending request after the earlier ones and keeps the earlier rows unchanged. It appends exactly the reply's rows and ends as `CallOutcome` says. Group, stream and direction stay the same. The token becomes the reply's forward token when the loop goes on, and stays the same when it stops. |
| `Paging.RunRowsAreFetched` | cmd/root.go:79-99 | The rows the loop writes are the concatenated rows of exactly the replies it asked for, in call order. Together with `Cmd.Download`, the output is the header followed by the rows of every page fetched. |
| `Paging.EventRow` | cmd/root.go:88 | The row written for an event keeps the event's message, and its timestamp cell is never the header's `timestamp`. |
| `Paging.EventRowReadsBack` | cmd/root.go:88 | The timestamp cell of an event row reads back as the event's timestamp. |
| `Cmd.WriteEvents` | cmd/root.go:87-89 | Appends the rows of a page's events after the rows already written. One row per event, in page order, and the earlier rows are unchanged. |
| `Paging.Run` | cmd/root.go:79-99 | The loop sends at most one request per reply, and at least one whenever there is a reply. |
| `Paging.RunAppend` | cmd/root.go:79-99 | One more reply is one `Step`. If the loop has stopped, nothing changes. Otherwise the pending request is sent and exactly that reply's rows are appended after the earlier rows. The loop then ends as the reply says, or the reply's forward token becomes the next token. |
| `Paging.RunStopsAt` | cmd/root.go:79-99 | Calls 0..n-1 succeed with a changed token and call n does not. Then exactly n+1 calls are made, the outcome is call n's (failed, or completed on an echo), and the rows are all fetched pages' rows through call n, concatenated in order. |
| `Paging.FailureKeepsEarlierRows` | cmd/root.go:80-84 | A failure at call n ends the loop at once with that error after n+1 calls. The rows of the n earlier pages stay, and the failed call adds none. |
| `Paging.RunFinishesIff` | cmd/root.go:79-99 | The loop is still running when the replies run out if and only if no reply fails or echoes the token it was sent. |
| `Paging.FinishedRun` | cmd/root.go:79-99 | A run that finishes ends completed or failed. Its first request is the starting one. It sends between one request and one per reply. It never writes the header row. |
| `Paging.RequestSent` | cmd/root.go:80-98 | Call i sends the starting request with its token replaced by the forward token of call i-1, and call i-1 succeeded. Call 0 sends the starting request. |
| `Paging.QueryNeverChanges` | cmd/root.go:58-62 | Every call asks for the starting group and stream with the starting direction. The first call sends the starting token, and every later call the previous reply's forward token. |
| `Paging.RunIgnoresLaterReplies` | cmd/root.go:94-96 | Once the loop has stopped, no more calls are made, so later replies change nothing. |
| `Paging.PrefixDecides` | cmd/root.go:94-96 | If the loop stops within the first n replies, those replies alone decide the whole run. |
| `Paging.ServiceAnswersEachRequest` | cmd/root.go:80-98 | Fed a stateless service's answers, the reply to call i is the service's answer to the i-th request the loop sent. |
| `Paging.HeaderNotWrittenAgain` | cmd/root.go:76-89 | The loop never writes the header row, so the header is written exactly once, before every event row. |
| `Paging.EventRowsAt` | cmd/root.go:87-89 | A page gives exactly one row per event: row k is event k's timestamp as `%v` writes it, with its message. |
| `Paging.EventRowsHaveNoHeader` | cmd/root.go:87-89 | No row written for a page equals the header. |
| `Paging.EventRowIsNotHeader` | cmd/root.go:76-88 | An event row never equals the header, because a rendered timestamp starts with a digit or '-'. |
| `Paging.FetchedRowsSnoc` | cmd/root.go:87-89 | Each further reply appends its own rows after the rows of earlier replies, and a failed reply appends none. |
| `Decimal.Format` | cmd/root.go:88 | The `%v` text of an integer is non-empty and starts with '-' or a digit. |
| `Decimal.DigitsRoundTrip` | cmd/root.go:88 | Reading back the digits of a natural number gives that number. |
| `Decimal.FormatRoundTrip` | cmd/root.go:88 | Reading back the `%v` text of a timestamp gives the timestamp, so rendering loses nothing. |
| `Decimal.FormatInjective` | cmd/root.go:88 | Distinct timestamps render as distinct texts. |
| `Scenarios.TwoPagesThenEcho` | cmd/root.go:79-99 | Two pages, where the second echoes "T1". Two calls, the second sending "T1"; rows `1000,a` and `2000,b`; the loop completes. |
| `Scenarios.EmptyStreamStopsAtOnce` | cmd/root.go:94-96 | A first page with no events and no forward token stops the loop after one call, whatever replies would follow. |
| `Scenarios.EmptyTokenEchoesAbsentToken` | cmd/root.go:94 | A first reply whose forward token is `""` also stops the loop, because the absent first token reads as `""` too. |
| `Scenarios.FailureAfterOnePage` | cmd/root.go:80-84 | A failure on the second call keeps the first page's row and ends the loop with that error. |

## Left out

- Configuration loading and client creation (cmd/root.go:48-55): these need AWS credentials and the network. The model starts with the client in hand, and `context.TODO()` (no deadline, no cancellation) is not modelled.
- Creating, closing and flushing the output file (cmd/root.go:65-73): the file is the sequence of rows the CSV writer is given. The file-creation error path is not modelled. The deferred flush runs on every exit path, so the written rows reach the file provided the writes succeed. The code ignores the errors of `Write` (cmd/root.go:76, 88), of the deferred `Flush` (:73, `writer.Error()` is never consulted) and of `Close` (:70). A failed write therefore loses rows silently while the command still ends normally, and the model, in which every row is kept, does not capture that.
- CSV quoting of cells (`encoding/csv`): a row is kept as its two cells. The writer's own escaping is library code outside this model.
- Output on stdout (cmd/root.go:50, 67, 82, 91): the messages and the per-page `NextToken:` line affect nothing the loop computes.
- Flag parsing, required flags and the exit status (cmd/root.go:105-120): these are the command-line framework's. The source's loop reports an API error and returns normally from `Run`. The command framework then exits with status 0 even after a failed call. The model records the failure as the loop's outcome `Failed`.
- Nil `Timestamp` or `Message` in an event (cmd/root.go:88 dereferences both): in the source this is a runtime panic. The model gives every event both fields.
- A service that never echoes a token: the loop of the source then never ends. `Download` requires `Finishes`, i.e. that some reply fails or echoes, and `Paging.RunFinishesIff` shows that this is exactly the condition for the loop to end.
- Empty streams: the code makes the first call with no token. It stops after that one call only if the first reply's forward token reads as `""`, as `Scenarios.EmptyStreamStopsAtOnce` and `Scenarios.EmptyTokenEchoesAbsentToken` show. Any non-empty token costs a second call, which must echo it.
