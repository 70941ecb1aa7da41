/** The values the loop in cmd/root.go exchanges with the CloudWatch Logs
    GetLogEvents operation. Only the fields the loop reads or sets are kept. */
module Logs {
  import opened Wrappers

  /** Go's `int64`, the type of an event's timestamp (milliseconds since the epoch). */
  newtype int64 = x: int | -0x8000_0000_0000_0000 <= x < 0x8000_0000_0000_0000

  /** One log event of a page. */
  datatype Event = Event(timestamp: int64, message: string)

  /** A successful reply: the page's events, in the order the service delivers
      them, and the forward token, which the service may leave absent. */
  datatype Page = Page(events: seq<Event>, nextForwardToken: Option<string>)

  /** Why a call failed (authentication, missing group or stream, throttling,
      network); the loop only passes it on. */
  datatype ApiError = ApiError(reason: string)

  /** What one GetLogEvents call returns. */
  type Response = Result<Page, ApiError>

  /** The GetLogEvents input: group and stream names, the reading direction,
      and the token of the page to fetch (absent on the first call). */
  datatype Request = Request(
    logGroupName: string,
    logStreamName: string,
    startFromHead: bool,
    nextToken: Option<string>)

  /** `aws.ToString`: an absent string reads as the empty string. */
  function ToString(p: Option<string>): (s: string)
    ensures p.Some? ==> s == p.value
    ensures s == "" <==> p.None? || p == Some("")
  {
    match p
    case None => ""
    case Some(s) => s
  }
}
