/** `FrameWrapper`: the wrapper operations scoped to one frame. A frame keeps
    no error state of its own; every failure is reported into the error
    state of the instance that owns it, which is passed in as `sink` and
    handed back updated. A frame click never retries on other frames. */
module FrameWrapper {
  import opened Wrappers
  import opened Driver
  import opened Errors
  import opened Boundary

  /** A frame wrapper holds only the frame handle (and, in the source, a
      back-reference used solely to reach the owner's error state). */
  datatype Frame = Frame(handle: nat)

  /** `WaitDomContentLoaded`: true iff the navigation wait succeeds. */
  function WaitDomContentLoaded(sink: ErrorState, wait: Outcome<()>): (r: Step<bool>)
    ensures ReportsBool(sink, wait, r)
  {
    Attempt(sink, wait)
  }

  /** `ClickOn`: true iff the click in this frame succeeds; a timeout is
      handled like any other failure. */
  function ClickOn(sink: ErrorState, click: Outcome<()>): (r: Step<bool>)
    ensures ReportsBool(sink, click, r)
  {
    Attempt(sink, click)
  }

  /** `ElementIsAttached`: true iff the wait for an attached match succeeds. */
  function ElementIsAttached(sink: ErrorState, wait: Outcome<()>): (r: Step<bool>)
    ensures ReportsBool(sink, wait, r)
  {
    Attempt(sink, wait)
  }

  /** `GetText`: the trimmed text content, or "" and one log entry. */
  function GetText(sink: ErrorState, read: Outcome<string>): (r: Step<string>)
    ensures ReportsText(sink, read, r)
  {
    ReadText(sink, read)
  }

  /** `GetFormattedText`: the trimmed inner text, or "" and one log entry. */
  function GetFormattedText(sink: ErrorState, read: Outcome<string>): (r: Step<string>)
    ensures ReportsText(sink, read, r)
  {
    ReadText(sink, read)
  }

  /** The frame "All" readers: the query's outcome carries, per matched
      element in document order, the outcome of reading that element. The
      result is the trimmed prefix read before the first exception; the
      exception is logged but not added to the list. */
  predicate ReportsPrefix(sink: ErrorState, query: Outcome<seq<Outcome<string>>>, r: Step<seq<string>>) {
    && (query.Err? ==> r.value == [])
    && (query.Ok? ==> TrimmedPrefix(r.value, query.value))
    && (query.Ok? && AllOk(query.value) ==> |r.value| == |query.value|)
    && (StopFault(query).None? ==> r.errors == sink)
    && (StopFault(query).Some? ==> LoggedOnce(sink, r.errors, StopFault(query).value.msg))
  }

  function CollectPrefix(sink: ErrorState, query: Outcome<seq<Outcome<string>>>): (r: Step<seq<string>>)
    ensures ReportsPrefix(sink, query, r)
  {
    match query
    case Err(f) => Step([], Record(sink, f.msg))
    case Ok(answers) =>
      var h := ReadAll(answers);
      HarvestStopsAtFirstErr(answers);
      if h.stop.Some? then Step(h.texts, Record(sink, h.stop.value.msg)) else Step(h.texts, sink)
  }

  /** `GetTextAll`: text content of every match, trimmed, in order. */
  function GetTextAll(sink: ErrorState, query: Outcome<seq<Outcome<string>>>): (r: Step<seq<string>>)
    ensures ReportsPrefix(sink, query, r)
  {
    CollectPrefix(sink, query)
  }

  /** `GetFormattedTextAll`: inner text of every match, trimmed, in order. */
  function GetFormattedTextAll(sink: ErrorState, query: Outcome<seq<Outcome<string>>>): (r: Step<seq<string>>)
    ensures ReportsPrefix(sink, query, r)
  {
    CollectPrefix(sink, query)
  }
}
