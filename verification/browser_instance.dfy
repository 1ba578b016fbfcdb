/** `BrowserInstance`: the top-level wrapper around one page. It owns the
    error state shared with its frames and elements, catches every driver
    exception at its boundary (except one, see `ClickOn`), and falls back
    from a main-frame click timeout to the page's frames in index order. */
module BrowserInstance {
  import opened Wrappers
  import opened Driver
  import opened Errors
  import opened Boundary
  import opened Session

  datatype Instance = Instance(handles: Handles, errors: ErrorState)

  /** A boolean wrapper around the page call `o`: while the page is live it
      reports the driver's outcome; once disposed it reports the null
      dereference. */
  predicate ReportsBoolOnPage<T>(inst: Instance, o: Outcome<T>, r: Step<bool>) {
    && (inst.handles.page.Some? ==> ReportsBool(inst.errors, o, r))
    && (inst.handles.page.None? ==> !r.value && LoggedOnce(inst.errors, r.errors, NullReferenceMessage))
  }

  /** A text wrapper around the page read `o`, likewise. */
  predicate ReportsTextOnPage(inst: Instance, o: Outcome<string>, r: Step<string>) {
    && (inst.handles.page.Some? ==> ReportsText(inst.errors, o, r))
    && (inst.handles.page.None? ==> r.value == "" && LoggedOnce(inst.errors, r.errors, NullReferenceMessage))
  }

  /** `NavigateTo`: go to the URL waiting for DOMContentLoaded only. */
  function NavigateTo(inst: Instance, nav: Outcome<()>): (r: Step<bool>)
    ensures ReportsBoolOnPage(inst, nav, r)
  {
    Attempt(inst.errors, OnPage(inst.handles, nav))
  }

  /** `WaitDomContentLoaded`: wait for the next navigation of the page. */
  function WaitDomContentLoaded(inst: Instance, wait: Outcome<()>): (r: Step<bool>)
    ensures ReportsBoolOnPage(inst, wait, r)
  {
    Attempt(inst.errors, OnPage(inst.handles, wait))
  }

  /** `KeyboardTypeText`: type into the focused element. */
  function KeyboardTypeText(inst: Instance, typing: Outcome<()>): (r: Step<bool>)
    ensures ReportsBoolOnPage(inst, typing, r)
  {
    Attempt(inst.errors, OnPage(inst.handles, typing))
  }

  /** `KeyboardPressKey`: press one key on the focused element. */
  function KeyboardPressKey(inst: Instance, press: Outcome<()>): (r: Step<bool>)
    ensures ReportsBoolOnPage(inst, press, r)
  {
    Attempt(inst.errors, OnPage(inst.handles, press))
  }

  /** `ElementIsAttached`: wait for a match of the selector to attach. */
  function ElementIsAttached(inst: Instance, wait: Outcome<()>): (r: Step<bool>)
    ensures ReportsBoolOnPage(inst, wait, r)
  {
    Attempt(inst.errors, OnPage(inst.handles, wait))
  }

  /** `TakeScreenshot`: wait for DOMContentLoaded through the instance's
      own `WaitDomContentLoaded`, and only if that succeeds capture. */
  function TakeScreenshot(inst: Instance, wait: Outcome<()>, capture: Outcome<()>): (r: Step<bool>)
    ensures r.value <==> inst.handles.page.Some? && wait.Ok? && capture.Ok?
    ensures !OnPage(inst.handles, wait).Ok? ==>
              LoggedOnce(inst.errors, r.errors, OnPage(inst.handles, wait).fault.msg)
    ensures OnPage(inst.handles, wait).Ok? && capture.Err? ==>
              LoggedOnce(inst.errors, r.errors, capture.fault.msg)
    ensures OnPage(inst.handles, wait).Ok? && capture.Ok? ==> r.errors == inst.errors
  {
    var waited := WaitDomContentLoaded(inst, wait);
    if waited.value then Attempt(waited.errors, OnPage(inst.handles, capture))
    else Step(false, waited.errors)
  }

  /** A failed wait short-circuits: the capture is never attempted, so its
      outcome cannot influence anything. */
  lemma TakeScreenshotSkipsCapture(inst: Instance, wait: Outcome<()>, capture1: Outcome<()>, capture2: Outcome<()>)
    requires !OnPage(inst.handles, wait).Ok?
    ensures TakeScreenshot(inst, wait, capture1) == TakeScreenshot(inst, wait, capture2)
  {
  }

  /** `GetText`: trimmed text content of the first match. */
  function GetText(inst: Instance, read: Outcome<string>): (r: Step<string>)
    ensures ReportsTextOnPage(inst, read, r)
  {
    ReadText(inst.errors, OnPage(inst.handles, read))
  }

  /** `GetFormattedText`: trimmed inner text of the first match. */
  function GetFormattedText(inst: Instance, read: Outcome<string>): (r: Step<string>)
    ensures ReportsTextOnPage(inst, read, r)
  {
    ReadText(inst.errors, OnPage(inst.handles, read))
  }

  /** `GetTextAll`: the failure message goes into the list only; the error
      state is not touched. */
  function GetTextAll(inst: Instance, query: Outcome<seq<Outcome<string>>>): (r: Step<seq<string>>)
    ensures ListsFailure(OnPage(inst.handles, query), r.value)
    ensures r.errors == inst.errors
  {
    Step(CollectWithMessage(OnPage(inst.handles, query)), inst.errors)
  }

  /** `GetFormattedTextAll`: the same list, and the failure message is also
      logged and becomes the last error. */
  function GetFormattedTextAll(inst: Instance, query: Outcome<seq<Outcome<string>>>): (r: Step<seq<string>>)
    ensures ListsFailure(OnPage(inst.handles, query), r.value)
    ensures StopFault(OnPage(inst.handles, query)).None? ==> r.errors == inst.errors
    ensures StopFault(OnPage(inst.handles, query)).Some? ==>
              LoggedOnce(inst.errors, r.errors, StopFault(OnPage(inst.handles, query)).value.msg)
  {
    var q := OnPage(inst.handles, query);
    var texts := CollectWithMessage(q);
    match StopFault(q)
    case Some(f) => Step(texts, Record(inst.errors, f.msg))
    case None => Step(texts, inst.errors)
  }

  /** The result of `ClickOn`, and how many frame clicks it issued. */
  datatype ClickReport = ClickReport(outcome: Completion<bool>, errors: ErrorState, framesTried: nat)

  /** The frame fallback policy, starting from error state `before` that
      already has `first` logged on top of it: frames are clicked in index
      order; each timeout is logged; the first success returns true; the
      first other exception escapes; if every frame times out the result is
      false and every frame was tried. */
  predicate FallsBack(before: ErrorState, first: seq<string>, frames: seq<Outcome<()>>, r: ClickReport) {
    var k := FirstNonTimeout(frames);
    && LoggedAll(before, r.errors, first + FaultMessages(frames[..k]))
    && (k == |frames| ==> r.outcome == Returned(false) && r.framesTried == |frames|)
    && (k < |frames| ==> r.framesTried == k + 1)
    && (k < |frames| && frames[k].Ok? ==> r.outcome == Returned(true))
    && (k < |frames| && frames[k].Err? ==> r.outcome == Thrown(frames[k].fault.msg))
  }

  /** The `for` loop over `page.Frames` once the main-frame click timed out. */
  function FrameFallback(e: ErrorState, frames: seq<Outcome<()>>): (r: ClickReport)
    ensures FallsBack(e, [], frames, r)
    decreases |frames|
  {
    if frames == [] then ClickReport(Returned(false), e, 0)
    else match frames[0]
      case Ok(_) => ClickReport(Returned(true), e, 1)
      case Err(Failure(m)) => ClickReport(Thrown(m), e, 1)
      case Err(Timeout(m)) =>
        var rest := FrameFallback(Record(e, m), frames[1..]);
        FallsBackStep(e, m, frames, rest);
        rest.(framesTried := rest.framesTried + 1)
  }

  /** One timed-out frame, then the fallback over the remaining frames. */
  lemma FallsBackStep(e: ErrorState, m: string, frames: seq<Outcome<()>>, rest: ClickReport)
    requires frames != [] && frames[0] == Err(Timeout(m))
    requires FallsBack(Record(e, m), [], frames[1..], rest)
    ensures FallsBack(e, [], frames, rest.(framesTried := rest.framesTried + 1))
  {
    var k' := FirstNonTimeout(frames[1..]);
    TimeoutsStep(frames, m);
    var ms := FaultMessages(frames[1..][..k']);
    assert LoggedAll(Record(e, m), rest.errors, ms) by {
      assert [] + ms == ms;
    }
    LoggedAllCons(e, Record(e, m), rest.errors, m, ms);
    assert FaultMessages(frames[..k' + 1]) == [] + ([m] + ms);
    if k' < |frames[1..]| {
      assert frames[k' + 1] == frames[1..][k'];
    }
  }

  /** A leading timeout adds one to the timed-out run and its message in front. */
  lemma TimeoutsStep(frames: seq<Outcome<()>>, m: string)
    requires frames != [] && frames[0] == Err(Timeout(m))
    ensures FirstNonTimeout(frames) == FirstNonTimeout(frames[1..]) + 1
    ensures FaultMessages(frames[..FirstNonTimeout(frames)]) == [m] + FaultMessages(frames[1..][..FirstNonTimeout(frames[1..])])
  {
    var k := FirstNonTimeout(frames);
    var head := frames[..k];
    assert head[0] == frames[0] && head[1..] == frames[1..][..k - 1];
    FaultMessagesCons(head);
  }

  /** Logging the main-frame timeout first, then falling back. */
  lemma FallsBackAfter(e: ErrorState, m: string, frames: seq<Outcome<()>>, r: ClickReport)
    requires FallsBack(Record(e, m), [], frames, r)
    ensures FallsBack(e, [m], frames, r)
  {
    var k := FirstNonTimeout(frames);
    LoggedAllCons(e, Record(e, m), r.errors, m, FaultMessages(frames[..k]));
  }

  /** `ClickOn`: click in the main frame; on a timeout log it and fall back
      to the page's frames; on any other exception log it and return false
      without trying a frame. `frames` holds, per frame of the page in index
      order, the outcome of clicking the selector there. */
  function ClickOn(inst: Instance, main: Outcome<()>, frames: seq<Outcome<()>>): (r: ClickReport)
    ensures OnPage(inst.handles, main).Ok? ==> r == ClickReport(Returned(true), inst.errors, 0)
    ensures OnPage(inst.handles, main).Err? && !TimedOut(OnPage(inst.handles, main)) ==>
              && r.outcome == Returned(false) && r.framesTried == 0
              && LoggedOnce(inst.errors, r.errors, OnPage(inst.handles, main).fault.msg)
    ensures TimedOut(OnPage(inst.handles, main)) ==> FallsBack(inst.errors, [main.fault.msg], frames, r)
  {
    match OnPage(inst.handles, main)
    case Ok(_) => ClickReport(Returned(true), inst.errors, 0)
    case Err(Failure(m)) => ClickReport(Returned(false), Record(inst.errors, m), 0)
    case Err(Timeout(m)) =>
      var r := FrameFallback(Record(inst.errors, m), frames);
      FallsBackAfter(inst.errors, m, frames, r);
      r
  }

  /** When the page click and every frame click time out, ClickOn returns
      false after trying every frame, and the log has grown by one entry for
      the page click and one per frame, in order, the last frame's message
      being the last error. */
  lemma ClickOnAllTimeouts(inst: Instance, m: string, frames: seq<Outcome<()>>)
    requires inst.handles.page.Some?
    requires forall i :: 0 <= i < |frames| ==> TimedOut(frames[i])
    ensures var r := ClickOn(inst, Err(Timeout(m)), frames);
            && r.outcome == Returned(false)
            && r.framesTried == |frames|
            && |r.errors.errorLog| == |inst.errors.errorLog| + 1 + |frames|
            && r.errors.errorLog[|inst.errors.errorLog|] == m
            && (forall i :: 0 <= i < |frames| ==>
                  r.errors.errorLog[|inst.errors.errorLog| + 1 + i] == frames[i].fault.msg)
            && r.errors.lastError == Some(if frames == [] then m else frames[|frames| - 1].fault.msg)
  {
    var r := ClickOn(inst, Err(Timeout(m)), frames);
    var k := FirstNonTimeout(frames);
    assert k == |frames|;
    assert frames[..k] == frames;
    var msgs := FaultMessages(frames);
    assert LoggedAll(inst.errors, r.errors, [m] + msgs);
    var n := |inst.errors.errorLog|;
    forall i | 0 <= i < |frames|
      ensures r.errors.errorLog[n + 1 + i] == frames[i].fault.msg
    {
      assert r.errors.errorLog[n + 1 + i] == ([m] + msgs)[1 + i] == msgs[i];
    }
  }

  /** The frames after the one that ended the fallback are never clicked:
      their outcomes cannot influence the report. */
  lemma ClickOnStopsAtFirstNonTimeout(inst: Instance, main: Outcome<()>, frames: seq<Outcome<()>>, other: seq<Outcome<()>>)
    requires |other| == |frames|
    requires var n := ClickOn(inst, main, frames).framesTried; other[..n] == frames[..n]
    ensures ClickOn(inst, main, other) == ClickOn(inst, main, frames)
  {
    if TimedOut(OnPage(inst.handles, main)) {
      var n := ClickOn(inst, main, frames).framesTried;
      var k := FirstNonTimeout(frames);
      if k < |frames| {
        assert other[k] == frames[k];
      }
      forall i | 0 <= i < k ensures other[i] == frames[i] {
        assert other[..n][i] == frames[..n][i];
      }
      assert FirstNonTimeout(other) == k;
      assert other[..k] == frames[..k];
    }
  }

  /** The main-frame click and the frame loop as written, with the early
      `return true` and the uncaught non-timeout exception inside the loop. */
  method ClickOnLoop(inst: Instance, main: Outcome<()>, frames: seq<Outcome<()>>)
    returns (outcome: Completion<bool>, errors: ErrorState, tried: nat)
    ensures ClickReport(outcome, errors, tried) == ClickOn(inst, main, frames)
  {
    errors := inst.errors;
    tried := 0;
    var m := OnPage(inst.handles, main);
    if m.Ok? {
      return Returned(true), errors, tried;
    }
    errors := Record(errors, m.fault.msg);
    if m.fault.Failure? {
      return Returned(false), errors, tried;
    }
    ghost var target := FrameFallback(errors, frames);
    var i := 0;
    while i < |frames|
      invariant 0 <= i <= |frames| && tried == i
      invariant var rest := FrameFallback(errors, frames[i..]); target == rest.(framesTried := rest.framesTried + i)
    {
      assert frames[i..][1..] == frames[i + 1..];
      match frames[i]
      case Ok(_) =>
        return Returned(true), errors, i + 1;
      case Err(Failure(msg)) =>
        return Thrown(msg), errors, i + 1;
      case Err(Timeout(msg)) =>
        errors := Record(errors, msg);
        i := i + 1;
        tried := i;
    }
    outcome := Returned(false);
  }

  /** `Dispose`: null every handle, request teardown of the live ones, and
      leave the error state as it is. */
  function Dispose(inst: Instance): (r: (Instance, seq<Teardown>))
    ensures r.0.handles == NoHandles && r.0.errors == inst.errors
    ensures r.1 == Session.Dispose(inst.handles).requests
    ensures Session.Dispose(r.0.handles).requests == []
  {
    var d := Session.Dispose(inst.handles);
    (Instance(d.handles, inst.errors), d.requests)
  }

  /** Disposing twice: the second call changes nothing and requests nothing. */
  lemma DisposeIdempotent(inst: Instance)
    ensures Dispose(Dispose(inst).0) == (Dispose(inst).0, [])
  {
  }

  /** After disposal every page operation fails with the null dereference,
      which the boundary logs like any driver exception. */
  lemma DisposedPageCallsFail(inst: Instance, nav: Outcome<()>, main: Outcome<()>, frames: seq<Outcome<()>>)
    ensures var gone := Dispose(inst).0;
            && NavigateTo(gone, nav) == Step(false, Record(inst.errors, NullReferenceMessage))
            && ClickOn(gone, main, frames) == ClickReport(Returned(false), Record(inst.errors, NullReferenceMessage), 0)
  {
  }
}
