/** `FirefoxInstance`: the older stand-alone wrapper. It keeps no error log;
    it catches only `TimeoutException`, turning it into `false` or into the
    timeout's message as text, and lets every other exception escape. */
module FirefoxInstance {
  import opened Wrappers
  import opened Text
  import opened Driver
  import opened Boundary
  import opened Session

  datatype Firefox = Firefox(handles: Handles)

  /** `ElementIsAttached`: the wait answers with the attached element, or
      with null; true iff it answered with an element. */
  function ElementIsAttached(ff: Firefox, wait: Outcome<Option<nat>>): (r: Completion<bool>)
    ensures r == Returned(true) <==> ff.handles.page.Some? && wait.Ok? && wait.value.Some?
    ensures r.Thrown? <==> OnPage(ff.handles, wait).Err? && OnPage(ff.handles, wait).fault.Failure?
    ensures r.Thrown? ==> r.msg == OnPage(ff.handles, wait).fault.msg
  {
    match OnPage(ff.handles, wait)
    case Ok(element) => Returned(element.Some?)
    case Err(Timeout(_)) => Returned(false)
    case Err(Failure(m)) => Thrown(m)
  }

  /** `GetText`: the trimmed text; on a timeout the timeout's message is
      returned as if it were the text. */
  function GetText(ff: Firefox, read: Outcome<string>): (r: Completion<string>)
    ensures ff.handles.page.Some? && read.Ok? ==> r == Returned(Trim(read.value))
    ensures TimedOut(OnPage(ff.handles, read)) ==> r == Returned(read.fault.msg)
    ensures r.Thrown? <==> OnPage(ff.handles, read).Err? && OnPage(ff.handles, read).fault.Failure?
    ensures r.Thrown? ==> r.msg == OnPage(ff.handles, read).fault.msg
  {
    match OnPage(ff.handles, read)
    case Ok(text) => Returned(Trim(text))
    case Err(Timeout(m)) => Returned(m)
    case Err(Failure(m)) => Thrown(m)
  }

  /** `GetTextAll`: the instance list (trimmed texts, then the message of the
      timeout that ended the enumeration), unless the enumeration ended with
      another exception, which escapes. */
  function GetTextAll(ff: Firefox, query: Outcome<seq<Outcome<string>>>): (r: Completion<seq<string>>)
    ensures var stop := StopFault(OnPage(ff.handles, query));
            r.Thrown? <==> stop.Some? && stop.value.Failure?
    ensures r.Thrown? ==> r.msg == StopFault(OnPage(ff.handles, query)).value.msg
    ensures r.Returned? ==> ListsFailure(OnPage(ff.handles, query), r.value)
  {
    var q := OnPage(ff.handles, query);
    match StopFault(q)
    case Some(Failure(m)) => Thrown(m)
    case _ => Returned(CollectWithMessage(q))
  }

  /** `Dispose`: the same null-checked teardown as the instance's. */
  function Dispose(ff: Firefox): (r: (Firefox, seq<Teardown>))
    ensures r.0.handles == NoHandles
    ensures forall b: nat :: CloseBrowser(b) in r.1 <==> ff.handles.browser == Some(b)
    ensures forall d: nat :: DisposeDriver(d) in r.1 <==> ff.handles.driver == Some(d)
    ensures Session.Dispose(r.0.handles).requests == []
    ensures r.1 == Session.Dispose(ff.handles).requests
  {
    var d := Session.Dispose(ff.handles);
    (Firefox(d.handles), d.requests)
  }
}
