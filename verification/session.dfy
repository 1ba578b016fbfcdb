/** The three driver handles an instance holds (the Playwright driver, the
    launched browser and its one page) and their teardown. A null handle is
    `None`; handle values are opaque numbers. */
module Session {
  import opened Wrappers
  import opened Driver

  datatype Handles = Handles(driver: Option<nat>, browser: Option<nat>, page: Option<nat>)

  /** A teardown request disposal hands to the driver: `browser.CloseAsync()`
      (not awaited) or `playwright.Dispose()`. */
  datatype Teardown = CloseBrowser(browser: nat) | DisposeDriver(driver: nat)

  datatype Disposal = Disposal(handles: Handles, requests: seq<Teardown>)

  const NoHandles := Handles(None, None, None)

  /** `Dispose()`: drop the page, close the browser if there is one, dispose
      the driver if there is one, and null every handle. */
  function Dispose(h: Handles): (r: Disposal)
    ensures r.handles == NoHandles
    ensures forall b: nat :: CloseBrowser(b) in r.requests <==> h.browser == Some(b)
    ensures forall d: nat :: DisposeDriver(d) in r.requests <==> h.driver == Some(d)
    ensures |r.requests| == (if h.browser.Some? then 1 else 0) + (if h.driver.Some? then 1 else 0)
    ensures forall i, j :: 0 <= i < j < |r.requests| ==> r.requests[i].CloseBrowser? && r.requests[j].DisposeDriver?
  {
    var close := if h.browser.Some? then [CloseBrowser(h.browser.value)] else [];
    var release := if h.driver.Some? then [DisposeDriver(h.driver.value)] else [];
    Disposal(NoHandles, close + release)
  }

  /** Thanks to the null checks a second disposal changes nothing and
      requests no further teardown; each live handle is torn down once. */
  lemma DisposeIdempotent(h: Handles)
    ensures Dispose(Dispose(h).handles) == Disposal(Dispose(h).handles, [])
  {
  }

  /** The message of the `NullReferenceException` a call on a null page throws. */
  const NullReferenceMessage := "Object reference not set to an instance of an object."

  /** A driver call made through the page: once the page has been disposed
      the call throws a `NullReferenceException` instead of reaching the
      driver. */
  function OnPage<T>(h: Handles, o: Outcome<T>): (r: Outcome<T>)
    ensures h.page.Some? ==> r == o
    ensures h.page.None? ==> r == Err(Failure(NullReferenceMessage))
  {
    if h.page.Some? then o else Err(Failure(NullReferenceMessage))
  }
}
