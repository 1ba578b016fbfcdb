# webgrep browser wrappers: error handling and fallback policy

webgrep wraps a Playwright browser page behind synchronous calls that return
`bool`, `string` or `List<string>` instead of throwing. This project models
the policy those wrappers apply around each driver call, and proves it:

- which results come back;
- what goes into the shared error state (`ErrorLog`, `LastError`);
- which exceptions are swallowed and which escape;
- in which order the main-frame click falls back to the page's frames.

The model covers four levels. `BrowserInstance` owns the page and the error
state. `FrameWrapper` works on one frame and reports into its instance's
error state. `ElementWrapper` works on one element and reports through its
frame. `FirefoxInstance` is an older wrapper with no error log that catches
only timeouts.

## How the model is built

- **Driver calls are inputs.** Every awaited Playwright call is given as an
  `Outcome<T>`: `Ok(value)` or `Err(fault)`, where a fault is
  `Timeout(msg)` (a `TimeoutException`) or `Failure(msg)` (any other
  exception). Selectors, URLs, timeouts and file paths only steer the driver,
  so they do not appear.
- **The "All" readers take one query outcome.** Its value is the list of
  matched elements in order, each given as the outcome of reading that
  element's text.
- **The instance frame click takes one outcome per frame.** `ClickOn` gets a
  sequence with the outcome of clicking in each of `page.Frames`, in index
  order.
- **The error state is a value.** It is `ErrorState(errorLog, lastError)`.
  The logging wrappers return `Step(value, errors)`, and frame and element
  operations take their owner's error state as `sink` and hand it back
  updated. The source holds this state in one mutable object behind
  back-references, so threading one value through the calls gives the same
  behaviour. A frame or element value holds only its handle (and, for an
  element, its frame). Three kinds of operation return something else:
  - `BrowserInstance.ClickOn` returns a `ClickReport`. It holds a
    `Completion`, because a frame click can throw past it, plus the error
    state and the number of frames tried.
  - The `FirefoxInstance` operations return a bare `Completion`, because that
    wrapper keeps no error state.
  - Both `Dispose` functions return a pair: the disposed value and the
    teardown requests.
- **Escaping exceptions are `Thrown(msg)`.** An exception the source does not
  catch is a `Completion.Thrown(msg)`.
- **A disposed page fails every call.** `Dispose` nulls `page`, and each later
  call on it throws a `NullReferenceException`. `Session.OnPage` models this.
  The instance's catch-all boundary logs it like any driver failure.
- **Trim is exact.** It uses the exact .NET `Char.IsWhiteSpace` set (on the characters a Dafny string can hold; see "Left out").

Some behaviours of the code are easy to misread, and the model follows the
code exactly:

- `NavigateTo` waits only for DOMContentLoaded (BrowserInstance.cs:43). It has
  no network-idle wait.
- `BrowserInstance.GetTextAll` does not log its exception. It only appends the
  message to the returned list. `GetFormattedTextAll` does both.
- The instance `ClickOn` does not catch every exception. The handler around
  each frame click catches only `TimeoutException`. Any other exception thrown
  there is raised inside the outer `catch (TimeoutException)` block, so it
  escapes `ClickOn`. The error state at that point holds the main-frame
  timeout and every earlier frame timeout.
- Instance operations call the page directly. They do not delegate to a
  `FrameWrapper`. The two levels can still be compared:
  `Agreement.FrameListLacksOnlyTheMessage` does so.
- As written, two lines do not type-check:
  - `IBrowserInstance.LastError` is get-only, yet `FrameWrapper` assigns it.
  - `IFrameWrapper` has no `ErrorLog` or `LastError`, yet `ElementWrapper`
    uses them.

  The model follows the evident intent: one shared error state that every
  level writes to.

## Model

| member | source | states |
|---|---|---|
| Text.Trim | BrowserInstance.cs:170 | the trimmed text neither starts nor ends with whitespace (.NET's `Char.IsWhiteSpace` set) |
| Text.TrimStrips | BrowserInstance.cs:170 | the trimmed text is the piece of the input that follows its leading whitespace, and only whitespace is cut from either end |
| Text.TrimEmptyIffWhite | BrowserInstance.cs:170 | the trimmed text is empty exactly when the input is all whitespace |
| Text.TrimUnique | BrowserInstance.cs:170 | any trimmed string that the input reduces to by cutting whitespace from the ends is the trimmed text |
| Text.TrimIdempotent | FrameWrapper.cs:80 | trimming an already trimmed text changes nothing |
| Text.TrimFixesExactlyTrimmed | ElementWrapper.cs:86 | Trim leaves a string unchanged exactly when it neither starts nor ends with whitespace |
| Boundary.Attempt | BrowserInstance.cs:102-115 | the catch-all boundary: true iff the call succeeded; success leaves the log and last error untouched; a failure appends exactly its message and makes it the last error |
| Boundary.ReadText | BrowserInstance.cs:165-178 | the text boundary: a successful read yields its trimmed text and no log entry; a failure yields "" and exactly one entry with its message, which becomes the last error |
| Boundary.ReadAll | FrameWrapper.cs:95-100 | the enumeration yields the trimmed texts of the leading successful reads in element order, and stops exactly at the first failed read, reporting that read's exception |
| Boundary.CollectTexts | FrameWrapper.cs:96-100 | the `foreach` loop that trims and appends until a read throws computes exactly the enumeration above |
| Boundary.HarvestUnique | FrameWrapper.cs:96-100 | a text list and stop that satisfy the enumeration's promise are the enumeration's result |
| Boundary.HarvestStopsAtFirstErr | FrameWrapper.cs:96-106 | the enumeration stops iff some read fails, and then after exactly as many texts as reads succeeded before the first failure |
| Boundary.CollectWithMessage | BrowserInstance.cs:182-196 | the instance "All" list: all trimmed texts when nothing throws; otherwise the texts read before the exception followed by its message (only the message when the query itself throws) |
| Boundary.RunAttempts | BrowserInstance.cs:31-32 | guarded calls run one after another never clear the log: it grows by exactly the failed calls' messages in call order, and the last error is the latest failure or unchanged if none failed |
| Session.Dispose | BrowserInstance.cs:240-247 | after disposal every handle is null; browser close and driver disposal are requested exactly for the handles that were live, browser close first |
| Session.DisposeIdempotent | FirefoxInstance.cs:96-103 | a second disposal leaves the handles null and requests no teardown |
| Session.OnPage | BrowserInstance.cs:242 | once `page` is null, every call through it fails with the `NullReferenceException` message instead of reaching the driver; while the page is live, the driver's outcome passes through unchanged |
| Errors.Record | BrowserInstance.cs:48-49 | a catch block appends exactly the exception's message to the log and makes it the last error |
| FrameWrapper.WaitDomContentLoaded | FrameWrapper.cs:30-43 | true iff the navigation wait succeeds; success leaves the owner's error state alone; a failure appends one entry to the owner's log and sets its last error |
| FrameWrapper.ClickOn | FrameWrapper.cs:45-58 | true iff the click in this frame succeeds, with no retry elsewhere; any failure, timeouts included, gives false and one log entry |
| FrameWrapper.ElementIsAttached | FrameWrapper.cs:60-73 | true iff the attached-state wait succeeds, else false with one entry in the owner's log |
| FrameWrapper.GetText | FrameWrapper.cs:75-88 | the trimmed text content on success with the error state unchanged; "" and one log entry on failure |
| FrameWrapper.GetFormattedText | FrameWrapper.cs:110-123 | the trimmed inner text on success; "" and one log entry on failure |
| FrameWrapper.GetTextAll | FrameWrapper.cs:90-108 | one trimmed text per match in order when every read succeeds; otherwise exactly the prefix read before the exception, with no message added, and one log entry; a failed query gives an empty list and one entry |
| FrameWrapper.GetFormattedTextAll | FrameWrapper.cs:125-143 | the same promise for the inner-text reads |
| ElementWrapper.AttachedElements | ElementWrapper.cs:29-44 | on success one element wrapper per returned handle, same order, each bound to this element's frame, error state unchanged; on failure an empty sequence and one log entry |
| ElementWrapper.ClickOn | ElementWrapper.cs:46-60 | true iff the element click succeeds; otherwise false, one entry in the shared log and the last error set |
| ElementWrapper.ElementIsAttached | ElementWrapper.cs:62-77 | true iff the wait for an attached descendant succeeds, else false with one log entry |
| ElementWrapper.GetFormattedText | ElementWrapper.cs:79-94 | the element's trimmed inner text on success; "" and one log entry on failure |
| ElementWrapper.GetText | ElementWrapper.cs:96-111 | the element's trimmed text content on success; "" and one log entry on failure |
| ElementWrapper.ClickEach | ElementWrapper.cs:46-60 | clicking elements one after another gives true exactly for the clicks that succeed, and the shared log grows by exactly the failed clicks' messages, in order |
| ElementWrapper.AttachedElementsShareTheSink | ElementWrapper.cs:29-60 | the elements a query returns are bound to the same frame as the element queried, so a failed query and the failed clicks on its results all land in one log, in call order |
| BrowserInstance.NavigateTo | BrowserInstance.cs:39-52 | true iff the DOMContentLoaded navigation succeeds; a failure is logged once; on a disposed page the null dereference is logged and the result is false |
| BrowserInstance.WaitDomContentLoaded | BrowserInstance.cs:54-67 | true iff the wait succeeds; one log entry per failure; the error state is untouched on success |
| BrowserInstance.KeyboardTypeText | BrowserInstance.cs:102-115 | true iff typing succeeds, otherwise false with exactly one log entry |
| BrowserInstance.KeyboardPressKey | BrowserInstance.cs:117-130 | true iff the key press succeeds, otherwise false with exactly one log entry |
| BrowserInstance.TakeScreenshot | BrowserInstance.cs:132-148 | true iff the page is live and both the wait and the capture succeed; a failed wait logs only the wait's entry; a failed capture after a good wait logs only the capture's entry |
| BrowserInstance.TakeScreenshotSkipsCapture | BrowserInstance.cs:134-147 | after a failed wait the capture is not attempted: its outcome cannot change the result or the error state |
| BrowserInstance.ElementIsAttached | BrowserInstance.cs:150-163 | true iff the attached-state wait succeeds, otherwise false and one log entry |
| BrowserInstance.GetText | BrowserInstance.cs:165-178 | the trimmed text content, or "" and one log entry |
| BrowserInstance.GetFormattedText | BrowserInstance.cs:199-212 | the trimmed inner text, or "" and one log entry |
| BrowserInstance.GetTextAll | BrowserInstance.cs:180-197 | the trimmed texts in element order, as many as matches, when nothing throws; otherwise the prefix read so far followed by the exception's message; the log and last error are never touched |
| BrowserInstance.GetFormattedTextAll | BrowserInstance.cs:214-233 | the same list, and on an exception exactly that exception's message is logged and becomes the last error |
| BrowserInstance.FrameFallback | BrowserInstance.cs:80-92 | frames are tried in index order, each timeout logged; the result is true at the first success, an escaping exception at the first non-timeout failure, and false after every frame timed out; the number of frames tried is one past the stopping frame, or all of them |
| BrowserInstance.ClickOn | BrowserInstance.cs:69-100 | a main-frame success returns true, logs nothing and tries no frame; a non-timeout main failure logs one entry, tries no frame and returns false; a main timeout is logged and then the frame fallback decides, so the log grows by one plus one per timed-out frame |
| BrowserInstance.ClickOnStopsAtFirstNonTimeout | BrowserInstance.cs:80-92 | frames after the one that ended the fallback are never clicked: changing their outcomes changes nothing |
| BrowserInstance.ClickOnAllTimeouts | BrowserInstance.cs:69-100 | when the page click and every frame click time out, the result is false after all frames were tried, and the log holds the page message followed by each frame's message in order, the last of them as the last error |
| BrowserInstance.ClickOnLoop | BrowserInstance.cs:69-100 | the `for` loop with its early `return true` and the uncaught inner exception computes exactly the fallback policy |
| BrowserInstance.Dispose | BrowserInstance.cs:240-247 | disposal nulls every handle, keeps the error state, and leaves nothing for a later disposal to tear down |
| BrowserInstance.DisposeIdempotent | BrowserInstance.cs:240-247 | disposing a disposed instance changes nothing and requests no teardown |
| BrowserInstance.DisposedPageCallsFail | BrowserInstance.cs:242 | after disposal a navigation or click fails and logs the null dereference; the click then tries no frame |
| FirefoxInstance.ElementIsAttached | FirefoxInstance.cs:46-57 | true iff the wait yields an element; a timeout gives false; any other exception escapes; nothing is logged anywhere |
| FirefoxInstance.GetText | FirefoxInstance.cs:59-70 | the trimmed text on success; on a timeout the timeout's message itself is returned as the text; other exceptions escape |
| FirefoxInstance.GetTextAll | FirefoxInstance.cs:72-89 | trimmed texts in element order; a timeout ends the list with its message after the prefix read so far; a non-timeout exception escapes |
| FirefoxInstance.Dispose | FirefoxInstance.cs:96-103 | disposal nulls every handle, requests teardown exactly for the live ones (browser close once, then driver disposal once, the same requests as the instance's disposal), and leaves nothing for a second disposal |
| Agreement.InstanceAllReadersDifferOnlyInLogging | BrowserInstance.cs:214-233 | the instance's two "All" readers return the same list; only the formatted one changes the error state, and it does so exactly when the enumeration threw |
| Agreement.FrameListLacksOnlyTheMessage | FrameWrapper.cs:125-143 | on a live page the frame reader logs the same entry as the instance reader, and its list is the instance's list without the appended message |
| Agreement.FirefoxTextAllAgreesOnTimeouts | FirefoxInstance.cs:77-88 | unless a non-timeout exception ended the enumeration, Firefox's `GetTextAll` returns exactly the instance's list |
| Agreement.GetTextTimeoutDiffers | FirefoxInstance.cs:66-69 | on a timeout Firefox returns the timeout's message as text, while the instance returns "" and logs the message |
| Agreement.ElementIsAttachedDiffers | FirefoxInstance.cs:46-57 | given the same wait, Firefox and the instance agree on an element (true) and on a timeout (false), but a null answer is false for Firefox and true for the instance (BrowserInstance.cs:155 ignores it), another exception escapes Firefox but is logged by the instance, and only the instance logs |
| Agreement.OneLogForEveryLevel | ElementWrapper.cs:54-58 | an instance call, a frame call and an element call on the same error state leave the failures' messages in one log, in call order |

## Left out

- The browser driver itself. Navigation, clicking, waiting, the difference between text content and inner text, selectors, screenshots and frame enumeration are all answered by the outcome inputs.
- The engine launchers `ChromiumInstance` and `WebkitInstance`, and the launching part of the `FirefoxInstance` constructor. They only acquire the driver, browser and page. A new instance starts from `Errors.NoErrors`.
- The void pass-throughs of `FirefoxInstance` (FirefoxInstance.cs:21-44). They forward to the driver and add no policy.
- Async bridging (`GetAwaiter().GetResult()`, `Task.Run`, `.Wait()`), timeouts as wall-clock time, and finalizers. These are runtime concerns. The model assumes calls run one at a time, as the blocking calls make them.
- The `browser.CloseAsync()` that disposal does not await. Disposal records only which teardown it requests, not whether it completes.
- `LastError` holds the exception object. The model keeps only its message, which is all the log records.
- A null text from the driver makes `Trim()` throw a `NullReferenceException`. The model treats it as a `Failure` outcome of that read, which matches what each wrapper then does: it logs it, or lets it escape in `FirefoxInstance`.
- `page.Frames` is read again on each iteration of the frame loop. The model takes one snapshot of the frames and their click outcomes, and does not model whether the list includes the main frame.
- `ElementWrapper.AttachedElements` returns a lazy `Select`. Wrapping cannot throw, so the model builds the sequence eagerly.
- `BrowserInstance` has no frame enumeration and no `AttachedElements`. Frames are reached only through the fallback in `ClickOn`, and attached elements only through `ElementWrapper`.
- Dafny strings are sequences of Unicode scalar values, while .NET strings are sequences of UTF-16 code units. A lone surrogate in driver text therefore cannot be represented, and a surrogate pair counts as one character rather than two. Trimming is unaffected, since no whitespace character is a surrogate.
