/** How the three wrapper levels and the older Firefox wrapper relate when
    they are given the same driver outcomes. */
module Agreement {
  import opened Wrappers
  import opened Driver
  import opened Errors
  import opened Boundary
  import opened Session
  import BrowserInstance
  import FrameWrapper
  import ElementWrapper
  import FirefoxInstance

  /** The instance's two "All" readers build the same list; only the
      formatted one reports the exception to the error state. */
  lemma InstanceAllReadersDifferOnlyInLogging(inst: BrowserInstance.Instance, query: Outcome<seq<Outcome<string>>>)
    ensures BrowserInstance.GetTextAll(inst, query).value == BrowserInstance.GetFormattedTextAll(inst, query).value
    ensures BrowserInstance.GetTextAll(inst, query).errors == inst.errors
    ensures BrowserInstance.GetFormattedTextAll(inst, query).errors == inst.errors
            <==> StopFault(OnPage(inst.handles, query)).None?
  {
  }

  /** On a live page the instance's formatted "All" reader and the frame's
      log the same entry; the instance list is the frame list with the
      exception's message appended. */
  lemma FrameListLacksOnlyTheMessage(inst: BrowserInstance.Instance, query: Outcome<seq<Outcome<string>>>)
    requires inst.handles.page.Some?
    ensures var fromFrame := FrameWrapper.GetFormattedTextAll(inst.errors, query);
            var fromInstance := BrowserInstance.GetFormattedTextAll(inst, query);
            && fromInstance.errors == fromFrame.errors
            && fromInstance.value == fromFrame.value + (match StopFault(query)
                                                        case Some(f) => [f.msg]
                                                        case None => [])
  {
  }

  /** Where the older Firefox wrapper and the instance both return, they
      return the same list: as long as the enumeration did not end in a
      non-timeout exception, Firefox's `GetTextAll` is the instance's. */
  lemma FirefoxTextAllAgreesOnTimeouts(h: Handles, e: ErrorState, query: Outcome<seq<Outcome<string>>>)
    requires var stop := StopFault(OnPage(h, query)); stop.None? || stop.value.Timeout?
    ensures FirefoxInstance.GetTextAll(FirefoxInstance.Firefox(h), query)
            == Returned(BrowserInstance.GetTextAll(BrowserInstance.Instance(h, e), query).value)
  {
  }

  /** On a timeout the two single-text readers part ways: Firefox returns the
      timeout's message as the text, the instance returns "" and logs it. */
  lemma GetTextTimeoutDiffers(h: Handles, e: ErrorState, m: string)
    requires h.page.Some?
    ensures FirefoxInstance.GetText(FirefoxInstance.Firefox(h), Err(Timeout(m))) == Returned(m)
    ensures BrowserInstance.GetText(BrowserInstance.Instance(h, e), Err(Timeout(m))) == Step("", Record(e, m))
  {
  }

  /** The two `ElementIsAttached` wrappers given the same wait: both return
      true for an element and false on a timeout; a null answer is false for
      Firefox but true for the instance, which ignores the answer; another
      exception escapes Firefox but is logged by the instance; and only the
      instance ever logs. */
  lemma ElementIsAttachedDiffers(h: Handles, e: ErrorState, wait: Outcome<Option<nat>>)
    ensures var ff := FirefoxInstance.ElementIsAttached(FirefoxInstance.Firefox(h), wait);
            var inst := BrowserInstance.ElementIsAttached(BrowserInstance.Instance(h, e), Forget(wait));
            && (h.page.Some? && wait.Ok? && wait.value.Some? ==>
                  ff == Returned(true) && inst == Step(true, e))
            && (h.page.Some? && wait.Ok? && wait.value.None? ==>
                  ff == Returned(false) && inst == Step(true, e))
            && (h.page.Some? && TimedOut(wait) ==>
                  ff == Returned(false) && inst == Step(false, Record(e, wait.fault.msg)))
            && (h.page.Some? && wait.Err? && wait.fault.Failure? ==>
                  ff == Thrown(wait.fault.msg) && inst == Step(false, Record(e, wait.fault.msg)))
            && (h.page.None? ==>
                  ff == Thrown(NullReferenceMessage) && inst == Step(false, Record(e, NullReferenceMessage)))
  {
  }

  /** One error log for every level: an instance call, then a call on one of
      its frames, then a call on an element of that frame, all report into
      the same log, in call order. */
  lemma OneLogForEveryLevel(inst: BrowserInstance.Instance, nav: Outcome<()>, frameClick: Outcome<()>,
                            elementClick: Outcome<()>)
    ensures var s1 := BrowserInstance.NavigateTo(inst, nav).errors;
            var s2 := FrameWrapper.ClickOn(s1, frameClick).errors;
            var s3 := ElementWrapper.ClickOn(s2, elementClick).errors;
            LoggedAll(inst.errors, s3, FaultMessages([OnPage(inst.handles, nav), frameClick, elementClick]))
  {
    var calls := [OnPage(inst.handles, nav), frameClick, elementClick];
    assert calls[1..] == [frameClick, elementClick];
    assert calls[1..][1..] == [elementClick];
    assert RunAttempts(inst.errors, calls)
           == ElementWrapper.ClickOn(FrameWrapper.ClickOn(BrowserInstance.NavigateTo(inst, nav).errors,
                                                          frameClick).errors, elementClick).errors;
  }
}
