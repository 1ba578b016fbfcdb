/** `ElementWrapper`: the wrapper operations scoped to one element handle.
    An element holds only its handle and the frame it was found in; every
    failure is reported through that frame into the owning instance's error
    state, passed in here as `sink`. */
module ElementWrapper {
  import opened Driver
  import opened Errors
  import opened Boundary
  import opened FrameWrapper

  datatype Element = Element(handle: nat, frame: Frame)

  /** `AttachedElements`: one wrapper per descendant handle the query
      returns, in the same order, each bound to this element's frame; on a
      failed query an empty sequence and one log entry. */
  function AttachedElements(e: Element, sink: ErrorState, query: Outcome<seq<nat>>): (r: Step<seq<Element>>)
    ensures query.Ok? ==> && |r.value| == |query.value|
                          && (forall i :: 0 <= i < |r.value| ==> r.value[i] == Element(query.value[i], e.frame))
                          && r.errors == sink
    ensures query.Err? ==> r.value == [] && LoggedOnce(sink, r.errors, query.fault.msg)
  {
    match query
    case Ok(handles) => Step(seq(|handles|, i requires 0 <= i < |handles| => Element(handles[i], e.frame)), sink)
    case Err(f) => Step([], Record(sink, f.msg))
  }

  /** `ClickOn`: true iff the element click succeeds. */
  function ClickOn(sink: ErrorState, click: Outcome<()>): (r: Step<bool>)
    ensures ReportsBool(sink, click, r)
  {
    Attempt(sink, click)
  }

  /** `ElementIsAttached`: true iff the wait for an attached descendant
      matching the selector succeeds. */
  function ElementIsAttached(sink: ErrorState, wait: Outcome<()>): (r: Step<bool>)
    ensures ReportsBool(sink, wait, r)
  {
    Attempt(sink, wait)
  }

  /** `GetText`: the element's trimmed text content, or "" and one log entry. */
  function GetText(sink: ErrorState, read: Outcome<string>): (r: Step<string>)
    ensures ReportsText(sink, read, r)
  {
    ReadText(sink, read)
  }

  /** `GetFormattedText`: the element's trimmed inner text, or "" and one
      log entry. */
  function GetFormattedText(sink: ErrorState, read: Outcome<string>): (r: Step<string>)
    ensures ReportsText(sink, read, r)
  {
    ReadText(sink, read)
  }

  /** Clicking each element of `found` in turn, the `i`-th click answered by
      `clicks[i]`: the result and the error state each click leaves. */
  function ClickEach(sink: ErrorState, found: seq<Element>, clicks: seq<Outcome<()>>): (r: Step<seq<bool>>)
    requires |clicks| == |found|
    ensures |r.value| == |found|
    ensures forall i :: 0 <= i < |found| ==> (r.value[i] <==> clicks[i].Ok?)
    ensures LoggedAll(sink, r.errors, FaultMessages(clicks))
    decreases |found|
  {
    if found == [] then Step([], sink)
    else
      var first := ClickOn(sink, clicks[0]);
      var rest := ClickEach(first.errors, found[1..], clicks[1..]);
      FaultMessagesCons(clicks);
      assert LoggedAll(sink, first.errors, if clicks[0].Err? then [clicks[0].fault.msg] else []);
      LoggedAllAppend(sink, first.errors, rest.errors,
                      if clicks[0].Err? then [clicks[0].fault.msg] else [], FaultMessages(clicks[1..]));
      Step([first.value] + rest.value, rest.errors)
  }

  /** Every element `AttachedElements` returns reports into the same sink as
      the element it was found from: querying, then clicking each result,
      leaves one log holding the query's failure (if any) and then each
      failed click's message, in order. */
  lemma AttachedElementsShareTheSink(e: Element, sink: ErrorState, query: Outcome<seq<nat>>,
                                     clicks: seq<Outcome<()>>)
    requires |clicks| == |AttachedElements(e, sink, query).value|
    ensures var found := AttachedElements(e, sink, query);
            var clicked := ClickEach(found.errors, found.value, clicks);
            && (forall i :: 0 <= i < |found.value| ==> found.value[i].frame == e.frame)
            && LoggedAll(sink, clicked.errors, FaultMessages([query]) + FaultMessages(clicks))
  {
    var found := AttachedElements(e, sink, query);
    var clicked := ClickEach(found.errors, found.value, clicks);
    FaultMessagesCons([query]);
    assert [query][1..] == [];
    LoggedAllAppend(sink, found.errors, clicked.errors, FaultMessages([query]), FaultMessages(clicks));
  }
}
