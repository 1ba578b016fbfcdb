/** The catch-all boundary every wrapper method puts around a driver call:
    a success becomes `true` or trimmed text and leaves the error state
    alone; any exception is logged once and becomes `false` or "". It also
    holds the enumeration loop the "All" readers share. */
module Boundary {
  import opened Wrappers
  import opened Text
  import opened Driver
  import opened Errors

  /** The promise of a boolean wrapper around the driver call `o`. */
  predicate ReportsBool<T>(before: ErrorState, o: Outcome<T>, r: Step<bool>) {
    && (r.value <==> o.Ok?)
    && (o.Ok? ==> r.errors == before)
    && (o.Err? ==> LoggedOnce(before, r.errors, o.fault.msg))
  }

  /** The promise of a text wrapper around the driver read `o`. */
  predicate ReportsText(before: ErrorState, o: Outcome<string>, r: Step<string>) {
    && IsTrimmed(r.value)
    && (o.Ok? ==> r.value == Trim(o.value) && r.errors == before)
    && (o.Err? ==> r.value == "" && LoggedOnce(before, r.errors, o.fault.msg))
  }

  /** `try { call; return true; } catch (Exception ex) { log; return false; }` */
  function Attempt<T>(e: ErrorState, o: Outcome<T>): (r: Step<bool>)
    ensures ReportsBool(e, o, r)
  {
    match o
    case Ok(_) => Step(true, e)
    case Err(f) => Step(false, Record(e, f.msg))
  }

  /** `try { return call.Trim(); } catch (Exception ex) { log; return ""; }` */
  function ReadText(e: ErrorState, o: Outcome<string>): (r: Step<string>)
    ensures ReportsText(e, o, r)
  {
    match o
    case Ok(t) => Step(Trim(t), e)
    case Err(f) => Step("", Record(e, f.msg))
  }

  /** `texts` are the trimmed results of the leading successful answers of
      `answers`, and the enumeration stopped only at a failed read. */
  predicate TrimmedPrefix(texts: seq<string>, answers: seq<Outcome<string>>) {
    && |texts| <= |answers|
    && (forall i :: 0 <= i < |texts| ==> answers[i].Ok? && texts[i] == Trim(answers[i].value))
    && (|texts| < |answers| ==> answers[|texts|].Err?)
  }

  predicate AllOk<T>(os: seq<Outcome<T>>) {
    forall i :: 0 <= i < |os| ==> os[i].Ok?
  }

  /** What the `foreach` over the matched elements collected, and the
      exception that ended it early, if any. */
  datatype Harvest = Harvest(texts: seq<string>, stop: Option<Fault>)

  /** Reference definition of the `foreach` loop: read each matched element
      in order, trim the text, stop at the first exception. */
  function ReadAll(answers: seq<Outcome<string>>): (h: Harvest)
    ensures TrimmedPrefix(h.texts, answers)
    ensures h.stop.None? <==> AllOk(answers)
    ensures h.stop.Some? ==> answers[|h.texts|] == Err(h.stop.value)
  {
    if answers == [] then Harvest([], None)
    else match answers[0]
      case Err(f) => Harvest([], Some(f))
      case Ok(t) =>
        var rest := ReadAll(answers[1..]);
        HarvestCons(answers, rest);
        Harvest([Trim(t)] + rest.texts, rest.stop)
  }

  /** A successful first read extends the harvest of the remaining reads. */
  lemma HarvestCons(answers: seq<Outcome<string>>, rest: Harvest)
    requires answers != [] && answers[0].Ok?
    requires TrimmedPrefix(rest.texts, answers[1..])
    requires rest.stop.None? <==> AllOk(answers[1..])
    requires rest.stop.Some? ==> answers[1..][|rest.texts|] == Err(rest.stop.value)
    ensures TrimmedPrefix([Trim(answers[0].value)] + rest.texts, answers)
    ensures rest.stop.None? <==> AllOk(answers)
    ensures rest.stop.Some? ==> answers[1 + |rest.texts|] == Err(rest.stop.value)
  {
    var texts := [Trim(answers[0].value)] + rest.texts;
    forall i | 0 < i < |texts|
      ensures answers[i].Ok? && texts[i] == Trim(answers[i].value)
    {
      assert texts[i] == rest.texts[i - 1] && answers[i] == answers[1..][i - 1];
    }
    if rest.stop.Some? {
      assert answers[1 + |rest.texts|] == answers[1..][|rest.texts|];
    } else {
      forall i | 0 < i < |answers| ensures answers[i].Ok? {
        assert answers[i] == answers[1..][i - 1];
      }
    }
  }

  /** The `foreach` loop as written: `list.Add(text.Trim())` per element
      until a read throws. */
  method CollectTexts(answers: seq<Outcome<string>>) returns (texts: seq<string>, stop: Option<Fault>)
    ensures Harvest(texts, stop) == ReadAll(answers)
  {
    texts := [];
    var i := 0;
    while i < |answers| && answers[i].Ok?
      invariant 0 <= i <= |answers|
      invariant |texts| == i
      invariant forall j :: 0 <= j < i ==> answers[j].Ok? && texts[j] == Trim(answers[j].value)
    {
      texts := texts + [Trim(answers[i].value)];
      i := i + 1;
    }
    stop := if i < |answers| then Some(answers[i].fault) else None;
    HarvestUnique(Harvest(texts, stop), answers);
  }

  /** The contract of ReadAll determines its result. */
  lemma HarvestUnique(h: Harvest, answers: seq<Outcome<string>>)
    requires TrimmedPrefix(h.texts, answers)
    requires h.stop.None? <==> |h.texts| == |answers|
    requires h.stop.Some? ==> answers[|h.texts|] == Err(h.stop.value)
    ensures h == ReadAll(answers)
  {
  }

  /** The exception that ended an "All" reader: the query's own, or the
      first failed read among the matches; None if every read succeeded. */
  function StopFault(query: Outcome<seq<Outcome<string>>>): Option<Fault> {
    match query
    case Err(f) => Some(f)
    case Ok(answers) =>
      var k := FirstErr(answers);
      if k < |answers| then Some(answers[k].fault) else None
  }

  /** The enumeration stops exactly at the first failed read. */
  lemma HarvestStopsAtFirstErr(answers: seq<Outcome<string>>)
    ensures var h := ReadAll(answers); var k := FirstErr(answers);
            && (h.stop.Some? <==> k < |answers|)
            && (h.stop.Some? ==> |h.texts| == k && h.stop.value == answers[k].fault)
  {
  }

  /** The instance "All" readers' list: the trimmed texts read before the
      exception, followed by that exception's message if there was one. */
  predicate ListsFailure(query: Outcome<seq<Outcome<string>>>, texts: seq<string>) {
    match StopFault(query)
    case None => query.Ok? && |texts| == |query.value| && TrimmedPrefix(texts, query.value)
    case Some(f) =>
      && |texts| >= 1 && texts[|texts| - 1] == f.msg
      && (query.Err? ==> |texts| == 1)
      && (query.Ok? ==> TrimmedPrefix(texts[..|texts| - 1], query.value))
  }

  /** `try { foreach ... list.Add(text.Trim()); } catch (...) { list.Add(ex.Message); }` */
  function CollectWithMessage(query: Outcome<seq<Outcome<string>>>): (texts: seq<string>)
    ensures ListsFailure(query, texts)
  {
    match query
    case Err(f) => [f.msg]
    case Ok(answers) =>
      var h := ReadAll(answers);
      HarvestStopsAtFirstErr(answers);
      if h.stop.Some? then
        assert (h.texts + [h.stop.value.msg])[..|h.texts|] == h.texts;
        h.texts + [h.stop.value.msg]
      else h.texts
  }

  /** Boundary-wrapped calls made one after another on the same error state
      leave exactly the failures' messages in the log, in call order; the
      log is never cleared and the last error is the latest failure. */
  function RunAttempts<T>(e: ErrorState, os: seq<Outcome<T>>): (r: ErrorState)
    ensures LoggedAll(e, r, FaultMessages(os))
    decreases |os|
  {
    if os == [] then e
    else
      var next := Attempt(e, os[0]).errors;
      var r := RunAttempts(next, os[1..]);
      assert FaultMessages(os) == (if os[0].Err? then [os[0].fault.msg] else []) + FaultMessages(os[1..]);
      r
  }
}
