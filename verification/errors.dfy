/** The error state one browser instance shares with every frame and element
    wrapper derived from it: a chronological log and the most recent error. */
module Errors {
  import opened Wrappers

  datatype ErrorState = ErrorState(errorLog: seq<string>, lastError: Option<string>)

  /** A new instance starts with an empty log and no last error. */
  const NoErrors := ErrorState([], None)

  /** One failure was reported: its message was appended and it became the
      last error. */
  predicate LoggedOnce(before: ErrorState, after: ErrorState, msg: string) {
    after.errorLog == before.errorLog + [msg] && after.lastError == Some(msg)
  }

  /** The failures `msgs` were reported in order. */
  predicate LoggedAll(before: ErrorState, after: ErrorState, msgs: seq<string>) {
    && after.errorLog == before.errorLog + msgs
    && after.lastError == (if msgs == [] then before.lastError else Some(msgs[|msgs| - 1]))
  }

  /** The body of every catch block: `ErrorLog.Add(ex.Message); LastError = ex;`. */
  function Record(e: ErrorState, msg: string): (r: ErrorState)
    ensures LoggedOnce(e, r, msg)
  {
    ErrorState(e.errorLog + [msg], Some(msg))
  }

  /** One failure followed by a run of failures is a run of failures. */
  lemma LoggedAllCons(a: ErrorState, b: ErrorState, c: ErrorState, msg: string, msgs: seq<string>)
    requires LoggedOnce(a, b, msg) && LoggedAll(b, c, msgs)
    ensures LoggedAll(a, c, [msg] + msgs)
  {
  }

  /** Two runs of failures one after the other are one run. */
  lemma LoggedAllAppend(a: ErrorState, b: ErrorState, c: ErrorState, m1: seq<string>, m2: seq<string>)
    requires LoggedAll(a, b, m1) && LoggedAll(b, c, m2)
    ensures LoggedAll(a, c, m1 + m2)
  {
    assert a.errorLog + m1 + m2 == a.errorLog + (m1 + m2);
    if m2 != [] {
      assert (m1 + m2)[|m1 + m2| - 1] == m2[|m2| - 1];
    }
  }

  /** A wrapper's return value together with the error state it leaves. */
  datatype Step<+T> = Step(value: T, errors: ErrorState)
}
