/** The browser driver as seen by the wrappers. The driver itself is not
    modelled: every call it answers becomes an input outcome, and an
    exception the wrappers let through becomes a `Thrown` completion. */
module Driver {

  /** The two kinds of driver exception the wrappers tell apart:
      `TimeoutException` and every other exception. */
  datatype Fault = Timeout(msg: string) | Failure(msg: string)

  /** What one awaited driver call produced. */
  datatype Outcome<+T> = Ok(value: T) | Err(fault: Fault)

  /** How a wrapper method ends: it returns a value, or an exception with
      the given message escapes to its caller. */
  datatype Completion<+T> = Returned(value: T) | Thrown(msg: string)

  predicate TimedOut<T>(o: Outcome<T>) {
    o.Err? && o.fault.Timeout?
  }

  /** The same call with its answer discarded, as when the source awaits a
      call but ignores what it returns. */
  function Forget<T>(o: Outcome<T>): (r: Outcome<()>)
    ensures r.Ok? <==> o.Ok?
    ensures r.Err? ==> r.fault == o.fault
  {
    match o
    case Ok(_) => Ok(())
    case Err(f) => Err(f)
  }

  /** The messages of the failed calls in `os`, in call order. */
  function FaultMessages<T>(os: seq<Outcome<T>>): (ms: seq<string>)
    ensures |ms| <= |os|
    ensures (forall i :: 0 <= i < |os| ==> os[i].Err?) ==>
              |ms| == |os| && forall i :: 0 <= i < |os| ==> ms[i] == os[i].fault.msg
  {
    if os == [] then []
    else
      var rest := FaultMessages(os[1..]);
      if os[0].Err? then [os[0].fault.msg] + rest else rest
  }

  lemma FaultMessagesCons<T>(os: seq<Outcome<T>>)
    requires os != []
    ensures FaultMessages(os) == (if os[0].Err? then [os[0].fault.msg] else []) + FaultMessages(os[1..])
  {
  }

  /** Index of the first call in `os` that threw, or |os|. */
  function FirstErr<T>(os: seq<Outcome<T>>): (k: nat)
    ensures k <= |os|
    ensures forall i :: 0 <= i < k ==> os[i].Ok?
    ensures k < |os| ==> os[k].Err?
  {
    if os == [] || os[0].Err? then 0 else 1 + FirstErr(os[1..])
  }

  /** Index of the first call in `os` that did not time out, or |os|. */
  function FirstNonTimeout<T>(os: seq<Outcome<T>>): (k: nat)
    ensures k <= |os|
    ensures forall i :: 0 <= i < k ==> TimedOut(os[i])
    ensures k < |os| ==> !TimedOut(os[k])
  {
    if os == [] || !TimedOut(os[0]) then 0 else 1 + FirstNonTimeout(os[1..])
  }
}
