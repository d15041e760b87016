/** What the outside world does at each call, decided beforehand: an event a call. */
module Scripts {
  function Next<T>(events: seq<T>): seq<T> {
    if events == [] then [] else events[1..]
  }

  /** Carried out and acknowledged; refused; or carried out while the reply got lost. */
  datatype Answer = Done | Refused | Lost

  /** When the script has run out, everything succeeds. */
  function Current(answers: seq<Answer>): Answer {
    if answers == [] then Done else answers[0]
  }

  predicate AllDone(answers: seq<Answer>) {
    forall i :: 0 <= i < |answers| ==> answers[i] == Done
  }
}
