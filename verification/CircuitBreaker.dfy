/**
 * shared/resilience.py: CircuitBreaker. The breaker moves from OPEN to HALF_OPEN lazily, when its state is
 * read; the history of recorded calls decides alone what it answers.
 */
module CircuitBreakers {

  datatype CircuitState = CLOSED | OPEN | HALF_OPEN

  /** What callers have reported, oldest first, with the clock reading of a failure. */
  datatype Outcome = Success | Failure(at: int)

  type History = seq<Outcome>

  /** Failures since the last success. */
  function Failures(h: History): nat {
    if h == [] || h[|h| - 1].Success? then 0 else 1 + Failures(h[..|h| - 1])
  }

  /** The clock reading of the last failure; 0.0 in the program before any. */
  function LastFailure(h: History): int {
    if h == [] then 0
    else if h[|h| - 1].Failure? then h[|h| - 1].at
    else LastFailure(h[..|h| - 1])
  }

  /** A threshold below 1 acts as 1: a breaker trips only when a failure is recorded. */
  predicate Tripped(h: History, threshold: int) {
    Failures(h) >= 1 && Failures(h) >= threshold
  }

  lemma Grows(h: History, at: int)
    ensures Failures(h + [Success]) == 0 && LastFailure(h + [Success]) == LastFailure(h)
    ensures Failures(h + [Failure(at)]) == Failures(h) + 1 && LastFailure(h + [Failure(at)]) == at
  {
    assert (h + [Success])[..|h|] == h && (h + [Failure(at)])[..|h|] == h;
  }

  lemma {:induction false} FailuresMean(h: History)
    ensures Failures(h) <= |h|
    ensures forall i :: |h| - Failures(h) <= i < |h| ==> h[i].Failure?
    ensures Failures(h) < |h| ==> h[|h| - Failures(h) - 1].Success?
    ensures Failures(h) > 0 ==> LastFailure(h) == h[|h| - 1].at
  {
    if h != [] && h[|h| - 1].Failure? {
      var shorter := h[..|h| - 1];
      FailuresMean(shorter);
      assert forall i :: 0 <= i < |shorter| ==> shorter[i] == h[i];
    }
  }

  /** The last n reports are all failures; n below 1 counts as 1. */
  ghost predicate FailedInARow(h: History, n: int) {
    var m := if n < 1 then 1 else n;
    |h| >= m && forall i :: |h| - m <= i < |h| ==> h[i].Failure?
  }

  lemma TrippedMeans(h: History, threshold: int)
    ensures Tripped(h, threshold) <==> FailedInARow(h, threshold)
  {
    FailuresMean(h);
    var m := if threshold < 1 then 1 else threshold;
    if Failures(h) < m <= |h| {
      assert !h[|h| - Failures(h) - 1].Failure?;
    }
  }

  /** The last reports are all failures, as many as the threshold, and the last is too recent. */
  ghost predicate TurnedDown(h: History, threshold: int, recovery: int, now: int) {
    FailedInARow(h, threshold) && now - h[|h| - 1].at < recovery
  }

  /** A change of state passed to `on_state_change`. */
  datatype Change = Change(before: CircuitState, after: CircuitState)

  class CircuitBreaker {
    const failureThreshold: int
    const recoveryTimeout: int
    var failureCount: int
    var lastFailureTime: int
    var current: CircuitState
    var changes: seq<Change>
    ghost var history: History
    ghost var clock: int

    /** Every field is a function of the history, but for the moment at which OPEN becomes HALF_OPEN. */
    ghost predicate Valid()
      reads this
    {
      && failureCount == Failures(history)
      && lastFailureTime == LastFailure(history)
      && (current != CLOSED <==> Tripped(history, failureThreshold))
      && (current == HALF_OPEN ==> clock - lastFailureTime >= recoveryTimeout)
      && (current != CLOSED <==> changes != [] && changes[|changes| - 1].after == OPEN)
    }

    constructor (failureThreshold: int, recoveryTimeout: int, ghost now: int)
      ensures Valid() && history == [] && changes == [] && clock == now
      ensures this.failureThreshold == failureThreshold && this.recoveryTimeout == recoveryTimeout
    {
      this.failureThreshold, this.recoveryTimeout := failureThreshold, recoveryTimeout;
      failureCount, lastFailureTime, current, changes := 0, 0, CLOSED, [];
      history, clock := [], now;
    }

    /** The `state` property: reading it may move the breaker to HALF_OPEN. */
    method State(now: int) returns (s: CircuitState)
      requires Valid() && clock <= now
      modifies this
      ensures Valid() && clock == now && history == old(history) && changes == old(changes)
      ensures s == if !FailedInARow(history, failureThreshold) then CLOSED
                   else if now - history[|history| - 1].at >= recoveryTimeout then HALF_OPEN else OPEN
    {
      TrippedMeans(history, failureThreshold);
      FailuresMean(history);
      clock := now;
      if current == OPEN && now - lastFailureTime >= recoveryTimeout {
        current := HALF_OPEN;
      }
      return current;
    }

    /** A call is turned down exactly while the last reports are failures, as many as the threshold, and too recent. */
    method CanExecute(now: int) returns (ok: bool)
      requires Valid() && clock <= now
      modifies this
      ensures Valid() && clock == now && history == old(history) && changes == old(changes)
      ensures ok == !TurnedDown(history, failureThreshold, recoveryTimeout, now)
    {
      var s := State(now);
      return s != OPEN;
    }

    /** Resets the breaker; a callback is made exactly when it was not CLOSED. */
    method RecordSuccess()
      requires Valid()
      modifies this
      ensures Valid() && history == old(history) + [Success] && clock == old(clock)
      ensures current == CLOSED
      ensures changes == old(changes) + if old(FailedInARow(history, failureThreshold)) then [Change(old(current), CLOSED)] else []
    {
      TrippedMeans(history, failureThreshold);
      hide Failures, LastFailure, FailedInARow;
      Grows(history, 0);
      if current != CLOSED {
        changes := changes + [Change(current, CLOSED)];
        current := CLOSED;
      }
      failureCount := 0;
      history := history + [Success];
    }

    /** Counts a failure; a callback is made exactly when the threshold is reached or passed. */
    method RecordFailure(now: int)
      requires Valid() && clock <= now
      modifies this
      ensures Valid() && history == old(history) + [Failure(now)] && clock == now
      ensures Failures(history) == old(Failures(history)) + 1 && LastFailure(history) == now
      ensures changes == old(changes) + if FailedInARow(history, failureThreshold) then [Change(old(current), OPEN)] else []
      ensures current == if FailedInARow(history, failureThreshold) then OPEN else CLOSED
    {
      TrippedMeans(history + [Failure(now)], failureThreshold);
      hide Failures, LastFailure, FailedInARow;
      Grows(history, now);
      failureCount := failureCount + 1;
      lastFailureTime := now;
      clock := now;
      history := history + [Failure(now)];
      if failureCount >= failureThreshold {
        changes := changes + [Change(current, OPEN)];
        current := OPEN;
      }
    }
  }

  // ------------------------------------------------------------ whole runs

  /** What a client may do. */
  datatype Call = Ask(now: int) | Report(outcome: Outcome)

  function Reported(calls: seq<Call>): History {
    if calls == [] then []
    else Reported(calls[..|calls| - 1]) + if calls[|calls| - 1].Report? then [calls[|calls| - 1].outcome] else []
  }

  function TimeOf(c: Call): int { if c.Ask? then c.now else if c.outcome.Failure? then c.outcome.at else 0 }

  ghost predicate OnClock(calls: seq<Call>, start: int) {
    && (forall i :: 0 <= i < |calls| && calls[i] != Report(Success) ==> start <= TimeOf(calls[i]))
    && (forall i, j :: 0 <= i < j < |calls| && calls[i] != Report(Success) && calls[j] != Report(Success) ==>
         TimeOf(calls[i]) <= TimeOf(calls[j]))
  }

  /**
   * Over a whole run on a monotone clock, a question is answered no exactly when the last reports before it are
   * failures, as many as the threshold, and the last is too recent, however often the state was read in between.
   * The breaker is away from CLOSED exactly while the last reports are as many failures, which is exactly when its
   * last callback said "open".
   */
  method Drive(threshold: int, recovery: int, calls: seq<Call>, ghost start: int)
    returns (answers: seq<bool>, breaker: CircuitBreaker)
    requires OnClock(calls, start)
    ensures fresh(breaker) && |answers| == |calls|
    ensures forall i :: 0 <= i < |calls| && calls[i].Ask? ==>
              answers[i] == !TurnedDown(Reported(calls[..i]), threshold, recovery, calls[i].now)
    ensures breaker.current != CLOSED <==> FailedInARow(Reported(calls), threshold)
    ensures breaker.current != CLOSED <==> breaker.changes != [] && breaker.changes[|breaker.changes| - 1].after == OPEN
  {
    hide Failures, LastFailure, Tripped, TurnedDown, FailedInARow;
    breaker := new CircuitBreaker(threshold, recovery, start);
    answers := [];
    for i := 0 to |calls|
      invariant fresh(breaker) && breaker.Valid()
      invariant breaker.failureThreshold == threshold && breaker.recoveryTimeout == recovery
      invariant breaker.history == Reported(calls[..i]) && |answers| == i
      invariant forall j :: i <= j < |calls| && calls[j] != Report(Success) ==> breaker.clock <= TimeOf(calls[j])
      invariant forall j :: 0 <= j < i && calls[j].Ask? ==>
                  answers[j] == !TurnedDown(Reported(calls[..j]), threshold, recovery, calls[j].now)
    {
      assert calls[..i + 1][..i] == calls[..i];
      var answer := true;
      match calls[i] {
        case Ask(now) => answer := breaker.CanExecute(now);
        case Report(Success) => breaker.RecordSuccess();
        case Report(Failure(at)) => breaker.RecordFailure(at);
      }
      answers := answers + [answer];
    }
    assert calls[..|calls|] == calls;
    TrippedMeans(Reported(calls), threshold);
  }
}
