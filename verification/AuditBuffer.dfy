/**
 * shared/agnos_audit.py: the buffer of the audit forwarder. A flush takes its batch out of the buffer before
 * it awaits the network, so flushes may overlap; each is a ticket that is settled once.
 */
module AuditBuffer {
  import opened Collections
  import opened CircuitBreakers

  const MAX_BUFFER_SIZE := 10000

  type Event = string

  /** What became of a removed batch. */
  datatype Fate = InFlight | Sent | Failed | CircuitOpen | Overflow

  datatype Batch = Batch(events: seq<Event>, fate: Fate)

  /** Where Python's slices `b[:m]` and `b[m:]` divide a list of length n. */
  function SplitAt(m: int, n: nat): (k: nat)
    ensures 0 <= m <= n ==> k == m
    ensures m > n ==> k == n
    ensures m < 0 && n + m >= 0 ==> k == n + m
    ensures n + m < 0 ==> k == 0
  {
    if m < 0 then Max(0, n + m) else Min(m, n)
  }

  /** All removed events, oldest batch first. */
  function Removed(ledger: seq<Batch>): seq<Event> {
    if ledger == [] then [] else Removed(ledger[..|ledger| - 1]) + ledger[|ledger| - 1].events
  }

  lemma RemovedSnoc(ledger: seq<Batch>, b: Batch)
    ensures Removed(ledger + [b]) == Removed(ledger) + b.events
  {
    assert (ledger + [b])[..|ledger|] == ledger;
  }

  /** Settling a batch changes its fate, not what was removed. */
  lemma {:induction false} RemovedSettled(ledger: seq<Batch>, i: nat, fate: Fate)
    requires i < |ledger|
    ensures Removed(ledger[i := ledger[i].(fate := fate)]) == Removed(ledger)
  {
    var n := |ledger| - 1;
    var after := ledger[i := ledger[i].(fate := fate)];
    if i < n {
      assert after[..n] == ledger[..n][i := ledger[..n][i].(fate := fate)];
      RemovedSettled(ledger[..n], i, fate);
    } else {
      assert after[..n] == ledger[..n];
    }
  }

  class AgnosAuditForwarder {
    const enabled: bool
    const batchSize: int
    const circuit: CircuitBreaker
    var buffer: seq<Event>
    /** Every event accepted, in order, and every batch removed, in order. */
    ghost var log: seq<Event>
    ghost var ledger: seq<Batch>

    /** Conservation: what was queued is what was removed, in order, followed by the buffer. */
    ghost predicate Valid()
      reads this, circuit
    {
      circuit.Valid() && |buffer| <= MAX_BUFFER_SIZE && log == Removed(ledger) + buffer
    }

    constructor (enabled: bool, batchSize: int, ghost now: int)
      ensures Valid() && fresh(circuit) && log == [] && ledger == [] && buffer == []
      ensures this.enabled == enabled && this.batchSize == batchSize && circuit.clock == now
      ensures circuit.failureThreshold == 5 && circuit.recoveryTimeout == 60
    {
      var breaker := new CircuitBreaker(5, 60, now);
      this.enabled, this.batchSize, this.circuit := enabled, batchSize, breaker;
      buffer, log, ledger := [], [], [];
    }

    /** Queues an event; a full buffer first drops its oldest events, at least one. */
    method QueueEvent(event: Event)
      requires Valid()
      modifies this
      ensures Valid()
      ensures log == old(log) + if enabled then [event] else []
      ensures !enabled ==> buffer == old(buffer) && ledger == old(ledger)
      ensures enabled ==>
                var k := if |old(buffer)| < 10000 then 0 else if batchSize <= 1 then 1 else Min(batchSize, 10000);
                && buffer == old(buffer)[k..] + [event]
                && ledger == old(ledger) + if k > 0 then [Batch(old(buffer)[..k], Overflow)] else []
    {
      hide Removed, Failures, LastFailure, Tripped;
      if !enabled { return; }
      if |buffer| >= MAX_BUFFER_SIZE {
        var dropped := Max(1, |buffer| - MAX_BUFFER_SIZE + batchSize);
        var k := SplitAt(dropped, |buffer|);
        ghost var gone := Batch(buffer[..k], Overflow);
        RemovedSnoc(ledger, gone);
        ledger := ledger + [gone];
        buffer := buffer[k..];
      }
      buffer := buffer + [event];
      log := log + [event];
    }

    /**
     * The first half of `flush`, up to the first await: takes a batch, and gives it up if the circuit is open.
     * A batch on its way is returned, with its number in the ledger.
     */
    method BeginFlush(now: int) returns (batch: Option<seq<Event>>, ghost ticket: nat)
      requires Valid() && circuit.clock <= now
      modifies this, circuit
      ensures Valid() && log == old(log) && circuit.history == old(circuit.history) && old(circuit.clock) <= circuit.clock <= now
      ensures old(buffer) == [] ==> batch == None && ledger == old(ledger) && buffer == []
      ensures old(buffer) != [] ==>
                var k := SplitAt(batchSize, |old(buffer)|);
                var open := TurnedDown(circuit.history, circuit.failureThreshold, circuit.recoveryTimeout, now);
                && buffer == old(buffer)[k..]
                && ledger == old(ledger) + [Batch(old(buffer)[..k], if open then CircuitOpen else InFlight)]
                && batch == if open then None else Some(old(buffer)[..k])
      ensures ticket == |old(ledger)|
    {
      hide Removed, TurnedDown, Failures, LastFailure;
      ticket := |ledger|;
      if buffer == [] { return None, ticket; }
      var k := SplitAt(batchSize, |buffer|);
      var taken := buffer[..k];
      buffer := buffer[k..];
      assert log == Removed(ledger) + (taken + buffer);
      var ok := circuit.CanExecute(now);
      RemovedSnoc(ledger, Batch(taken, if ok then InFlight else CircuitOpen));
      ledger := ledger + [Batch(taken, if ok then InFlight else CircuitOpen)];
      batch := if ok then Some(taken) else None;
    }

    /** The rest of `flush`: the request came back, or raised; nothing is put back into the buffer. */
    method FinishFlush(ghost ticket: nat, ok: bool, now: int)
      requires Valid() && circuit.clock <= now && ticket < |ledger| && ledger[ticket].fate == InFlight
      modifies this, circuit
      ensures Valid() && log == old(log) && buffer == old(buffer) && old(circuit.clock) <= circuit.clock <= now
      ensures ledger == old(ledger)[ticket := old(ledger)[ticket].(fate := if ok then Sent else Failed)]
      ensures circuit.history == old(circuit.history) + [if ok then Success else Failure(now)]
    {
      RemovedSettled(ledger, ticket, if ok then Sent else Failed);
      ledger := ledger[ticket := ledger[ticket].(fate := if ok then Sent else Failed)];
      if ok {
        circuit.RecordSuccess();
      } else {
        circuit.RecordFailure(now);
      }
    }
  }

  // ------------------------------------------------------------ whole runs

  datatype Action = Queue(event: Event) | Begin(now: int) | Finish(which: nat, ok: bool, now: int)

  function Queued(actions: seq<Action>): seq<Event> {
    if actions == [] then []
    else Queued(actions[..|actions| - 1]) + if actions[|actions| - 1].Queue? then [actions[|actions| - 1].event] else []
  }

  function Time(a: Action): int { if a.Queue? then 0 else a.now }

  ghost predicate OnClock(actions: seq<Action>, start: int) {
    && (forall i :: 0 <= i < |actions| && !actions[i].Queue? ==> start <= Time(actions[i]))
    && (forall i, j :: 0 <= i < j < |actions| && !actions[i].Queue? && !actions[j].Queue? ==>
         Time(actions[i]) <= Time(actions[j]))
  }

  /** The flushes on their way, as numbers in the ledger. */
  ghost predicate Waiting(ledger: seq<Batch>, waiting: seq<nat>) {
    && (forall i :: 0 <= i < |waiting| ==> waiting[i] < |ledger| && ledger[waiting[i]].fate == InFlight)
    && (forall i, j :: 0 <= i < j < |waiting| ==> waiting[i] != waiting[j])
  }

  lemma StillWaiting(ledger: seq<Batch>, longer: seq<Batch>, waiting: seq<nat>)
    requires Waiting(ledger, waiting) && ledger <= longer
    ensures Waiting(longer, waiting)
    ensures forall i :: 0 <= i < |waiting| ==> waiting[i] < |ledger|
  {
  }

  lemma OneMoreWaiting(ledger: seq<Batch>, waiting: seq<nat>, ticket: nat, bound: nat)
    requires Waiting(ledger, waiting) && ticket < |ledger| && ledger[ticket].fate == InFlight
    requires bound <= ticket && forall i :: 0 <= i < |waiting| ==> waiting[i] < bound
    ensures Waiting(ledger, waiting + [ticket])
  {
  }

  lemma OneLessWaiting(ledger: seq<Batch>, waiting: seq<nat>, i: nat, fate: Fate)
    requires Waiting(ledger, waiting) && i < |waiting|
    ensures Waiting(ledger[waiting[i] := ledger[waiting[i]].(fate := fate)], waiting[..i] + waiting[i + 1..])
  {
    var rest := waiting[..i] + waiting[i + 1..];
    assert forall j :: 0 <= j < |rest| ==> rest[j] == waiting[if j < i then j else j + 1];
  }

  /**
   * Any interleaving of queueing, flush starts and answers, for any batch size: the buffer is what is left of
   * the queued events after a prefix, at most 10000 long, and the prefix is the removed batches in order.
   * Answers settle the flushes on their way in any order; an answer to no flush does nothing.
   */
  method Drive(batchSize: int, actions: seq<Action>, ghost start: int)
    returns (forwarder: AgnosAuditForwarder)
    requires OnClock(actions, start)
    ensures fresh(forwarder) && |forwarder.buffer| <= 10000
    ensures Queued(actions) == Removed(forwarder.ledger) + forwarder.buffer
  {
    hide Removed, Failures, LastFailure, Tripped, TurnedDown, SplitAt;
    forwarder := new AgnosAuditForwarder(true, batchSize, start);
    ghost var waiting: seq<nat> := [];
    var inFlight := 0;
    for i := 0 to |actions|
      invariant fresh(forwarder) && fresh(forwarder.circuit) && forwarder.Valid() && forwarder.enabled
      invariant forwarder.log == Queued(actions[..i])
      invariant forall j :: i <= j < |actions| && !actions[j].Queue? ==> forwarder.circuit.clock <= Time(actions[j])
      invariant inFlight == |waiting|
      invariant Waiting(forwarder.ledger, waiting)
    {
      assert actions[..i + 1][..i] == actions[..i];
      ghost var was := forwarder.ledger;
      match actions[i] {
        case Queue(event) =>
          forwarder.QueueEvent(event);
          StillWaiting(was, forwarder.ledger, waiting);
        case Begin(now) =>
          ghost var ticket;
          var batch: Option<seq<Event>>;
          batch, ticket := forwarder.BeginFlush(now);
          StillWaiting(was, forwarder.ledger, waiting);
          if batch.Some? {
            OneMoreWaiting(forwarder.ledger, waiting, ticket, |was|);
            inFlight := inFlight + 1;
            waiting := waiting + [ticket];
          }
        case Finish(which, ok, now) =>
          if which < inFlight {
            forwarder.FinishFlush(waiting[which], ok, now);
            OneLessWaiting(was, waiting, which, if ok then Sent else Failed);
            inFlight := inFlight - 1;
            waiting := waiting[..which] + waiting[which + 1..];
          }
      }
    }
    assert actions[..|actions|] == actions;
  }
}
