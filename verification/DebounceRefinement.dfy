/**
 * The queue object refines the queue of the session machine: each call the debouncer makes
 * moves the object from representing a state to representing the state after the step.
 */
module DebounceRefinement {
  import opened Basics
  import opened Debounce

  /** The loop is the only taker; its promise in `take` has this number. */
  const LOOP: nat := 0

  /** `q` holds the queue of `s`; `waker` is the number of the loop's latest `whenReady` promise. */
  ghost predicate Represents(q: AsyncQueue<Message>, s: Session, waker: nat)
    reads q
  {
    && q.Valid()
    && q.items == s.items && q.closed == s.closed
    && q.waiters == (if s.pc.AwaitingTake? then [LOOP] else [])
    && (s.pc.Racing? ==> (s.pc.ready <==> waker !in q.readyWakers))
  }

  /** `process`. */
  method Process(q: AsyncQueue<Message>, ghost s: Session, ghost waker: nat, m: Message)
    requires Represents(q, s, waker) && Inv(s)
    modifies q
    ensures Represents(q, Next(s, Debounce.Push(m)), waker)
  {
    var handedTo, woken := q.Push(m);
  }

  /** The first half of `shutdown`. */
  method Shutdown(q: AsyncQueue<Message>, ghost s: Session, ghost waker: nat)
    requires Represents(q, s, waker)
    modifies q
    ensures Represents(q, Next(s, Debounce.Close), waker)
  {
    var nulled, woken := q.Close();
  }

  /** The loop without a deadline: what `take` gives at once, or the loop as the registered waiter. */
  method Block(q: AsyncQueue<Message>, ghost s: Session, ghost waker: nat) returns (resolved: bool, m: Option<Message>)
    requires Represents(q, s, waker) && s.pc.Top? && s.deadline.None?
    modifies q
    ensures Represents(q, Next(s, StartRound), waker)
    ensures Next(s, StartRound).pc == if resolved then Taken(m) else AwaitingTake
  {
    resolved, m := q.Take(LOOP);
  }

  /** The loop with a deadline: `whenReady` with a new promise, raced against the timer. */
  method Race(q: AsyncQueue<Message>, ghost s: Session, ghost before: nat, waker: nat) returns (ready: bool)
    requires Represents(q, s, before) && s.pc.Top? && s.deadline.Some? && waker !in q.readyWakers
    modifies q
    ensures Represents(q, Next(s, StartRound), waker)
    ensures Next(s, StartRound).pc == Racing(ready, false)
  {
    ready := q.WhenReady(waker);
  }

  /** The race was won by the queue: `tryTake` finds the next message, or the loop is done. */
  method Ready(q: AsyncQueue<Message>, ghost s: Session, ghost waker: nat) returns (m: Option<Message>)
    requires Represents(q, s, waker) && Inv(s) && Enabled(s, RaceReady)
    modifies q
    ensures Represents(q, Next(s, RaceReady), waker)
    ensures m.Some? ==> Next(s, RaceReady).pending == s.pending + [m.value]
    ensures m.None? ==> s.closed && Next(s, RaceReady).dispatched == s.dispatched + [s.pending]
  {
    m := q.TryTake();
  }
}
