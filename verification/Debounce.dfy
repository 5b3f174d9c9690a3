/**
 * The session debouncer: an `AsyncQueue` and the actor loop of
 * `SessionDebouncer.run`. Pushes, closing, the clock, the timer and the handler
 * may interleave with the loop at every await.
 */
module Debounce {
  import opened Basics
  import opened Text

  const UNMENTIONED_DELAY_MS: int := 100

  datatype Message = Message(text: string, isMentioned: bool, images: seq<string>, meta: string)

  datatype Config = Config(debounceMs: int, delayMs: int, activeWindowMs: int)

  /** `nextDelayMs`; the second value is the new time of the last mention. */
  function NextDelay(c: Config, m: Message, lastMentionedAt: Option<int>, now: int): (int, Option<int>) {
    if m.isMentioned then (c.debounceMs, Some(now))
    else if lastMentionedAt.Some? && now - lastMentionedAt.value < c.activeWindowMs then (c.delayMs, lastMentionedAt)
    else (UNMENTIONED_DELAY_MS, lastMentionedAt)
  }

  // ------------------------------------------------------------ the queue

  /** `AsyncQueue`; waiters and wakers are the numbers of the promises they resolve. */
  class AsyncQueue<T(!new)> {
    var items: seq<T>
    var waiters: seq<nat>
    var readyWakers: seq<nat>
    var closed: bool

    /** Someone waits in `take` only while nothing is buffered and the queue is open. */
    ghost predicate Valid()
      reads this
    {
      && (waiters != [] ==> items == [] && !closed)
      && (readyWakers != [] ==> items == [] && !closed)
    }

    constructor ()
      ensures Valid() && items == [] && waiters == [] && readyWakers == [] && !closed
    {
      items, waiters, readyWakers, closed := [], [], [], false;
    }

    /** Hands the value to the longest waiting taker, else buffers it and wakes every waker. */
    method Push(v: T) returns (handedTo: Option<nat>, woken: seq<nat>)
      requires Valid()
      modifies this
      ensures Valid() && closed == old(closed)
      ensures handedTo.Some? <==> !closed && old(waiters) != []
      ensures handedTo.Some? ==> old(waiters) == [handedTo.value] + waiters
      ensures handedTo.None? ==> waiters == old(waiters)
      ensures items == if handedTo.None? && !closed then old(items) + [v] else old(items)
      ensures woken + readyWakers == old(readyWakers)
      ensures handedTo.None? && !closed ==> readyWakers == []
    {
      handedTo, woken := None, [];
      if closed {
        return;
      }
      if waiters != [] {
        handedTo := Some(waiters[0]);
        waiters := waiters[1..];
        return;
      }
      items := items + [v];
      woken := readyWakers;
      readyWakers := [];
    }

    /** The value taken, `None` once closed and drained, or nothing yet with the taker registered. */
    method Take(taker: nat) returns (ready: bool, v: Option<T>)
      requires Valid()
      modifies this
      ensures Valid() && closed == old(closed) && readyWakers == old(readyWakers)
      ensures ready <==> old(items) != [] || closed
      ensures v.Some? <==> old(items) != []
      ensures old(items) == (if v.Some? then [v.value] else []) + items
      ensures waiters == if ready then old(waiters) else old(waiters) + [taker]
    {
      v := TryTake();
      if v.Some? || closed {
        return true, v;
      }
      waiters := waiters + [taker];
      return false, None;
    }

    method TryTake() returns (v: Option<T>)
      requires Valid()
      modifies this
      ensures Valid() && unchanged(`waiters) && unchanged(`readyWakers) && unchanged(`closed)
      ensures v.Some? <==> old(items) != []
      ensures old(items) == (if v.Some? then [v.value] else []) + items
    {
      if items == [] {
        return None;
      }
      v := Some(items[0]);
      items := items[1..];
    }

    method WhenReady(waker: nat) returns (ready: bool)
      requires Valid()
      modifies this`readyWakers
      ensures Valid()
      ensures ready <==> items != [] || closed
      ensures readyWakers == if ready then old(readyWakers) else old(readyWakers) + [waker]
    {
      if items != [] || closed {
        return true;
      }
      readyWakers := readyWakers + [waker];
      return false;
    }

    /** Every waiter gets `null` and every waker is woken. */
    method Close() returns (nulled: seq<nat>, woken: seq<nat>)
      requires Valid()
      modifies this
      ensures Valid() && closed && items == old(items) && waiters == [] && readyWakers == []
      ensures nulled == old(waiters) && woken == old(readyWakers)
    {
      closed := true;
      nulled, woken := waiters, readyWakers;
      waiters, readyWakers := [], [];
    }
  }

  // ------------------------------------------------------- the actor loop

  /** Where the loop of `run` stands between two awaits. */
  datatype Pc =
    | Top
    | AwaitingTake
    | Taken(message: Option<Message>)
    | Racing(ready: bool, fired: bool)
    | Dispatching(last: bool)
    | Returned

  /** A message and the time at which the loop collected it. */
  datatype Arrival = Arrival(message: Message, at: int)

  /**
   * `accepted`, `collected` and `dispatched` record what was pushed while open, what the loop
   * put into `pending` and when, and what the handler got.
   */
  datatype Session = Session(
    config: Config,
    now: int,
    items: seq<Message>,
    closed: bool,
    pc: Pc,
    pending: seq<Message>,
    deadline: Option<int>,
    lastMentionedAt: Option<int>,
    accepted: seq<Message>,
    collected: seq<Arrival>,
    dispatched: seq<seq<Message>>)

  datatype Action =
    | Push(message: Message)
    | Close
    | Tick(now: int)
    | StartRound
    | ResumeTake
    | TimerFires
    | RaceReady
    | RaceTimeout
    | HandlerDone

  function Start(config: Config, now: int): Session {
    Session(config, now, [], false, Top, [], None, None, [], [], [])
  }

  predicate Enabled(s: Session, a: Action) {
    match a
    case Push(_) => true
    case Close => true
    case Tick(now) => now >= s.now
    case StartRound => s.pc.Top?
    case ResumeTake => s.pc.Taken?
    case TimerFires => s.pc.Racing? && !s.pc.fired && s.deadline.Some? && s.now >= s.deadline.value
    case RaceReady => s.pc.Racing? && s.pc.ready
    case RaceTimeout => s.pc.Racing? && s.pc.fired
    case HandlerDone => s.pc.Dispatching?
  }

  /** A message reaches `pending` and moves the deadline. */
  function Collect(s: Session, m: Message): Session {
    var (wait, mentioned) := NextDelay(s.config, m, s.lastMentionedAt, s.now);
    s.(pc := Top, pending := s.pending + [m], deadline := Some(s.now + wait), lastMentionedAt := mentioned,
       collected := s.collected + [Arrival(m, s.now)])
  }

  function Next(s: Session, a: Action): Session
    requires Enabled(s, a)
  {
    match a
    case Push(m) =>
      if s.closed then s
      else if s.pc.AwaitingTake? then s.(pc := Taken(Some(m)), accepted := s.accepted + [m])
      else
        s.(items := s.items + [m], accepted := s.accepted + [m],
           pc := if s.pc.Racing? then s.pc.(ready := true) else s.pc)
    case Close =>
      s.(closed := true,
         pc := if s.pc.AwaitingTake? then Taken(None) else if s.pc.Racing? then s.pc.(ready := true) else s.pc)
    case Tick(now) => s.(now := now)
    case StartRound =>
      if s.deadline.Some? then s.(pc := Racing(s.items != [] || s.closed, false))
      else if s.items != [] then s.(pc := Taken(Some(s.items[0])), items := s.items[1..])
      else if s.closed then s.(pc := Taken(None))
      else s.(pc := AwaitingTake)
    case ResumeTake =>
      if s.pc.message.None? then s.(pc := Returned) else Collect(s, s.pc.message.value)
    case TimerFires => s.(pc := s.pc.(fired := true))
    case RaceReady =>
      if s.items != [] then Collect(s, s.items[0]).(items := s.items[1..])
      else if !s.closed then s.(pc := Top)
      else if s.pending == [] then s.(pc := Returned)
      else s.(pc := Dispatching(true), pending := [], dispatched := s.dispatched + [s.pending])
    case RaceTimeout =>
      s.(pc := Dispatching(false), pending := [], deadline := None, dispatched := s.dispatched + [s.pending])
    case HandlerDone => s.(pc := if s.pc.last then Returned else Top)
  }

  ghost predicate Run(trace: seq<Session>) {
    && trace != []
    && trace[0] == Start(trace[0].config, trace[0].now)
    && forall i :: 0 <= i < |trace| - 1 ==> Steps(trace[i], trace[i + 1])
  }

  ghost predicate Steps(s: Session, s': Session) {
    exists a :: Enabled(s, a) && s' == Next(s, a)
  }

  // ---------------------------------------------------------- conservation

  function Flatten(batches: seq<seq<Message>>): seq<Message> {
    if batches == [] then [] else Flatten(batches[..|batches| - 1]) + batches[|batches| - 1]
  }

  function InFlight(pc: Pc): seq<Message> {
    if pc.Taken? && pc.message.Some? then [pc.message.value] else []
  }

  /** Dispatched batches, pending, the hand-off and the queue hold the accepted messages, in order. */
  predicate Conserved(s: Session) {
    Flatten(s.dispatched) + s.pending + InFlight(s.pc) + s.items == s.accepted
  }

  predicate Inv(s: Session) {
    && Conserved(s)
    && (forall b :: b in s.dispatched ==> b != [])
    && match s.pc
       case Top => (s.deadline.Some? <==> s.pending != [])
       case AwaitingTake => s.deadline.None? && s.pending == [] && s.items == [] && !s.closed
       case Taken(m) =>
         && s.deadline.None? && s.pending == []
         && (m.None? ==> s.closed && s.items == [])
       case Racing(ready, _) => s.deadline.Some? && s.pending != [] && (ready <==> s.items != [] || s.closed)
       case Dispatching(last) => s.pending == [] && (if last then s.closed && s.items == [] else s.deadline.None?)
       case Returned => s.closed && s.pending == [] && s.items == []
  }

  lemma FlattenStep(batches: seq<seq<Message>>, batch: seq<Message>)
    ensures Flatten(batches + [batch]) == Flatten(batches) + batch
  {
    assert (batches + [batch])[..|batches|] == batches;
  }

  lemma PushInv(s: Session, m: Message)
    requires Inv(s)
    ensures Inv(Next(s, Push(m)))
  {
    if !s.closed {
      var before := Flatten(s.dispatched) + s.pending + InFlight(s.pc);
      if s.pc.AwaitingTake? {
        assert before == Flatten(s.dispatched) + s.pending;
        assert before + [m] + [] == before + [] + [m];
      } else {
        assert before + (s.items + [m]) == (before + s.items) + [m];
      }
    }
  }

  /** A message moves from the front of the queue to the end of `pending`. */
  lemma CollectInv(s: Session, m: Message, rest: seq<Message>)
    requires Inv(s) && (s.pc.Taken? || s.pc.Racing?)
    requires InFlight(s.pc) + s.items == [m] + rest
    ensures Inv(Collect(s, m).(items := rest))
  {
    var done := Flatten(s.dispatched);
    assert done + s.pending + InFlight(s.pc) + s.items == done + s.pending + (InFlight(s.pc) + s.items);
    assert done + s.pending + ([m] + rest) == done + (s.pending + [m]) + [] + rest;
  }

  /** The pending messages become one batch. */
  lemma BatchInv(s: Session, a: Action)
    requires Inv(s) && Enabled(s, a)
    requires a.RaceTimeout? || (a.RaceReady? && s.items == [])
    ensures Inv(Next(s, a))
  {
    FlattenStep(s.dispatched, s.pending);
    assert Flatten(s.dispatched) + s.pending + [] == Flatten(s.dispatched) + s.pending;
  }

  lemma StartInv(s: Session)
    requires Inv(s) && Enabled(s, StartRound)
    ensures Inv(Next(s, StartRound))
  {
    var done := Flatten(s.dispatched) + s.pending;
    if s.items != [] {
      assert done + [s.items[0]] + s.items[1..] == done + [] + s.items;
    }
  }

  lemma StepInv(s: Session, a: Action)
    requires Inv(s) && Enabled(s, a)
    ensures Inv(Next(s, a))
  {
    match a
    case Push(m) => PushInv(s, m);
    case StartRound => StartInv(s);
    case ResumeTake =>
      if s.pc.message.Some? {
        CollectInv(s, s.pc.message.value, s.items);
      }
    case RaceReady =>
      if s.items != [] {
        CollectInv(s, s.items[0], s.items[1..]);
      } else {
        BatchInv(s, a);
      }
    case RaceTimeout => BatchInv(s, a);
    case _ =>
  }

  lemma {:induction false} RunInv(trace: seq<Session>, n: nat)
    requires Run(trace) && n < |trace|
    ensures Inv(trace[n])
  {
    if n > 0 {
      RunInv(trace, n - 1);
      assert Steps(trace[n - 1], trace[n - 1 + 1]);
      var a :| Enabled(trace[n - 1], a) && trace[n] == Next(trace[n - 1], a);
      StepInv(trace[n - 1], a);
    }
  }

  /** In every reachable state nothing accepted is lost, duplicated or reordered. */
  lemma MessagesConserved(trace: seq<Session>, n: nat)
    requires Run(trace) && n < |trace|
    ensures Conserved(trace[n])
  {
    RunInv(trace, n);
  }

  /** When the loop has returned, every accepted message is in exactly one batch, in order. */
  lemma AllDispatched(trace: seq<Session>, n: nat)
    requires Run(trace) && n < |trace| && trace[n].pc.Returned?
    ensures trace[n].closed && Flatten(trace[n].dispatched) == trace[n].accepted
    ensures forall b :: b in trace[n].dispatched ==> b != []
  {
    RunInv(trace, n);
    var s := trace[n];
    assert Flatten(s.dispatched) + [] + [] + [] == Flatten(s.dispatched);
  }

  /** A "ready" wake-up of an open queue always finds a message. */
  lemma NoSpuriousWake(trace: seq<Session>, n: nat)
    requires Run(trace) && n < |trace| && Enabled(trace[n], RaceReady)
    ensures trace[n].items != [] || trace[n].closed
  {
    RunInv(trace, n);
  }

  // --------------------------------------------------------------- shutdown

  predicate IsLoopStep(a: Action) {
    !(a.Push? || a.Close? || a.Tick?)
  }

  /** How many loop steps are left, at most, once the queue is closed. */
  function Rank(s: Session): nat {
    20 * |s.items| + (if s.deadline.Some? then 5 else 0) +
    match s.pc
    case Top => 4
    case AwaitingTake => 11
    case Taken(m) => if m.Some? then 10 else 1
    case Racing(_, fired) => if fired then 2 else 3
    case Dispatching(last) => if last then 1 else 5
    case Returned => 0
  }

  /** After close every step of the loop brings it closer to its return. */
  lemma RankFalls(s: Session, a: Action)
    requires Inv(s) && s.closed && Enabled(s, a)
    ensures Next(s, a).closed
    ensures Rank(Next(s, a)) <= if IsLoopStep(a) then Rank(s) - 1 else Rank(s)
  {
  }

  /** After close the loop is never stuck before it has returned. */
  lemma NeverStuck(trace: seq<Session>, n: nat) returns (a: Action)
    requires Run(trace) && n < |trace| && trace[n].closed && !trace[n].pc.Returned?
    ensures IsLoopStep(a) && Enabled(trace[n], a)
  {
    RunInv(trace, n);
    a := match trace[n].pc
      case Top => StartRound
      case Taken(_) => ResumeTake
      case Racing(_, _) => RaceReady
      case _ => HandlerDone;
  }

  /** The number of loop steps in a run from state `m` to state `n`. */
  ghost function LoopSteps(trace: seq<Session>, m: nat, n: nat): nat
    requires m <= n < |trace|
    decreases n
  {
    if m == n then 0 else LoopSteps(trace, m, n - 1) + (if LoopStep(trace[n - 1], trace[n]) then 1 else 0)
  }

  ghost predicate LoopStep(s: Session, s': Session) {
    exists a :: IsLoopStep(a) && Enabled(s, a) && s' == Next(s, a)
  }

  lemma StepRank(s: Session, s': Session)
    requires Inv(s) && s.closed && Steps(s, s')
    ensures s'.closed && Rank(s') + (if LoopStep(s, s') then 1 else 0) <= Rank(s)
  {
    if LoopStep(s, s') {
      var a :| IsLoopStep(a) && Enabled(s, a) && s' == Next(s, a);
      RankFalls(s, a);
    } else {
      var a :| Enabled(s, a) && s' == Next(s, a);
      RankFalls(s, a);
    }
  }

  lemma TraceRank(trace: seq<Session>, n: nat)
    requires Run(trace) && 0 < n < |trace| && trace[n - 1].closed
    ensures trace[n].closed
    ensures Rank(trace[n]) + (if LoopStep(trace[n - 1], trace[n]) then 1 else 0) <= Rank(trace[n - 1])
  {
    var s, s' := trace[n - 1], trace[n];
    RunInv(trace, n - 1);
    assert Steps(s, s') by {
      assert Steps(trace[n - 1], trace[n - 1 + 1]);
    }
    StepRank(s, s');
  }

  /** However pushes and the clock interleave, a closed loop takes at most `Rank` more steps. */
  lemma {:induction false} ShutdownIsBounded(trace: seq<Session>, m: nat, n: nat)
    requires Run(trace) && m <= n < |trace| && trace[m].closed
    ensures trace[n].closed && LoopSteps(trace, m, n) + Rank(trace[n]) <= Rank(trace[m])
    decreases n
  {
    if m < n {
      ShutdownIsBounded(trace, m, n - 1);
      TraceRank(trace, n);
    }
  }

  // ---------------------------------------------------------------- merging

  function Texts(batch: seq<Message>): seq<string> {
    seq(|batch|, i requires 0 <= i < |batch| => batch[i].text)
  }

  function Images(batch: seq<Message>): seq<string> {
    if batch == [] then [] else batch[0].images + Images(batch[1..])
  }

  /** `mergeMessages`. */
  function Merge(batch: seq<Message>): Option<Message> {
    if batch == [] then None
    else if |batch| == 1 then Some(batch[0])
    else Some(batch[|batch| - 1].(text := Join(Texts(batch), '\n'), isMentioned := true, images := Images(batch)))
  }

  /** How many images the messages have together. */
  function ImageCount(batch: seq<Message>): nat {
    if batch == [] then 0 else ImageCount(batch[..|batch| - 1]) + |batch[|batch| - 1].images|
  }

  lemma {:induction false} ImagesStep(batch: seq<Message>, m: Message)
    ensures Images(batch + [m]) == Images(batch) + m.images
  {
    if batch == [] {
      assert (batch + [m])[1..] == [];
    } else {
      assert (batch + [m])[1..] == batch[1..] + [m];
      ImagesStep(batch[1..], m);
    }
  }

  /** The images of message `i` stand in `images` after those of the earlier messages. */
  ghost predicate ImagesAt(images: seq<string>, batch: seq<Message>, i: nat)
    requires i < |batch|
  {
    var o := ImageCount(batch[..i]);
    o + |batch[i].images| <= |images| && images[o..o + |batch[i].images|] == batch[i].images
  }

  lemma {:induction false} ImagesInOrder(batch: seq<Message>)
    ensures |Images(batch)| == ImageCount(batch)
    ensures forall i :: 0 <= i < |batch| ==> ImagesAt(Images(batch), batch, i)
  {
    if batch != [] {
      var n := |batch| - 1;
      var earlier := batch[..n];
      ImagesInOrder(earlier);
      assert batch == earlier + [batch[n]];
      ImagesStep(earlier, batch[n]);
      forall i | 0 <= i < |batch| ensures ImagesAt(Images(batch), batch, i) {
        if i < n {
          assert ImagesAt(Images(earlier), earlier, i) && earlier[..i] == batch[..i];
        }
      }
    }
  }

  /**
   * What merging a dispatched batch gives: the last message's metadata, every image in order,
   * and the texts in order; when none spans lines, line `i` is the text of message `i`.
   */
  lemma MergeKeepsAll(batch: seq<Message>)
    requires batch != []
    ensures Merge(batch).Some?
    ensures var merged := Merge(batch).value;
            && merged.meta == batch[|batch| - 1].meta
            && (if |batch| == 1 then merged == batch[0] else merged.isMentioned)
            && |merged.images| == ImageCount(batch)
            && (forall i :: 0 <= i < |batch| ==> ImagesAt(merged.images, batch, i))
    ensures (forall m :: m in batch ==> '\n' !in m.text) ==>
              var lines := Split(Merge(batch).value.text, '\n');
              |lines| == |batch| && forall i :: 0 <= i < |batch| ==> lines[i] == batch[i].text
  {
    ImagesInOrder(batch);
    if forall m :: m in batch ==> '\n' !in m.text {
      SplitJoin(Texts(batch), '\n');
    }
    if |batch| == 1 {
      assert Images(batch[1..]) == [];
      assert Texts(batch) == [batch[0].text];
    }
  }
}
